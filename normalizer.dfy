/** The text normaliser of src/Game.js: `removeJunk`, `resolveAliases` and
    `preprocessString`. The junk-word list and the alias table are explicit
    parameters. */
module Normalizer {
  import opened Text

  /** The tokens that are not junk words, in their original order. */
  function NonJunk(ts: seq<string>, junk: set<string>): (r: seq<string>)
    ensures forall t :: t in r <==> t in ts && t !in junk
    ensures |r| <= |ts|
  {
    if ts == [] then []
    else if ts[0] in junk then NonJunk(ts[1..], junk)
    else [ts[0]] + NonJunk(ts[1..], junk)
  }

  /** The filter distributes over concatenation, so it keeps the relative
      order of the tokens it keeps. */
  lemma {:induction false} NonJunkAppend(a: seq<string>, b: seq<string>, junk: set<string>)
    ensures NonJunk(a + b, junk) == NonJunk(a, junk) + NonJunk(b, junk)
    decreases |a|
  {
    if a == [] {
      assert a + b == b;
    } else {
      assert (a + b)[0] == a[0];
      assert (a + b)[1..] == a[1..] + b;
      NonJunkAppend(a[1..], b, junk);
    }
  }

  /** When no token is junk the filter is the identity. */
  lemma {:induction false} NonJunkKeepsAll(ts: seq<string>, junk: set<string>)
    requires forall k :: 0 <= k < |ts| ==> ts[k] !in junk
    ensures NonJunk(ts, junk) == ts
    decreases |ts|
  {
    if ts != [] {
      NonJunkKeepsAll(ts[1..], junk);
    }
  }

  /** `removeJunk`. */
  function RemoveJunk(s: string, junk: set<string>): string
  {
    Join(NonJunk(Split(s), junk))
  }

  /** The tokens of `removeJunk`'s result are exactly the input's non-junk
      tokens in order; the result is empty when none is left. */
  lemma RemoveJunkTokens(s: string, junk: set<string>)
    ensures var kept := NonJunk(Split(s), junk);
      && (kept == [] ==> RemoveJunk(s, junk) == "")
      && (kept != [] ==> Split(RemoveJunk(s, junk)) == kept)
  {
    var kept := NonJunk(Split(s), junk);
    if kept != [] {
      forall k | 0 <= k < |kept| ensures ' ' !in kept[k] {
        assert kept[k] in kept;
      }
      SplitJoin(kept);
    }
  }

  /** `aliases[word] || word`: a token bound to a non-empty root becomes the
      root; an unbound token, or one bound to the empty string, stays. */
  function ResolveWord(w: string, aliases: map<string, string>): string
  {
    if w in aliases && aliases[w] != "" then aliases[w] else w
  }

  /** The alias substitution does nothing to the token sequence when every
      token already resolves to itself. */
  lemma ResolveAllFixed(ts: seq<string>, aliases: map<string, string>)
    requires forall k :: 0 <= k < |ts| ==> ResolveWord(ts[k], aliases) == ts[k]
    ensures ResolveTokens(ts, aliases) == ts
  {
  }

  /** The token-wise substitution of `resolveAliases`. */
  function ResolveTokens(ts: seq<string>, aliases: map<string, string>): seq<string>
  {
    seq(|ts|, k requires 0 <= k < |ts| => ResolveWord(ts[k], aliases))
  }

  /** `resolveAliases`. */
  function ResolveAliases(s: string, aliases: map<string, string>): string
  {
    Join(ResolveTokens(Split(s), aliases))
  }

  /** Token `k` of `resolveAliases`' result is the root that token `k` of the
      input is bound to, when that root is non-empty, and the token itself
      otherwise; the substitution is applied once, never to its own output.
      When no root contains a space the token count is kept. */
  lemma ResolveAliasesTokens(s: string, aliases: map<string, string>)
    requires forall w :: w in aliases ==> ' ' !in aliases[w]
    ensures var ts := Split(s);
      var r := ResolveAliases(s, aliases);
      && |Split(r)| == |ts|
      && forall k :: 0 <= k < |ts| ==>
           Split(r)[k] == (if ts[k] in aliases && aliases[ts[k]] != "" then aliases[ts[k]] else ts[k])
  {
    SplitJoin(ResolveTokens(Split(s), aliases));
  }

  /** When every token already resolves to itself, `resolveAliases` returns
      its input. */
  lemma ResolveAliasesFixed(s: string, aliases: map<string, string>)
    requires forall t :: t in Split(s) ==> ResolveWord(t, aliases) == t
    ensures ResolveAliases(s, aliases) == s
  {
    var ts := Split(s);
    forall k | 0 <= k < |ts| ensures ResolveWord(ts[k], aliases) == ts[k] {
      assert ts[k] in ts;
    }
    ResolveAllFixed(ts, aliases);
  }

  /** `preprocessString`: lower-case and trim, collapse, drop junk words,
      collapse, resolve aliases, collapse. A leading or trailing space can
      remain, because `trim` runs before the first collapse. */
  function Preprocess(s: string, aliases: map<string, string>, junk: set<string>): string
  {
    var a := Collapse(Trim(Lower(s)));
    var b := Collapse(RemoveJunk(a, junk));
    var c := ResolveAliases(b, aliases);
    Collapse(c)
  }

  /** Whatever the tables hold, the normalised command is in collapsed
      shape. */
  lemma PreprocessShape(s: string, aliases: map<string, string>, junk: set<string>)
    ensures Collapsed(Preprocess(s, aliases, junk))
  {
    var b := Collapse(RemoveJunk(Collapse(Trim(Lower(s))), junk));
    CollapseShape(ResolveAliases(b, aliases));
  }

  /** A normalised command with no edge spaces, no upper-case letters, no junk
      tokens and no token the alias table would rewrite. */
  ghost predicate Canonical(o: string, aliases: map<string, string>, junk: set<string>)
  {
    && Collapsed(o)
    && (forall i :: 0 <= i < |o| ==> !IsUpper(o[i]))
    && (o == [] || (o[0] != ' ' && o[|o| - 1] != ' '))
    && (forall t :: t in Split(o) ==> t !in junk && ResolveWord(t, aliases) == t)
  }

  /** Lower-casing leaves a string without upper-case letters alone. */
  lemma LowerFixed(o: string)
    requires forall i :: 0 <= i < |o| ==> !IsUpper(o[i])
    ensures Lower(o) == o
  {
  }

  /** Trimming leaves a string that neither starts nor ends with white space alone. */
  lemma TrimFixed(o: string)
    requires o == [] || (!IsJsSpace(o[0]) && !IsJsSpace(o[|o| - 1]))
    ensures Trim(o) == o
  {
    if o != [] {
      assert TrimStart(o) == o;
      assert TrimEnd(o) == o;
    }
  }

  /** Junk removal leaves a string with no junk token alone. */
  lemma RemoveJunkFixed(o: string, junk: set<string>)
    requires forall t :: t in Split(o) ==> t !in junk
    ensures RemoveJunk(o, junk) == o
  {
    var ts := Split(o);
    forall k | 0 <= k < |ts| ensures ts[k] !in junk {
      assert ts[k] in ts;
    }
    NonJunkKeepsAll(ts, junk);
  }

  /** Normalising a canonical command gives it back unchanged: the conditions
      under which `preprocessString` is idempotent. */
  lemma CanonicalFixed(o: string, aliases: map<string, string>, junk: set<string>)
    requires Canonical(o, aliases, junk)
    ensures Preprocess(o, aliases, junk) == o
  {
    LowerFixed(o);
    if o != [] {
      assert IsWordChar(o[0]) && IsWordChar(o[|o| - 1]);
    }
    TrimFixed(o);
    CollapseFixed(o);
    RemoveJunkFixed(o, junk);
    ResolveAliasesFixed(o, aliases);
  }

  /** The normaliser is not idempotent in general: a word led by a
      punctuation mark normalises to the word with a leading space, which the
      next run trims away. */
  lemma LeadingMarkNotIdempotent(c: char, w: string, aliases: map<string, string>, junk: set<string>)
    requires !IsWordChar(c) && !IsJsSpace(c)
    requires w != [] && WordOnly(w)
    requires w !in junk && "" !in junk
    requires ResolveWord(w, aliases) == w && ResolveWord("", aliases) == ""
    ensures Preprocess([c] + w, aliases, junk) == [' '] + w
    ensures Preprocess([' '] + w, aliases, junk) == w
  {
    SpacedWordFacts(w);
    LeadingMarkFirstPass(c, w, aliases, junk);
    LeadingSpaceSecondPass(w, aliases, junk);
  }

  /** Facts about a word and the same word behind one space. */
  lemma SpacedWordFacts(w: string)
    requires w != [] && WordOnly(w)
    ensures Collapsed(w) && Collapse(w) == w
    ensures Split([' '] + w) == ["", w]
    ensures Collapsed([' '] + w) && Collapse([' '] + w) == [' '] + w
  {
    NoSpaceInWord(w);
    SplitNoSpace(w);
    assert Collapsed(w);
    CollapseFixed(w);
    var sw := [' '] + w;
    assert Split(sw) == ["", w] by {
      SplitAfterToken("", w);
      assert "" + " " + w == sw;
    }
    assert Collapsed(sw) by {
      forall i, j | 0 <= i < j < |sw| && j == i + 1 ensures IsWordChar(sw[i]) || IsWordChar(sw[j]) {
        assert sw[j] == w[j - 1];
      }
    }
    CollapseFixed(sw);
  }

  lemma LeadingMarkFirstPass(c: char, w: string, aliases: map<string, string>, junk: set<string>)
    requires !IsWordChar(c) && !IsJsSpace(c)
    requires w != [] && WordOnly(w)
    requires w !in junk && "" !in junk
    requires ResolveWord(w, aliases) == w && ResolveWord("", aliases) == ""
    requires Collapse(w) == w && Split([' '] + w) == ["", w]
    requires Collapse([' '] + w) == [' '] + w
    ensures Preprocess([c] + w, aliases, junk) == [' '] + w
  {
    MarkedWordCollapses(c, w);
    RemoveJunkFixed([' '] + w, junk);
    ResolveAliasesFixed([' '] + w, aliases);
  }

  /** Lower-casing, trimming and collapsing turn the mark into a space. */
  lemma MarkedWordCollapses(c: char, w: string)
    requires !IsWordChar(c) && !IsJsSpace(c)
    requires w != [] && WordOnly(w) && Collapse(w) == w
    ensures Collapse(Trim(Lower([c] + w))) == [' '] + w
  {
    var s := [c] + w;
    LowerFixed(s);
    TrimFixed(s);
    assert s[1..] == w;
    assert DropNonWord(w) == w;
  }

  lemma LeadingSpaceSecondPass(w: string, aliases: map<string, string>, junk: set<string>)
    requires w != [] && WordOnly(w)
    requires w !in junk && ResolveWord(w, aliases) == w
    requires Collapsed(w)
    ensures Preprocess([' '] + w, aliases, junk) == w
  {
    var sw := [' '] + w;
    assert Trim(Lower(sw)) == Trim(Lower(w)) by {
      LowerFixed(sw);
      LowerFixed(w);
      assert TrimStart(sw) == TrimStart(w) by { assert sw[1..] == w; }
    }
    NoSpaceInWord(w);
    SplitNoSpace(w);
    assert w[0] != ' ' && w[|w| - 1] != ' ';
    assert Canonical(w, aliases, junk);
    CanonicalFixed(w, aliases, junk);
  }

  /** A lower-case word contains no space. */
  lemma NoSpaceInWord(w: string)
    requires WordOnly(w)
    ensures ' ' !in w
  {
    forall i | 0 <= i < |w| ensures w[i] != ' ' {
      assert IsWordChar(w[i]);
    }
  }

  /** The substitution is not transitive: a one-word input bound to a
      non-empty root resolves to that root, whatever the root is itself
      bound to. */
  lemma AliasesResolveOneStep(a: string, aliases: map<string, string>)
    requires ' ' !in a && a in aliases && aliases[a] != ""
    ensures ResolveAliases(a, aliases) == aliases[a]
  {
    SplitNoSpace(a);
    assert ResolveTokens(Split(a), aliases) == [aliases[a]];
  }

  predicate WordOnly(t: string)
  {
    forall i :: 0 <= i < |t| ==> IsWordChar(t[i]) && !IsUpper(t[i])
  }

  /** A single lower-case alias token normalises to its root, and so does the
      root itself, provided the root is a lower-case word that is neither
      junk nor rewritten again. */
  lemma AliasConsistent(t: string, root: string, aliases: map<string, string>, junk: set<string>)
    requires t != [] && WordOnly(t) && t !in junk
    requires t in aliases && aliases[t] == root
    requires root != [] && WordOnly(root) && root !in junk && ResolveWord(root, aliases) == root
    ensures Preprocess(t, aliases, junk) == root
    ensures Preprocess(root, aliases, junk) == root
  {
    NoSpaceInWord(t);
    NoSpaceInWord(root);
    SplitNoSpace(t);
    SplitNoSpace(root);
    LowerFixed(t);
    assert IsWordChar(t[0]) && IsWordChar(t[|t| - 1]);
    TrimFixed(t);
    assert Collapsed(t);
    CollapseFixed(t);
    RemoveJunkFixed(t, junk);
    var ts := Split(t);
    assert ResolveTokens(ts, aliases) == [root];
    assert ResolveAliases(t, aliases) == root;
    assert Collapsed(root);
    CollapseFixed(root);
    assert Preprocess(t, aliases, junk) == root;
    assert IsWordChar(root[0]) && IsWordChar(root[|root| - 1]);
    assert Canonical(root, aliases, junk);
    CanonicalFixed(root, aliases, junk);
  }

  /** Two lower-case words joined by one space are in collapsed shape,
      without upper-case letters or edge spaces, and the two words are its
      tokens. */
  lemma TwoWordShape(u: string, v: string)
    requires u != [] && WordOnly(u) && v != [] && WordOnly(v)
    ensures var s := u + " " + v;
      && Collapsed(s) && Split(s) == [u, v]
      && (forall i :: 0 <= i < |s| ==> !IsUpper(s[i]))
      && s[0] != ' ' && s[|s| - 1] != ' '
  {
    var s := u + " " + v;
    TwoWordChars(u, v);
    assert Split(s) == [u, v] by {
      NoSpaceInWord(u);
      NoSpaceInWord(v);
      SplitAfterToken(u, v);
      SplitNoSpace(v);
    }
    assert Collapsed(s) by {
      forall i, j | 0 <= i < j < |s| && j == i + 1 ensures IsWordChar(s[i]) || IsWordChar(s[j]) {
      }
    }
  }

  /** The first stage of the normaliser leaves two joined words alone. */
  lemma TwoWordFirstStage(u: string, v: string)
    requires u != [] && WordOnly(u) && v != [] && WordOnly(v)
    ensures Collapse(Trim(Lower(u + " " + v))) == u + " " + v
  {
    var s := u + " " + v;
    TwoWordShape(u, v);
    TwoWordChars(u, v);
    LowerFixed(s);
    TrimFixed(s);
    CollapseFixed(s);
  }

  /** Every character of two joined words is a lower-case word character,
      except the one space between them. */
  lemma TwoWordChars(u: string, v: string)
    requires u != [] && WordOnly(u) && v != [] && WordOnly(v)
    ensures var s := u + " " + v;
      && s[|u|] == ' '
      && (forall i :: 0 <= i < |s| && i != |u| ==> IsWordChar(s[i]) && !IsUpper(s[i]))
      && (forall i :: 0 <= i < |s| ==> !IsUpper(s[i]))
  {
    var s := u + " " + v;
    forall i | 0 <= i < |s| && i != |u| ensures IsWordChar(s[i]) && !IsUpper(s[i]) {
      if i < |u| {
        assert s[i] == u[i];
      } else {
        assert s[i] == v[i - |u| - 1];
      }
    }
  }

  /** A junk word before a command word is dropped: the input normalises to
      the command word alone. */
  lemma JunkWordDropped(u: string, v: string, aliases: map<string, string>, junk: set<string>)
    requires u != [] && WordOnly(u) && u in junk
    requires v != [] && WordOnly(v) && v !in junk && ResolveWord(v, aliases) == v
    ensures Preprocess(u + " " + v, aliases, junk) == v
  {
    TwoWordFirstStage(u, v);
    JunkWordSecondStage(u, v, junk);
    WordLastStage(v, aliases);
  }

  lemma JunkWordSecondStage(u: string, v: string, junk: set<string>)
    requires u != [] && WordOnly(u) && u in junk
    requires v != [] && WordOnly(v) && v !in junk
    ensures Collapse(RemoveJunk(u + " " + v, junk)) == v
  {
    TwoWordShape(u, v);
    assert NonJunk([u, v], junk) == [v] by {
      assert [u, v][1..] == [v];
      assert [v][1..] == [];
    }
    assert Collapsed(v);
    CollapseFixed(v);
  }

  /** A word that resolves to itself passes the last stage unchanged. */
  lemma WordLastStage(v: string, aliases: map<string, string>)
    requires v != [] && WordOnly(v) && ResolveWord(v, aliases) == v
    ensures Collapse(ResolveAliases(v, aliases)) == v
  {
    NoSpaceInWord(v);
    SplitNoSpace(v);
    ResolveAliasesFixed(v, aliases);
    assert Collapsed(v);
    CollapseFixed(v);
  }

  /** A word that is neither junk nor bound to a non-empty root stays in
      front of the command word: a leading alias bound to the empty root is
      not removed. */
  lemma UnboundWordKept(u: string, v: string, aliases: map<string, string>, junk: set<string>)
    requires u != [] && WordOnly(u) && u !in junk && ResolveWord(u, aliases) == u
    requires v != [] && WordOnly(v) && v !in junk && ResolveWord(v, aliases) == v
    ensures Preprocess(u + " " + v, aliases, junk) == u + " " + v
  {
    TwoWordsCanonical(u, v, aliases, junk);
    CanonicalFixed(u + " " + v, aliases, junk);
  }

  lemma TwoWordsCanonical(u: string, v: string, aliases: map<string, string>, junk: set<string>)
    requires u != [] && WordOnly(u) && u !in junk && ResolveWord(u, aliases) == u
    requires v != [] && WordOnly(v) && v !in junk && ResolveWord(v, aliases) == v
    ensures Canonical(u + " " + v, aliases, junk)
  {
    TwoWordShape(u, v);
    var s := u + " " + v;
    assert forall t :: t in Split(s) ==> t == u || t == v;
  }
}
