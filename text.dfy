/** The string primitives the normaliser is built from: JavaScript's `\w`
    character class (without the `u` flag), ASCII lower-casing, `trim`, the
    regular-expression replacement `/\W+/g -> ' '`, and `split(' ')` /
    `join(' ')`. Strings are sequences of Unicode scalar values. */
module Text {

  /** `\w`: the ASCII word characters [A-Za-z0-9_]. */
  predicate IsWordChar(c: char)
  {
    ('a' <= c <= 'z') || ('A' <= c <= 'Z') || ('0' <= c <= '9') || c == '_'
  }

  predicate IsUpper(c: char)
  {
    'A' <= c <= 'Z'
  }

  /** The characters `String.prototype.trim` removes: ECMAScript white space
      and line terminators. */
  predicate IsJsSpace(c: char)
  {
    c == '\t' || c == '\n' || c == '\U{B}' || c == '\U{C}' || c == '\r' || c == ' '
    || c == '\U{A0}' || c == '\U{1680}' || ('\U{2000}' <= c <= '\U{200A}')
    || c == '\U{2028}' || c == '\U{2029}' || c == '\U{202F}' || c == '\U{205F}'
    || c == '\U{3000}' || c == '\U{FEFF}'
  }

  function LowerChar(c: char): char
  {
    if IsUpper(c) then (c as int + 32) as char else c
  }

  /** `toLowerCase`, restricted to the ASCII letters. */
  function Lower(s: string): string
  {
    seq(|s|, i requires 0 <= i < |s| => LowerChar(s[i]))
  }

  /** Lower-casing keeps the length, leaves no upper-case letter, turns each
      upper-case letter into its lower-case partner 32 code points on, changes
      no other character, and keeps word characters word characters. */
  lemma LowerSpec(s: string)
    ensures var r := Lower(s);
      && |r| == |s|
      && (forall i :: 0 <= i < |r| ==> !IsUpper(r[i]))
      && (forall i :: 0 <= i < |s| && IsUpper(s[i]) ==> r[i] as int == s[i] as int + 32)
      && (forall i :: 0 <= i < |s| && !IsUpper(s[i]) ==> r[i] == s[i])
      && (forall i :: 0 <= i < |s| ==> (IsWordChar(r[i]) <==> IsWordChar(s[i])))
  {
  }

  /** Drops the leading JavaScript white space. */
  function TrimStart(s: string): string
  {
    if |s| > 0 && IsJsSpace(s[0]) then TrimStart(s[1..]) else s
  }

  /** Drops the trailing JavaScript white space. */
  function TrimEnd(s: string): string
  {
    if |s| > 0 && IsJsSpace(s[|s| - 1]) then TrimEnd(s[..|s| - 1]) else s
  }

  /** `trimStart` keeps a suffix of its input, drops only white space, and
      stops at the first character that is not white space. */
  lemma {:induction false} TrimStartSpec(s: string)
    ensures var r := TrimStart(s);
      && |r| <= |s| && r == s[|s| - |r|..]
      && (forall i :: 0 <= i < |s| - |r| ==> IsJsSpace(s[i]))
      && (r == [] || !IsJsSpace(r[0]))
    decreases |s|
  {
    if |s| > 0 && IsJsSpace(s[0]) {
      TrimStartSpec(s[1..]);
    }
  }

  /** `trimEnd` keeps a prefix of its input, drops only white space, and
      stops at the last character that is not white space. */
  lemma {:induction false} TrimEndSpec(s: string)
    ensures var r := TrimEnd(s);
      && |r| <= |s| && r == s[..|r|]
      && (forall i :: |r| <= i < |s| ==> IsJsSpace(s[i]))
      && (r == [] || !IsJsSpace(r[|r| - 1]))
    decreases |s|
  {
    if |s| > 0 && IsJsSpace(s[|s| - 1]) {
      TrimEndSpec(s[..|s| - 1]);
    }
  }

  /** `trim`. */
  function Trim(s: string): string
  {
    TrimEnd(TrimStart(s))
  }

  /** The shape `/\W+/g -> ' '` leaves behind: every character is a word
      character or a space, and no two non-word characters are adjacent. */
  ghost predicate Collapsed(s: string)
  {
    && (forall i :: 0 <= i < |s| ==> IsWordChar(s[i]) || s[i] == ' ')
    && (forall i, j :: 0 <= i < j < |s| && j == i + 1 ==> IsWordChar(s[i]) || IsWordChar(s[j]))
  }

  /** Skips a (possibly empty) run of non-word characters. */
  function DropNonWord(s: string): (r: string)
    ensures |r| <= |s| && r == s[|s| - |r|..]
    ensures forall i :: 0 <= i < |s| - |r| ==> !IsWordChar(s[i])
    ensures r == [] || IsWordChar(r[0])
    decreases |s|
  {
    if |s| > 0 && !IsWordChar(s[0]) then
      var r := DropNonWord(s[1..]);
      assert s[1..][|s| - 1 - |r|..] == s[|s| - |r|..];
      assert forall i :: 1 <= i < |s| - |r| ==> s[i] == s[1..][i - 1];
      r
    else s
  }

  /** `s.replace(/\W+/g, ' ')`: every maximal run of non-word characters
      becomes one space. */
  function Collapse(s: string): string
    decreases |s|
  {
    if s == [] then []
    else if IsWordChar(s[0]) then [s[0]] + Collapse(s[1..])
    else [' '] + Collapse(DropNonWord(s[1..]))
  }

  /** The collapse leaves the collapsed shape, never lengthens its input, is
      empty only for the empty input, and starts with the input's first
      character when that is a word character and with a space otherwise. */
  lemma {:induction false} CollapseShape(s: string)
    ensures var r := Collapse(s);
      && Collapsed(r)
      && |r| <= |s|
      && (r == [] <==> s == [])
      && (|s| > 0 && IsWordChar(s[0]) ==> r[0] == s[0])
      && (|s| > 0 && !IsWordChar(s[0]) ==> r[0] == ' ')
    decreases |s|
  {
    if s == [] {
    } else {
      var t := if IsWordChar(s[0]) then s[1..] else DropNonWord(s[1..]);
      CollapseShape(t);
      var c := if IsWordChar(s[0]) then s[0] else ' ';
      var rest := Collapse(t);
      assert Collapse(s) == [c] + rest;
      var r := [c] + rest;
      forall i, j | 0 <= i < j < |r| && j == i + 1
        ensures IsWordChar(r[i]) || IsWordChar(r[j])
      {
        if i == 0 {
          if !IsWordChar(s[0]) {
            assert t != [] ==> IsWordChar(t[0]);
            assert r[1] == rest[0];
          }
        } else {
          assert r[i] == rest[i - 1] && r[j] == rest[j - 1];
        }
      }
    }
  }

  /** The word characters of a string, in order. */
  function WordChars(s: string): string
  {
    if s == [] then []
    else if IsWordChar(s[0]) then [s[0]] + WordChars(s[1..])
    else WordChars(s[1..])
  }

  lemma {:induction false} WordCharsDropNonWord(s: string)
    ensures WordChars(DropNonWord(s)) == WordChars(s)
    decreases |s|
  {
    if |s| > 0 && !IsWordChar(s[0]) {
      WordCharsDropNonWord(s[1..]);
    }
  }

  /** The collapse keeps every word character, in order: it only rewrites the
      separators between them. */
  lemma {:induction false} CollapseKeepsWordChars(s: string)
    ensures WordChars(Collapse(s)) == WordChars(s)
    decreases |s|
  {
    if s == [] {
    } else if IsWordChar(s[0]) {
      CollapseKeepsWordChars(s[1..]);
      assert ([s[0]] + Collapse(s[1..]))[1..] == Collapse(s[1..]);
    } else {
      var t := DropNonWord(s[1..]);
      CollapseKeepsWordChars(t);
      WordCharsDropNonWord(s[1..]);
      assert ([' '] + Collapse(t))[1..] == Collapse(t);
    }
  }

  /** A string already in collapsed shape is a fixed point of the collapse. */
  lemma {:induction false} CollapseFixed(s: string)
    requires Collapsed(s)
    ensures Collapse(s) == s
    decreases |s|
  {
    if s != [] {
      var t := s[1..];
      CollapsedTail(s);
      CollapseFixed(t);
      if !IsWordChar(s[0]) {
        assert DropNonWord(t) == t by {
          if |s| > 1 {
            assert IsWordChar(s[0]) || IsWordChar(s[1]);
            assert t[0] == s[1];
          }
        }
        assert s[0] == ' ';
      }
      assert [s[0]] + t == s;
    }
  }

  /** A run of non-word characters before a word character is skipped
      entirely. */
  lemma {:induction false} DropNonWordRun(m: string, rest: string)
    requires forall i :: 0 <= i < |m| ==> !IsWordChar(m[i])
    requires rest == [] || IsWordChar(rest[0])
    ensures DropNonWord(m + rest) == rest
    decreases |m|
  {
    if m == [] {
      assert m + rest == rest;
    } else {
      assert (m + rest)[1..] == m[1..] + rest;
      DropNonWordRun(m[1..], rest);
    }
  }

  /** A run of non-word characters after a word character becomes exactly
      one space, whether the next word character follows (`rest` starts with
      it) or the string ends there (`rest` is empty, leaving a trailing
      space). */
  lemma CollapseRun(a: char, m: string, rest: string)
    requires IsWordChar(a) && m != []
    requires forall i :: 0 <= i < |m| ==> !IsWordChar(m[i])
    requires rest == [] || IsWordChar(rest[0])
    ensures Collapse([a] + (m + rest)) == [a] + ([' '] + Collapse(rest))
  {
    CollapseWordFirst(a, m + rest);
    CollapseRunFirst(m, rest);
  }

  lemma CollapseWordFirst(a: char, t: string)
    requires IsWordChar(a)
    ensures Collapse([a] + t) == [a] + Collapse(t)
  {
    assert ([a] + t)[1..] == t;
  }

  lemma CollapseRunFirst(m: string, rest: string)
    requires m != []
    requires forall i :: 0 <= i < |m| ==> !IsWordChar(m[i])
    requires rest == [] || IsWordChar(rest[0])
    ensures Collapse(m + rest) == [' '] + Collapse(rest)
  {
    var t := m + rest;
    var u := t[1..];
    assert u == m[1..] + rest;
    DropNonWordRun(m[1..], rest);
    assert DropNonWord(u) == rest;
    assert t != [] && !IsWordChar(t[0]);
    assert Collapse(t) == [' '] + Collapse(DropNonWord(u));
  }

  /** Dropping the first character keeps the collapsed shape. */
  lemma CollapsedTail(s: string)
    requires s != [] && Collapsed(s)
    ensures Collapsed(s[1..])
  {
    var t := s[1..];
    forall i | 0 <= i < |t| ensures IsWordChar(t[i]) || t[i] == ' ' {
      assert t[i] == s[i + 1];
    }
    forall i, j | 0 <= i < j < |t| && j == i + 1
      ensures IsWordChar(t[i]) || IsWordChar(t[j])
    {
      assert t[i] == s[i + 1] && t[j] == s[j + 1];
    }
  }

  /** `tokens.join(' ')`. */
  function Join(ts: seq<string>): string
  {
    if |ts| == 0 then ""
    else if |ts| == 1 then ts[0]
    else ts[0] + " " + Join(ts[1..])
  }

  /** `s.split(' ')`: the pieces between single spaces, empty ones included;
      joining them back gives the input. */
  function Split(s: string): (r: seq<string>)
    ensures |r| >= 1
    ensures forall k :: 0 <= k < |r| ==> ' ' !in r[k]
    ensures Join(r) == s
    decreases |s|
  {
    if s == [] then [""]
    else
      var rest := Split(s[1..]);
      if s[0] == ' ' then
        assert Join([""] + rest) == "" + " " + Join(rest);
        [""] + rest
      else
        var r := [[s[0]] + rest[0]] + rest[1..];
        assert Join(r) == [s[0]] + Join(rest) by {
          if |rest| > 1 {
            assert r[1..] == rest[1..];
            assert Join(rest) == rest[0] + " " + Join(rest[1..]);
          }
        }
        r
  }

  lemma {:induction false} SplitNoSpace(a: string)
    requires ' ' !in a
    ensures Split(a) == [a]
    decreases |a|
  {
    if a != [] {
      SplitNoSpace(a[1..]);
      assert [a[0]] + a[1..] == a;
    }
  }

  lemma {:induction false} SplitAfterToken(a: string, b: string)
    requires ' ' !in a
    ensures Split(a + " " + b) == [a] + Split(b)
    decreases |a|
  {
    if a == [] {
      assert a + " " + b == [' '] + b;
      assert (a + " " + b)[1..] == b;
    } else {
      assert (a + " " + b)[1..] == a[1..] + " " + b;
      SplitAfterToken(a[1..], b);
      assert [a[0]] + a[1..] == a;
    }
  }

  /** Splitting a join of space-free tokens gives the tokens back. */
  lemma {:induction false} SplitJoin(ts: seq<string>)
    requires |ts| >= 1
    requires forall k :: 0 <= k < |ts| ==> ' ' !in ts[k]
    ensures Split(Join(ts)) == ts
    decreases |ts|
  {
    if |ts| == 1 {
      SplitNoSpace(ts[0]);
    } else {
      SplitJoin(ts[1..]);
      SplitAfterToken(ts[0], Join(ts[1..]));
      assert [ts[0]] + ts[1..] == ts;
    }
  }
}
