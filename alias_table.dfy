/** The alias table of src/Game.js: `prepareAliases` inverts world data of
    the shape root -> alias (or array of aliases) into a flat alias -> root
    map, writing entries in order so that the last write wins. */
module AliasTable {
  import opened Wrappers

  type Table = map<string, string>

  /** The entries of an alias object in `Object.keys` order: each root with
      its alias or aliases. */
  type AliasData = seq<(string, OneOrMany<string>)>

  /** Binds each of `aliases`, in order, to `root`. */
  function BindAll(t: Table, root: string, aliases: seq<string>): (r: Table)
    ensures r.Keys == t.Keys + set a | a in aliases
    ensures forall a :: a in aliases ==> r[a] == root
    ensures forall a :: a in t && a !in aliases ==> r[a] == t[a]
    decreases |aliases|
  {
    if aliases == [] then t
    else BindAll(t, root, aliases[..|aliases| - 1])[aliases[|aliases| - 1] := root]
  }

  /** The table after writing every entry of `data`, first to last. */
  function Prepared(t: Table, data: AliasData): Table
    decreases |data|
  {
    if data == [] then t
    else
      var last := data[|data| - 1];
      BindAll(Prepared(t, data[..|data| - 1]), last.0, ToArray(last.1))
  }

  /** Whether entry `k` of `data` lists `a` as an alias. */
  predicate Lists(data: AliasData, k: int, a: string)
    requires 0 <= k < |data|
  {
    a in ToArray(data[k].1)
  }

  /** The aliases that occur anywhere in `data`. */
  ghost function Mentioned(data: AliasData): set<string>
  {
    set k, a | 0 <= k < |data| && a in ToArray(data[k].1) :: a
  }

  /** The table gains exactly the aliases `data` mentions. */
  lemma {:induction false} PreparedKeys(t: Table, data: AliasData)
    ensures Prepared(t, data).Keys == t.Keys + Mentioned(data)
    decreases |data|
  {
    if data != [] {
      var front := data[..|data| - 1];
      PreparedKeys(t, front);
      var last := ToArray(data[|data| - 1].1);
      forall a | a in Mentioned(data)
        ensures a in Mentioned(front) || a in last
      {
        var k :| 0 <= k < |data| && a in ToArray(data[k].1);
        if k < |data| - 1 {
          assert front[k] == data[k];
        }
      }
      forall a | a in Mentioned(front) ensures a in Mentioned(data) {
        var k :| 0 <= k < |front| && a in ToArray(front[k].1);
        assert front[k] == data[k];
      }
    }
  }

  /** An alias listed by entry `k` and by no later entry is bound to the
      root of entry `k`: later roots overwrite earlier ones. */
  lemma {:induction false} LastRootWins(t: Table, data: AliasData, k: nat, a: string)
    requires k < |data| && Lists(data, k, a)
    requires forall m :: k < m < |data| ==> !Lists(data, m, a)
    ensures a in Prepared(t, data) && Prepared(t, data)[a] == data[k].0
    decreases |data|
  {
    var front := data[..|data| - 1];
    if k < |data| - 1 {
      assert !Lists(data, |data| - 1, a);
      forall m | k < m < |front| ensures !Lists(front, m, a) {
        assert front[m] == data[m];
        assert !Lists(data, m, a);
      }
      assert front[k] == data[k];
      LastRootWins(t, front, k, a);
    }
  }

  /** An alias that `data` never mentions keeps its previous binding, and
      stays unbound if it was. */
  lemma {:induction false} UnmentionedKept(t: Table, data: AliasData, a: string)
    requires forall m :: 0 <= m < |data| ==> !Lists(data, m, a)
    ensures a in Prepared(t, data) <==> a in t
    ensures a in t ==> Prepared(t, data)[a] == t[a]
    decreases |data|
  {
    if data != [] {
      var front := data[..|data| - 1];
      assert !Lists(data, |data| - 1, a);
      forall m | 0 <= m < |front| ensures !Lists(front, m, a) {
        assert front[m] == data[m];
        assert !Lists(data, m, a);
      }
      UnmentionedKept(t, front, a);
    }
  }

  /** The table the game builds: the default data first, then the world's.
      An alias the world lists is bound to the last world root listing it;
      any other alias keeps its default binding. */
  lemma WorldOverridesDefaults(defaults: AliasData, world: AliasData, a: string)
    ensures var built := Prepared(Prepared(map[], defaults), world);
      && ((exists k :: 0 <= k < |world| && Lists(world, k, a)) ==>
            exists k :: 0 <= k < |world| && Lists(world, k, a)
              && (forall m :: k < m < |world| ==> !Lists(world, m, a))
              && a in built && built[a] == world[k].0)
      && ((forall k :: 0 <= k < |world| ==> !Lists(world, k, a)) ==>
            (a in built <==> a in Prepared(map[], defaults))
            && (a in built ==> built[a] == Prepared(map[], defaults)[a]))
  {
    var base := Prepared(map[], defaults);
    if exists k :: 0 <= k < |world| && Lists(world, k, a) {
      var k := LastListing(world, a);
      LastRootWins(base, world, k, a);
    } else {
      UnmentionedKept(base, world, a);
    }
  }

  /** The last entry of `data` that lists `a`. */
  lemma LastListing(data: AliasData, a: string) returns (k: nat)
    requires exists k :: 0 <= k < |data| && Lists(data, k, a)
    ensures k < |data| && Lists(data, k, a)
    ensures forall m :: k < m < |data| ==> !Lists(data, m, a)
  {
    var j :| 0 <= j < |data| && Lists(data, j, a);
    k := j;
    while k + 1 < |data| && exists m :: k < m < |data| && Lists(data, m, a)
      invariant j <= k < |data| && Lists(data, k, a)
      decreases |data| - k
    {
      var m :| k < m < |data| && Lists(data, m, a);
      k := m;
    }
  }
}
