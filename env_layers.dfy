/** mergeMaps in pkg/runner/run_context.go: layering of environment maps. */
module EnvLayers {

  /** The layers merged left to right: a later layer overrides an earlier one. */
  function MergeAll(maps: seq<map<string, string>>): map<string, string> {
    if maps == [] then map[] else MergeAll(maps[..|maps| - 1]) + maps[|maps| - 1]
  }

  /** A key is in the merge exactly when some layer has it. */
  lemma {:induction false} MergeAllKeys(maps: seq<map<string, string>>, k: string)
    ensures k in MergeAll(maps) <==> exists i | 0 <= i < |maps| :: k in maps[i]
  {
    if maps != [] {
      var front := maps[..|maps| - 1];
      MergeAllKeys(front, k);
      if exists i | 0 <= i < |front| :: k in front[i] {
        var i :| 0 <= i < |front| && k in front[i];
        assert k in maps[i];
      }
      if exists i | 0 <= i < |maps| :: k in maps[i] {
        var i :| 0 <= i < |maps| && k in maps[i];
        if i < |maps| - 1 {
          assert k in front[i];
        }
      }
    }
  }

  /** The value of a key comes from the last layer that has it. */
  lemma {:induction false} MergeAllLaterWins(maps: seq<map<string, string>>, k: string, i: nat)
    requires i < |maps| && k in maps[i]
    requires forall j | i < j < |maps| :: k !in maps[j]
    ensures k in MergeAll(maps) && MergeAll(maps)[k] == maps[i][k]
  {
    if i < |maps| - 1 {
      var front := maps[..|maps| - 1];
      assert k !in maps[|maps| - 1];
      MergeAllLaterWins(front, k, i);
    }
  }

  /** mergeMaps: copy every entry of every layer, in order, into one map. */
  method MergeMaps(maps: seq<map<string, string>>) returns (rtnMap: map<string, string>)
    ensures rtnMap == MergeAll(maps)
  {
    rtnMap := map[];
    for n := 0 to |maps|
      invariant rtnMap == MergeAll(maps[..n])
    {
      var m := maps[n];
      var rest := m.Keys;
      while rest != {}
        invariant rest <= m.Keys
        invariant rtnMap == MergeAll(maps[..n]) + (map k | k in m && k !in rest :: m[k])
        decreases rest
      {
        var k :| k in rest;
        rtnMap := rtnMap[k := m[k]];
        rest := rest - {k};
      }
      assert (map k | k in m && k !in rest :: m[k]) == m;
      assert maps[..n + 1][..n] == maps[..n];
    }
    assert maps[..|maps|] == maps;
  }
}
