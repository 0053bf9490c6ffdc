/** getEnvListFromMap in pkg/container/container_misc.go. */
module ContainerMisc {

  /** fmt.Sprintf("%s=%s", k, v). */
  function EnvEntry(k: string, v: string): string {
    k + "=" + v
  }

  /** ks lists every key of the set exactly once, in some order. */
  ghost predicate Enumerates(ks: seq<string>, keys: set<string>) {
    && (forall i, j | 0 <= i < j < |ks| :: ks[i] != ks[j])
    && (forall k :: k in keys <==> k in ks)
  }

  /** The "k=v" strings for the keys ks, in the order of ks. */
  function EntryStrings(ks: seq<string>, env: map<string, string>): (r: seq<string>)
    requires forall i | 0 <= i < |ks| :: ks[i] in env
    ensures |r| == |ks|
    ensures forall i | 0 <= i < |ks| :: r[i] == EnvEntry(ks[i], env[ks[i]])
  {
    if ks == [] then [] else EntryStrings(ks[..|ks| - 1], env) + [EnvEntry(ks[|ks| - 1], env[ks[|ks| - 1]])]
  }

  /** A duplicate-free enumeration of a set is as long as the set is large. */
  lemma {:induction false} EnumerationSize(ks: seq<string>, keys: set<string>)
    requires Enumerates(ks, keys)
    ensures |ks| == |keys|
  {
    if ks != [] {
      var last := ks[|ks| - 1];
      var front := ks[..|ks| - 1];
      assert last !in front;
      assert forall k :: k in keys - {last} <==> k in front by {
        forall k ensures k in keys - {last} <==> k in front {
          if k in ks && k != last {
            var i :| 0 <= i < |ks| && ks[i] == k;
            assert i < |ks| - 1;
            assert front[i] == k;
          }
        }
      }
      EnumerationSize(front, keys - {last});
    }
  }

  /**
   * The list built from any enumeration of the keys has one entry per map
   * entry, holds "k=v" for every key, and holds nothing else.
   */
  lemma EntryListFacts(ks: seq<string>, env: map<string, string>)
    requires Enumerates(ks, env.Keys)
    ensures |EntryStrings(ks, env)| == |env|
    ensures forall k | k in env :: EnvEntry(k, env[k]) in EntryStrings(ks, env)
    ensures forall e | e in EntryStrings(ks, env) :: exists k | k in env :: e == EnvEntry(k, env[k])
  {
    EnumerationSize(ks, env.Keys);
    var r := EntryStrings(ks, env);
    forall k | k in env ensures EnvEntry(k, env[k]) in r {
      var i :| 0 <= i < |ks| && ks[i] == k;
      assert r[i] == EnvEntry(k, env[k]);
    }
    forall e | e in r ensures exists k | k in env :: e == EnvEntry(k, env[k]) {
      var i :| 0 <= i < |r| && r[i] == e;
      assert ks[i] in env;
    }
  }

  /**
   * getEnvListFromMap: appends "k=v" for each entry, in Go's unspecified map
   * order (any choice of the next key). The map is a value and is not changed.
   */
  method GetEnvListFromMap(env: map<string, string>) returns (envList: seq<string>)
    ensures exists ks :: Enumerates(ks, env.Keys) && envList == EntryStrings(ks, env)
    ensures |envList| == |env|
    ensures forall k | k in env :: EnvEntry(k, env[k]) in envList
    ensures forall e | e in envList :: exists k | k in env :: e == EnvEntry(k, env[k])
  {
    envList := [];
    ghost var ks: seq<string> := [];
    var rest := env.Keys;
    while rest != {}
      invariant rest <= env.Keys
      invariant Enumerates(ks, env.Keys - rest)
      invariant forall i | 0 <= i < |ks| :: ks[i] in env
      invariant envList == EntryStrings(ks, env)
      decreases rest
    {
      var k :| k in rest;
      var v := env[k];
      envList := envList + [EnvEntry(k, v)];
      ks := ks + [k];
      rest := rest - {k};
    }
    EntryListFacts(ks, env);
  }
}
