/**
 * `cluster_map` of `main`: the validated clusters keyed by cluster id, then a
 * singleton under a fresh id for every final article no cluster mentions.
 */
module ClusterMap {
  import opened Wrappers
  import opened Dicts
  import opened Clusters

  /** A `cluster_map` value. */
  datatype Entry = Entry(main: int, members: seq<int>)

  type CMap = Dict<int, Entry>

  /** The representative: the given main when it is a member, else the first
      member, else none (the cluster is then skipped). */
  function MainOf(c: Cluster): (m: Option<int>)
    ensures m.None? <==> c.members == []
    ensures m.Some? ==> m.value in c.members
  {
    if c.main in c.members then Some(c.main)
    else if c.members != [] then Some(c.members[0])
    else None
  }

  /** The state after the first loop: the map and `used_ids`. */
  datatype Grouping = Grouping(clusters: CMap, used: set<int>)

  function Members(c: Cluster): set<int>
  {
    set x | x in c.members
  }

  /** The first loop over the validated clusters. A repeated cluster id
      overwrites the earlier entry, which keeps its place in the key order. */
  function Grouped(cs: seq<Cluster>): Grouping
  {
    if cs == [] then Grouping(Empty(), {})
    else
      var g := Grouped(cs[..|cs| - 1]);
      var c := cs[|cs| - 1];
      var main := MainOf(c);
      if main.None? then g
      else Grouping(Put(g.clusters, c.clusterId, Entry(main.value, c.members)), g.used + Members(c))
  }

  /** `max(keys)` of a non-empty key list. */
  function MaxKey(ks: seq<int>): (m: int)
    requires ks != []
    ensures m in ks && forall k :: k in ks ==> k <= m
  {
    if |ks| == 1 then ks[0]
    else
      var rest := MaxKey(ks[1..]);
      assert forall k :: k in ks ==> k == ks[0] || k in ks[1..];
      if ks[0] >= rest then ks[0] else rest
  }

  /** `next_cid`: one past the largest key, or 0 for an empty map. */
  function NextCid(m: CMap): (n: int)
    ensures forall k :: k in m.keys ==> k < n
  {
    if m.keys == [] then 0 else MaxKey(m.keys) + 1
  }

  /** The second loop: a singleton under a fresh id for every id not used. */
  function Singletons(m: CMap, used: set<int>, ids: seq<int>, next: int): CMap
    decreases |ids|
  {
    if ids == [] then m
    else if ids[0] in used then Singletons(m, used, ids[1..], next)
    else Singletons(Put(m, next, Entry(ids[0], [ids[0]])), used, ids[1..], next + 1)
  }

  /** The completed `cluster_map` for the validated clusters and the final ids. */
  function ClusterMapOf(cs: seq<Cluster>, ids: seq<int>): CMap
  {
    var g := Grouped(cs);
    Singletons(g.clusters, g.used, ids, NextCid(g.clusters))
  }

  /** The two loops of `main` that build `cluster_map`. */
  method BuildClusterMap(cs: seq<Cluster>, finalIds: seq<int>) returns (m: CMap)
    ensures m == ClusterMapOf(cs, finalIds)
  {
    m := Empty();
    var used: set<int> := {};
    var j := 0;
    while j < |cs|
      invariant 0 <= j <= |cs|
      invariant Grouped(cs[..j]) == Grouping(m, used)
    {
      var c := cs[j];
      assert cs[..j + 1][..j] == cs[..j];
      var main := MainOf(c);
      if main.Some? {
        m := Put(m, c.clusterId, Entry(main.value, c.members));
        used := used + Members(c);
      }
      j := j + 1;
    }
    assert cs[..j] == cs;
    var nextCid := if m.keys == [] then 0 else MaxKey(m.keys) + 1;
    ghost var grouped := m;
    var k := 0;
    while k < |finalIds|
      invariant 0 <= k <= |finalIds|
      invariant Singletons(grouped, used, finalIds, NextCid(grouped)) == Singletons(m, used, finalIds[k..], nextCid)
    {
      var id := finalIds[k];
      assert finalIds[k..][1..] == finalIds[k + 1..];
      if id !in used {
        m := Put(m, nextCid, Entry(id, [id]));
        nextCid := nextCid + 1;
      }
      k := k + 1;
    }
  }

  // ----- properties -----

  /** Some entry is the singleton of `x`. */
  predicate HasSingleton(m: CMap, x: int)
  {
    exists k :: k in m.values && m.values[k] == Entry(x, [x])
  }

  /** Some entry lists `x` among its members. */
  predicate Clustered(m: CMap, x: int)
  {
    exists k :: k in m.values && x in m.values[k].members
  }

  /** Every entry's main is one of its members. */
  predicate MainsAreMembers(m: CMap)
  {
    forall k :: k in m.values ==> m.values[k].main in m.values[k].members
  }

  lemma {:induction false} GroupedValid(cs: seq<Cluster>)
    ensures Valid(Grouped(cs).clusters)
  {
    if cs != [] {
      var front := cs[..|cs| - 1];
      var c := cs[|cs| - 1];
      GroupedValid(front);
      if MainOf(c).Some? {
        PutValid(Grouped(front).clusters, c.clusterId, Entry(MainOf(c).value, c.members));
      }
    }
  }

  lemma {:induction false} GroupedMains(cs: seq<Cluster>)
    ensures MainsAreMembers(Grouped(cs).clusters)
  {
    if cs != [] {
      GroupedMains(cs[..|cs| - 1]);
    }
  }

  /** `used_ids` holds exactly the ids some validated cluster lists. */
  lemma {:induction false} GroupedUsed(cs: seq<Cluster>)
    ensures forall x :: x in Grouped(cs).used <==> exists j :: 0 <= j < |cs| && x in cs[j].members
  {
    if cs != [] {
      var front := cs[..|cs| - 1];
      var c := cs[|cs| - 1];
      GroupedUsed(front);
      assert forall j :: 0 <= j < |front| ==> front[j] == cs[j];
      forall x ensures x in Grouped(cs).used <==> exists j :: 0 <= j < |cs| && x in cs[j].members {
        if x in c.members {
          assert 0 <= |cs| - 1 < |cs| && x in cs[|cs| - 1].members;
        }
        if (exists j :: 0 <= j < |cs| && x in cs[j].members) && x !in c.members {
          var j :| 0 <= j < |cs| && x in cs[j].members;
          assert j < |front| && x in front[j].members;
        }
      }
    }
  }

  /** What the second loop adds: the earlier entries stay as they were, every
      new key is at least `next` and holds a singleton of an unused id, and
      every unused id gets one. */
  lemma {:induction false} SingletonsFacts(m: CMap, used: set<int>, ids: seq<int>, next: int)
    requires Valid(m) && forall k :: k in m.values ==> k < next
    ensures var r := Singletons(m, used, ids, next);
            && Valid(r)
            && (forall k :: k in m.values ==> k in r.values && r.values[k] == m.values[k])
            && (forall k :: k in r.values && k !in m.values ==>
                  k >= next && r.values[k].members == [r.values[k].main] &&
                  r.values[k].main in ids && r.values[k].main !in used)
            && (forall x :: x in ids && x !in used ==> HasSingleton(r, x))
    decreases |ids|
  {
    if ids != [] {
      var rest := ids[1..];
      assert forall x :: x in ids <==> x == ids[0] || x in rest;
      if ids[0] in used {
        SingletonsFacts(m, used, rest, next);
      } else {
        var e := Entry(ids[0], [ids[0]]);
        var m' := Put(m, next, e);
        PutValid(m, next, e);
        SingletonsFacts(m', used, rest, next + 1);
        var r := Singletons(m', used, rest, next + 1);
        assert next in m'.values && r.values[next] == e;
      }
    }
  }

  /** Every entry of the map has its main among its members. */
  lemma EntriesContainTheirMain(cs: seq<Cluster>, ids: seq<int>)
    ensures Valid(ClusterMapOf(cs, ids))
    ensures MainsAreMembers(ClusterMapOf(cs, ids))
  {
    var g := Grouped(cs);
    GroupedValid(cs);
    GroupedMains(cs);
    SingletonsFacts(g.clusters, g.used, ids, NextCid(g.clusters));
  }

  /** The second loop leaves every entry of the first loop as it was. */
  lemma ClustersSurvive(cs: seq<Cluster>, ids: seq<int>)
    ensures var g := Grouped(cs);
            var r := ClusterMapOf(cs, ids);
            forall k :: k in g.clusters.values ==> k in r.values && r.values[k] == g.clusters.values[k]
  {
    var g := Grouped(cs);
    GroupedValid(cs);
    SingletonsFacts(g.clusters, g.used, ids, NextCid(g.clusters));
  }

  /** Each final id that no cluster mentions gets a singleton entry. */
  lemma UnclusteredGetSingletons(cs: seq<Cluster>, ids: seq<int>)
    ensures var r := ClusterMapOf(cs, ids);
            forall x :: x in ids && (forall j :: 0 <= j < |cs| ==> x !in cs[j].members) ==> HasSingleton(r, x)
  {
    var g := Grouped(cs);
    GroupedValid(cs);
    GroupedUsed(cs);
    SingletonsFacts(g.clusters, g.used, ids, NextCid(g.clusters));
    forall x | x in ids && (forall j :: 0 <= j < |cs| ==> x !in cs[j].members)
      ensures HasSingleton(ClusterMapOf(cs, ids), x)
    {
      assert x !in g.used;
    }
  }

  /** Every entry the second loop adds is a singleton under an id greater than
      all cluster ids of the first loop. */
  lemma SingletonIdsAreFresh(cs: seq<Cluster>, ids: seq<int>)
    ensures var g := Grouped(cs);
            var r := ClusterMapOf(cs, ids);
            forall k :: k in r.values && k !in g.clusters.values ==>
              (forall k' :: k' in g.clusters.values ==> k' < k) && r.values[k].members == [r.values[k].main]
  {
    var g := Grouped(cs);
    GroupedValid(cs);
    SingletonsFacts(g.clusters, g.used, ids, NextCid(g.clusters));
  }

  /** Cluster ids that never repeat. */
  predicate DistinctIds(cs: seq<Cluster>)
  {
    forall i, j :: 0 <= i < j < |cs| ==> cs[i].clusterId != cs[j].clusterId
  }

  /** With distinct cluster ids, each non-empty cluster keeps its own entry. */
  lemma {:induction false} GroupedKeepsClusters(cs: seq<Cluster>)
    requires DistinctIds(cs)
    ensures forall j :: 0 <= j < |cs| && cs[j].members != [] ==>
              cs[j].clusterId in Grouped(cs).clusters.values &&
              Grouped(cs).clusters.values[cs[j].clusterId].members == cs[j].members
  {
    if cs != [] {
      var front := cs[..|cs| - 1];
      assert forall j :: 0 <= j < |front| ==> front[j] == cs[j];
      assert DistinctIds(front);
      GroupedKeepsClusters(front);
    }
  }

  /** When the cluster ids are distinct, every final id lies in some entry. */
  lemma EveryFinalIdIsClustered(cs: seq<Cluster>, ids: seq<int>)
    requires DistinctIds(cs)
    ensures var r := ClusterMapOf(cs, ids);
            forall x :: x in ids ==> Clustered(r, x)
  {
    var g := Grouped(cs);
    var r := ClusterMapOf(cs, ids);
    GroupedValid(cs);
    GroupedUsed(cs);
    GroupedKeepsClusters(cs);
    SingletonsFacts(g.clusters, g.used, ids, NextCid(g.clusters));
    forall x | x in ids ensures Clustered(r, x) {
      if x in g.used {
        var j :| 0 <= j < |cs| && x in cs[j].members;
        var k := cs[j].clusterId;
        assert k in r.values && x in r.values[k].members;
      } else {
        var k :| k in r.values && r.values[k] == Entry(x, [x]);
        assert x in r.values[k].members;
      }
    }
  }

  /** Every member of an entry is a used id. */
  predicate MembersUsed(g: Grouping)
  {
    forall k, x :: k in g.clusters.values && x in g.clusters.values[k].members ==> x in g.used
  }

  /** Every member of an entry of the first loop is a used id. */
  lemma {:induction false} GroupedMembersUsed(cs: seq<Cluster>)
    ensures MembersUsed(Grouped(cs))
  {
    if cs != [] {
      var front, c := cs[..|cs| - 1], cs[|cs| - 1];
      GroupedMembersUsed(front);
      var g := Grouped(front);
      if MainOf(c).Some? {
        var g' := Grouped(cs);
        assert g'.clusters.values == g.clusters.values[c.clusterId := Entry(MainOf(c).value, c.members)];
        assert g'.used == g.used + Members(c);
        forall k, x | k in g'.clusters.values && x in g'.clusters.values[k].members ensures x in g'.used {
          if k == c.clusterId {
            assert x in Members(c);
          } else {
            assert k in g.clusters.values && x in g.clusters.values[k].members;
            assert x in g.used;
          }
        }
      } else {
        assert Grouped(cs) == g;
      }
    }
  }

  /** A member of any entry of the map is a member of a validated cluster or a
      final id. */
  lemma EntryMembersComeFrom(cs: seq<Cluster>, ids: seq<int>)
    ensures var r := ClusterMapOf(cs, ids);
            forall k, x :: k in r.values && x in r.values[k].members ==>
              x in ids || exists j :: 0 <= j < |cs| && x in cs[j].members
  {
    var g := Grouped(cs);
    var r := ClusterMapOf(cs, ids);
    GroupedValid(cs);
    GroupedUsed(cs);
    GroupedMembersUsed(cs);
    SingletonsFacts(g.clusters, g.used, ids, NextCid(g.clusters));
    forall k, x | k in r.values && x in r.values[k].members
      ensures x in ids || exists j :: 0 <= j < |cs| && x in cs[j].members
    {
      if k in g.clusters.values {
        assert x in g.used;
      }
    }
  }

  /** A repeated cluster id drops the earlier cluster's members: they count as
      used, so they get no singleton either, and the article is in no entry. */
  lemma RepeatedIdLosesMember()
    ensures var r := ClusterMapOf([Cluster(0, 5, [5]), Cluster(0, 6, [6])], [5, 6]);
            !Clustered(r, 5)
  {
    var c1, c2 := Cluster(0, 5, [5]), Cluster(0, 6, [6]);
    var cs := [c1, c2];
    assert cs[..1] == [c1];
    assert [c1][..0] == [];
    var g1 := Grouped([c1]);
    assert MainOf(c1) == Some(5);
    var e: CMap := Empty();
    assert Grouped([]) == Grouping(e, {});
    assert g1 == Grouping(Put(e, 0, Entry(5, [5])), {} + Members(c1));
    assert g1.clusters.keys == [0];
    assert MainOf(c2) == Some(6);
    var g := Grouped(cs);
    assert g == Grouping(Put(g1.clusters, 0, Entry(6, [6])), g1.used + Members(c2));
    assert g.clusters.values == map[0 := Entry(6, [6])];
    assert 5 in g.used && 6 in g.used;
    assert [5, 6][1..] == [6];
    assert [6][1..] == [];
  }
}
