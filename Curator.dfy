/**
 * The last stage of `main`: the cluster map groups the consensus list into
 * feed items, one per cluster whose main is a final article, and the items
 * (or, without clusters, the consensus list itself) are split into the Bangla
 * feed and the English ("overflow") feed.
 */
module Curator {
  import opened Wrappers
  import opened Seqs
  import opened Dicts
  import opened Batching
  import opened Consensus
  import opened Clusters
  import opened ClusterMap
  import opened Language

  /** An item of an output feed. `clusterId` is the cluster the item heads (none
      when no clustering took place); `similar` are the final articles of the
      cluster's other members, in member order, whose links the description lists. */
  datatype FeedItem = FeedItem(curated: Curated, clusterId: Option<int>, similar: seq<Curated>)

  /** The two files `main` writes: the Bangla feed and the English feed. */
  datatype Feeds = Feeds(bangla: seq<FeedItem>, english: seq<FeedItem>)

  function FinalIds(finals: seq<Curated>): seq<int>
  {
    seq(|finals|, i requires 0 <= i < |finals| => finals[i].article.id)
  }

  /** The position of the first final article with id `id`, or `|finals|`. */
  function FirstWithId(finals: seq<Curated>, id: int): (i: nat)
    ensures i <= |finals|
    ensures forall j :: 0 <= j < i ==> finals[j].article.id != id
    ensures i < |finals| ==> finals[i].article.id == id
  {
    if finals == [] then 0
    else if finals[0].article.id == id then 0
    else 1 + FirstWithId(finals[1..], id)
  }

  /** The lookup by id over `final_articles`: the first match, or none. */
  function FindFinal(finals: seq<Curated>, id: int): (r: Option<Curated>)
    ensures r.None? <==> forall j :: 0 <= j < |finals| ==> finals[j].article.id != id
    ensures r.Some? ==> r.value in finals && r.value.article.id == id
  {
    var i := FirstWithId(finals, id);
    if i < |finals| then Some(finals[i]) else None
  }

  /** The filter condition of `sims`. */
  function NotMain(main: int): int -> bool
  {
    m => m != main
  }

  /** The final articles the description links for the members `sims`, in
      order; a member that is no final article is skipped. */
  function Linked(finals: seq<Curated>, sims: seq<int>): seq<Curated>
  {
    if sims == [] then []
    else
      var found := FindFinal(finals, sims[|sims| - 1]);
      Linked(finals, sims[..|sims| - 1]) + (if found.Some? then [found.value] else [])
  }

  /** The loop over `sims` that lists the similar items. */
  method LinkSimilar(finals: seq<Curated>, sims: seq<int>) returns (similar: seq<Curated>)
    ensures similar == Linked(finals, sims)
  {
    similar := [];
    var j := 0;
    while j < |sims|
      invariant 0 <= j <= |sims|
      invariant similar == Linked(finals, sims[..j])
    {
      assert sims[..j + 1][..j] == sims[..j];
      var art := FindFinal(finals, sims[j]);
      if art.Some? {
        similar := similar + [art.value];
      }
      j := j + 1;
    }
    assert sims[..j] == sims;
  }

  /** The item of cluster `k`: its main article with the links to the others,
      or none when the main is no final article. */
  function ItemFor(m: CMap, finals: seq<Curated>, k: int): Option<FeedItem>
    requires k in m.values
  {
    var e := m.values[k];
    var mainArt := FindFinal(finals, e.main);
    if mainArt.None? then None
    else Some(FeedItem(mainArt.value, Some(k), Linked(finals, Filter(e.members, NotMain(e.main)))))
  }

  /** The clusters that give an item. */
  function Heads(m: CMap, finals: seq<Curated>): int -> bool
  {
    k => k in m.values && FindFinal(finals, m.values[k].main).Some?
  }

  predicate KeysPresent(m: CMap, ks: seq<int>)
  {
    forall k :: k in ks ==> k in m.values
  }

  /** `clustered_items` for the keys `ks`, in order. */
  function ItemsFrom(m: CMap, finals: seq<Curated>, ks: seq<int>): seq<FeedItem>
    requires KeysPresent(m, ks)
  {
    if ks == [] then []
    else
      var item := ItemFor(m, finals, ks[|ks| - 1]);
      ItemsFrom(m, finals, ks[..|ks| - 1]) + (if item.Some? then [item.value] else [])
  }

  lemma ItemsFromStep(m: CMap, finals: seq<Curated>, ks: seq<int>, j: nat)
    requires KeysPresent(m, ks) && j < |ks|
    ensures KeysPresent(m, ks[..j]) && KeysPresent(m, ks[..j + 1]) && ks[j] in m.values
    ensures ItemsFrom(m, finals, ks[..j + 1]) ==
            ItemsFrom(m, finals, ks[..j]) +
            (if ItemFor(m, finals, ks[j]).Some? then [ItemFor(m, finals, ks[j]).value] else [])
  {
    assert ks[..j + 1][..j] == ks[..j];
    assert ks[..j + 1][j] == ks[j];
    assert forall k :: k in ks[..j + 1] ==> k in ks;
  }

  /** The loop of `main` over `cluster_map` that builds `clustered_items`. */
  method CollectItems(m: CMap, finals: seq<Curated>) returns (items: seq<FeedItem>)
    requires KeysPresent(m, m.keys)
    ensures items == ItemsFrom(m, finals, m.keys)
  {
    items := [];
    var j := 0;
    while j < |m.keys|
      invariant 0 <= j <= |m.keys|
      invariant KeysPresent(m, m.keys[..j])
      invariant items == ItemsFrom(m, finals, m.keys[..j])
    {
      var cid := m.keys[j];
      assert cid in m.keys;
      var info := m.values[cid];
      var mainArt := FindFinal(finals, info.main);
      if mainArt.Some? {
        var sims := Filter(info.members, NotMain(info.main));
        var similar := LinkSimilar(finals, sims);
        items := items + [FeedItem(mainArt.value, Some(cid), similar)];
        assert ItemFor(m, finals, cid) == Some(FeedItem(mainArt.value, Some(cid), similar));
      } else {
        assert ItemFor(m, finals, cid).None?;
      }
      ItemsFromStep(m, finals, m.keys, j);
      j := j + 1;
    }
    assert m.keys[..j] == m.keys;
  }

  /** The consensus list as feed items, without clusters. */
  function Plain(finals: seq<Curated>): seq<FeedItem>
  {
    seq(|finals|, i requires 0 <= i < |finals| => FeedItem(finals[i], None, []))
  }

  function ItemTitle(it: FeedItem): string
  {
    it.curated.article.title
  }

  /** The items `main` splits by language: the clustered items when the
      clustering call gave a non-empty list, else the consensus list. */
  function Items(finals: seq<Curated>, reply: ClusterReply): seq<FeedItem>
  {
    var cs := ValidatedClusters(reply);
    if cs.None? || cs.value == [] then Plain(finals)
    else
      var m := ClusterMapOf(cs.value, FinalIds(finals));
      EntriesContainTheirMain(cs.value, FinalIds(finals));
      ItemsFrom(m, finals, m.keys)
  }

  /** The two feeds, for the consensus list and the clustering reply. An empty
      consensus list writes two empty feeds without asking for clusters. */
  function Publish(finals: seq<Curated>, reply: ClusterReply): Feeds
  {
    if finals == [] then Feeds([], [])
    else
      var split := SplitByLanguage(Items(finals, reply), ItemTitle);
      Feeds(split.0, split.1)
  }

  /** Everything `main` computes from the articles, the replies of each model
      to each of its batches, and the reply of the clustering call. */
  function Curation(articles: seq<Article>, models: seq<ModelSpec>, replies: seq<seq<seq<int>>>,
                    reply: ClusterReply): Feeds
    requires RepliesFit(|articles|, models, replies)
  {
    var t := TallyOf(AllVotes(|articles|, models, replies));
    AggregatedKeysIndexArticles(articles, models, replies);
    Publish(CurateKeys(articles, t, t.keys), reply)
  }

  /** `main` after the feed is loaded: aggregation, the consensus filter,
      clustering, the cluster map, the clustered items and the split. */
  method RunCuration(articles: seq<Article>, models: seq<ModelSpec>, replies: seq<seq<seq<int>>>,
                     reply: ClusterReply) returns (feeds: Feeds)
    requires RepliesFit(|articles|, models, replies)
    ensures feeds == Curation(articles, models, replies, reply)
  {
    var t := Aggregate(|articles|, models, replies);
    AggregatedKeysIndexArticles(articles, models, replies);
    var finals := SelectConsensus(articles, t);
    if finals == [] {
      return Feeds([], []);
    }
    var clusters: Option<seq<Cluster>> := None;
    if reply.Answered? {
      var es := ReplyList(reply.extracted);
      if es.Some? {
        clusters := Validate(es.value);
      }
    }
    assert clusters == ValidatedClusters(reply);
    var items;
    if clusters.None? || clusters.value == [] {
      items := Plain(finals);
    } else {
      var m := BuildClusterMap(clusters.value, FinalIds(finals));
      EntriesContainTheirMain(clusters.value, FinalIds(finals));
      items := CollectItems(m, finals);
    }
    assert items == Items(finals, reply);
    var split := SplitByLanguage(items, ItemTitle);
    feeds := Feeds(split.0, split.1);
    assert feeds == Publish(finals, reply);
  }

  // ----- properties -----

  /** The links are the final articles of the members that are final ids: the
      first final article with each such id, and nothing else. */
  predicate LinkedBy(finals: seq<Curated>, sims: seq<int>, c: Curated)
  {
    exists x :: x in sims && FindFinal(finals, x) == Some(c)
  }

  lemma {:induction false} LinkedContents(finals: seq<Curated>, sims: seq<int>)
    ensures |Linked(finals, sims)| <= |sims|
    ensures forall c :: c in Linked(finals, sims) <==> LinkedBy(finals, sims, c)
  {
    if sims != [] {
      var front, x := sims[..|sims| - 1], sims[|sims| - 1];
      LinkedContents(finals, front);
      assert forall y :: y in sims <==> y in front || y == x;
      forall c ensures c in Linked(finals, sims) <==> LinkedBy(finals, sims, c) {
        if LinkedBy(finals, sims, c) {
          var y :| y in sims && FindFinal(finals, y) == Some(c);
          if y != x {
            assert LinkedBy(finals, front, c);
          }
        }
        if c in Linked(finals, front) {
          var y :| y in front && FindFinal(finals, y) == Some(c);
          assert y in sims;
        }
      }
    }
  }

  /** `clustered_items` is one item per cluster key whose main is a final
      article, in key order: that article, the key, and the links to the
      cluster's other members. */
  lemma {:induction false} ItemsFromContents(m: CMap, finals: seq<Curated>, ks: seq<int>)
    requires KeysPresent(m, ks)
    ensures var heads := Filter(ks, Heads(m, finals));
            var items := ItemsFrom(m, finals, ks);
            && |items| == |heads|
            && forall i :: 0 <= i < |items| ==>
                 heads[i] in m.values && ItemFor(m, finals, heads[i]) == Some(items[i])
  {
    if ks != [] {
      var front := ks[..|ks| - 1];
      assert forall k :: k in front ==> k in ks;
      ItemsFromContents(m, finals, front);
      FilterStep(ks, Heads(m, finals), |ks| - 1);
      assert ks[..|ks|] == ks;
    }
  }

  /** What an item holds: a final article as its main, a cluster id among
      `ks`, and links only to final articles of the cluster's other members. */
  predicate HeadsCluster(m: CMap, finals: seq<Curated>, ks: seq<int>, it: FeedItem)
  {
    && it.curated in finals
    && it.clusterId.Some? && it.clusterId.value in ks && it.clusterId.value in m.values
    && it.curated.article.id == m.values[it.clusterId.value].main
    && forall c :: c in it.similar ==> c in finals && c.article.id in m.values[it.clusterId.value].members
  }

  lemma ItemsAreFinals(m: CMap, finals: seq<Curated>, ks: seq<int>)
    requires KeysPresent(m, ks)
    ensures forall it :: it in ItemsFrom(m, finals, ks) ==> HeadsCluster(m, finals, ks, it)
  {
    var heads := Filter(ks, Heads(m, finals));
    var items := ItemsFrom(m, finals, ks);
    ItemsFromContents(m, finals, ks);
    forall i | 0 <= i < |items|
      ensures HeadsCluster(m, finals, ks, items[i])
    {
      assert heads[i] in heads;
      ItemForFacts(m, finals, heads[i]);
    }
  }

  /** The item of one cluster. */
  lemma ItemForFacts(m: CMap, finals: seq<Curated>, k: int)
    requires k in m.values && ItemFor(m, finals, k).Some?
    ensures var it := ItemFor(m, finals, k).value;
            && it.curated in finals && it.clusterId == Some(k)
            && it.curated.article.id == m.values[k].main
            && forall c :: c in it.similar ==> c in finals && c.article.id in m.values[k].members
  {
    var e := m.values[k];
    var sims := Filter(e.members, NotMain(e.main));
    LinkedContents(finals, sims);
    var it := ItemFor(m, finals, k).value;
    forall c | c in it.similar ensures c in finals && c.article.id in e.members {
      assert LinkedBy(finals, sims, c);
    }
  }

  /** With a key list that holds each key once, no two items head the same cluster. */
  lemma ItemClusterIdsDistinct(m: CMap, finals: seq<Curated>)
    requires Valid(m)
    ensures var items := ItemsFrom(m, finals, m.keys);
            forall i, j :: 0 <= i < j < |items| ==> items[i].clusterId != items[j].clusterId
  {
    var heads := Filter(m.keys, Heads(m, finals));
    var items := ItemsFrom(m, finals, m.keys);
    ItemsFromContents(m, finals, m.keys);
    forall i, j | 0 <= i < j < |items| ensures items[i].clusterId != items[j].clusterId {
      FilterKeepsOrder(m.keys, Heads(m, finals), i, j);
      var a, b :| 0 <= a < b < |m.keys| && m.keys[a] == heads[i] && m.keys[b] == heads[j];
      assert items[i].clusterId == Some(heads[i]);
      assert items[j].clusterId == Some(heads[j]);
    }
  }

  /** Whether a feed item shows the article with id `x`, as its main article
      or as a link. */
  predicate Shows(it: FeedItem, x: int)
  {
    it.curated.article.id == x || exists c :: c in it.similar && c.article.id == x
  }

  predicate Published(items: seq<FeedItem>, x: int)
  {
    exists i :: 0 <= i < |items| && Shows(items[i], x)
  }

  /** Clusters whose members are all final ids and whose cluster ids never
      repeat lose no article: every final article is shown by some item. */
  lemma EveryFinalIsPublished(finals: seq<Curated>, cs: seq<Cluster>)
    requires DistinctIds(cs)
    requires forall j, x :: 0 <= j < |cs| && x in cs[j].members ==> x in FinalIds(finals)
    ensures var r := ClusterMapOf(cs, FinalIds(finals)); KeysPresent(r, r.keys)
    ensures var r := ClusterMapOf(cs, FinalIds(finals));
            forall f :: f in finals ==> Published(ItemsFrom(r, finals, r.keys), f.article.id)
  {
    var ids := FinalIds(finals);
    var r := ClusterMapOf(cs, ids);
    EntriesContainTheirMain(cs, ids);
    EveryFinalIdIsClustered(cs, ids);
    EntryMembersComeFrom(cs, ids);
    var heads := Filter(r.keys, Heads(r, finals));
    var items := ItemsFrom(r, finals, r.keys);
    ItemsFromContents(r, finals, r.keys);
    forall f | f in finals ensures Published(items, f.article.id) {
      var x := f.article.id;
      var fi :| 0 <= fi < |finals| && finals[fi] == f;
      assert ids[fi] == x;
      assert Clustered(r, x);
      var k :| k in r.values && x in r.values[k].members;
      var e := r.values[k];
      assert e.main in e.members;
      assert e.main in ids;
      var mi :| 0 <= mi < |ids| && ids[mi] == e.main;
      assert finals[mi].article.id == e.main;
      assert Heads(r, finals)(k);
      assert k in heads;
      var i :| 0 <= i < |heads| && heads[i] == k;
      var it := items[i];
      assert ItemFor(r, finals, k) == Some(it);
      if x != e.main {
        var sims := Filter(e.members, NotMain(e.main));
        assert x in sims;
        LinkedContents(finals, sims);
        var c := FindFinal(finals, x).value;
        assert LinkedBy(finals, sims, c);
        assert c in it.similar && c.article.id == x;
      }
      assert Shows(items[i], x);
    }
  }

  /** A cluster whose main is no final article gives no item, and its members
      count as used, so they get no singleton either: here final article 3 is
      in no feed. */
  lemma ForeignMainDropsMembers(f: Curated)
    requires f.article.id == 3
    ensures var r := ClusterMapOf([Cluster(0, 99, [99, 3])], [3]);
            KeysPresent(r, r.keys) && ItemsFrom(r, [f], r.keys) == []
  {
    var c := Cluster(0, 99, [99, 3]);
    assert [c][..0] == [];
    assert MainOf(c) == Some(99);
    var e: CMap := Empty();
    assert Grouped([]) == Grouping(e, {});
    var g := Grouped([c]);
    assert g == Grouping(Put(e, 0, Entry(99, [99, 3])), {} + Members(c));
    assert 3 in g.used;
    assert [3][1..] == [];
    var r := ClusterMapOf([c], [3]);
    assert r == g.clusters;
    assert r.keys == [0];
    assert FindFinal([f], 99) == None;
    assert ItemFor(r, [f], 0) == None;
    assert r.keys[..0] == [];
  }

  /** Without clusters the items are the consensus list itself, in order,
      without cluster ids or links. */
  lemma UnclusteredUsesFinals(finals: seq<Curated>, reply: ClusterReply)
    requires ValidatedClusters(reply).None? || ValidatedClusters(reply) == Some([])
    ensures var items := Items(finals, reply);
            && |items| == |finals|
            && forall i :: 0 <= i < |items| ==> items[i] == FeedItem(finals[i], None, [])
  {
  }

  /** The two feeds split the items: each item goes to exactly one feed, by the
      language of its title, and each feed keeps the items' order. */
  lemma PublishIsPartition(finals: seq<Curated>, reply: ClusterReply)
    requires finals != []
    ensures var feeds := Publish(finals, reply);
            var items := Items(finals, reply);
            && multiset(feeds.bangla) + multiset(feeds.english) == multiset(items)
            && (forall it :: it in feeds.bangla <==> it in items && IsBangla(ItemTitle(it)))
            && (forall it :: it in feeds.english <==> it in items && !IsBangla(ItemTitle(it)))
  {
    SplitIsPartition(Items(finals, reply), ItemTitle);
  }

  /** No feed item is made up: the main article and every link of one is an
      article of the consensus list. */
  lemma PublishedAreFinals(finals: seq<Curated>, reply: ClusterReply)
    ensures var feeds := Publish(finals, reply);
            forall it :: it in feeds.bangla + feeds.english ==>
              it.curated in finals && forall c :: c in it.similar ==> c in finals
  {
    var items := Items(finals, reply);
    var cs := ValidatedClusters(reply);
    if finals != [] {
      SplitIsPartition(items, ItemTitle);
      if cs.Some? && cs.value != [] {
        var m := ClusterMapOf(cs.value, FinalIds(finals));
        EntriesContainTheirMain(cs.value, FinalIds(finals));
        ItemsAreFinals(m, finals, m.keys);
      }
    }
  }

  /** A feed article is one the models agreed on: an article with two votes
      or more, with its voters, the fixed category and the fixed reason. */
  lemma CurationPublishesConsensus(articles: seq<Article>, models: seq<ModelSpec>,
                                   replies: seq<seq<seq<int>>>, reply: ClusterReply)
    requires RepliesFit(|articles|, models, replies)
    ensures var t := TallyOf(AllVotes(|articles|, models, replies));
            var feeds := Curation(articles, models, replies, reply);
            forall it :: it in feeds.bangla + feeds.english ==>
              exists k :: k in ConsensusIds(t) && 0 <= k < |articles| &&
                it.curated == Curated(articles[k], t.values[k].models, ConsensusCategory, ConsensusReason)
  {
    var votes := AllVotes(|articles|, models, replies);
    var t := TallyOf(votes);
    AggregatedKeysIndexArticles(articles, models, replies);
    var finals := CurateKeys(articles, t, t.keys);
    SelectConsensusContents(articles, t);
    PublishedAreFinals(finals, reply);
    var ids := ConsensusIds(t);
    var feeds := Curation(articles, models, replies, reply);
    forall it | it in feeds.bangla + feeds.english
      ensures exists k :: k in ids && 0 <= k < |articles| &&
                it.curated == Curated(articles[k], t.values[k].models, ConsensusCategory, ConsensusReason)
    {
      var i :| 0 <= i < |finals| && finals[i] == it.curated;
      assert ids[i] in ids;
    }
  }
}
