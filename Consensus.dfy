/**
 * Vote aggregation and the consensus filter of `main`: every id a model returns
 * for one of its batches is a vote, recorded in `selections_map` in call order,
 * and an article is kept once two votes name it.
 */
module Consensus {
  import opened Seqs
  import opened Dicts
  import opened Batching

  datatype Article = Article(id: int, title: string, link: string, description: string, pubDate: string)

  /** The ids the feed loader assigns: article `i` has id `i`. */
  predicate DenseIds(articles: seq<Article>)
  {
    forall i :: 0 <= i < |articles| ==> articles[i].id == i
  }

  /** One recorded vote: an article index and the display name of the model. */
  datatype Vote = Vote(id: int, voter: string)

  /** A `selections_map` entry: the voters in call order and the vote count. */
  datatype Selection = Selection(models: seq<string>, count: nat)

  type Tally = Dict<int, Selection>

  /** The votes that one reply adds: each id that indexes the article list, in
      reply order, repeats included. */
  function ReplyVotes(n: nat, voter: string, decisions: seq<int>): (vs: seq<Vote>)
    ensures |vs| <= |decisions|
  {
    if decisions == [] then []
    else
      var d := decisions[|decisions| - 1];
      ReplyVotes(n, voter, decisions[..|decisions| - 1]) + (if 0 <= d < n then [Vote(d, voter)] else [])
  }

  /** A reply's votes are all in range and all cast by its model. */
  lemma {:induction false} ReplyVotesInRange(n: nat, voter: string, decisions: seq<int>)
    ensures forall i :: 0 <= i < |ReplyVotes(n, voter, decisions)| ==>
              0 <= ReplyVotes(n, voter, decisions)[i].id < n && ReplyVotes(n, voter, decisions)[i].voter == voter
  {
    if decisions != [] {
      ReplyVotesInRange(n, voter, decisions[..|decisions| - 1]);
    }
  }

  /** A reply's votes are exactly its in-range ids. */
  lemma {:induction false} ReplyVotesAreInRangeIds(n: nat, voter: string, decisions: seq<int>)
    ensures forall v :: v in ReplyVotes(n, voter, decisions) <==>
              v.voter == voter && v.id in decisions && 0 <= v.id < n
  {
    if decisions != [] {
      var front := decisions[..|decisions| - 1];
      ReplyVotesAreInRangeIds(n, voter, front);
      assert forall x :: x in decisions <==> x in front || x == decisions[|decisions| - 1];
    }
  }

  /** One reply per batch of every model. */
  predicate RepliesFit(n: nat, models: seq<ModelSpec>, replies: seq<seq<seq<int>>>)
  {
    && PositiveSizes(models)
    && |replies| == |models|
    && forall m :: 0 <= m < |models| ==> |replies[m]| == BatchCount(n, models[m].batchSize)
  }

  /** The votes of round `k` from the first `m` models: a model whose batch list
      has no index `k` is skipped. */
  function RoundVotes(n: nat, models: seq<ModelSpec>, replies: seq<seq<seq<int>>>, k: nat, m: nat): seq<Vote>
    requires RepliesFit(n, models, replies) && m <= |models|
  {
    if m == 0 then []
    else
      RoundVotes(n, models, replies, k, m - 1) +
      (if k < BatchCount(n, models[m - 1].batchSize)
       then ReplyVotes(n, models[m - 1].display, replies[m - 1][k]) else [])
  }

  lemma RoundVotesStep(n: nat, models: seq<ModelSpec>, replies: seq<seq<seq<int>>>, k: nat, m: nat)
    requires RepliesFit(n, models, replies) && m < |models|
    ensures var before := RoundVotes(n, models, replies, k, m);
            var added := RoundVotes(n, models, replies, k, m + 1)[|before|..];
            && RoundVotes(n, models, replies, k, m + 1) == before + added
            && added == if k < BatchCount(n, models[m].batchSize)
                        then ReplyVotes(n, models[m].display, replies[m][k]) else []
  {
  }

  /** The votes of the first `r` rounds, in call order. */
  function VotesBefore(n: nat, models: seq<ModelSpec>, replies: seq<seq<seq<int>>>, r: nat): seq<Vote>
    requires RepliesFit(n, models, replies)
  {
    if r == 0 then [] else VotesBefore(n, models, replies, r - 1) + RoundVotes(n, models, replies, r - 1, |models|)
  }

  /** Every vote of the run; rounds past the cap are never called. */
  function AllVotes(n: nat, models: seq<ModelSpec>, replies: seq<seq<seq<int>>>): seq<Vote>
    requires RepliesFit(n, models, replies)
  {
    VotesBefore(n, models, replies, Rounds(n, models))
  }

  /** One vote added to `selections_map`. */
  function Record(t: Tally, v: Vote): Tally
  {
    var cur := if v.id in t.values then t.values[v.id] else Selection([], 0);
    Put(t, v.id, Selection(cur.models + [v.voter], cur.count + 1))
  }

  /** The map after a sequence of votes. */
  function TallyOf(votes: seq<Vote>): (t: Tally)
  {
    if votes == [] then Empty() else Record(TallyOf(votes[..|votes| - 1]), votes[|votes| - 1])
  }

  /** `selections_map` stays a well-formed dict. */
  lemma {:induction false} TallyValid(votes: seq<Vote>)
    ensures Valid(TallyOf(votes))
  {
    if votes != [] {
      var v := votes[|votes| - 1];
      var t := TallyOf(votes[..|votes| - 1]);
      TallyValid(votes[..|votes| - 1]);
      var cur := if v.id in t.values then t.values[v.id] else Selection([], 0);
      PutValid(t, v.id, Selection(cur.models + [v.voter], cur.count + 1));
    }
  }

  lemma TallyAppend(votes: seq<Vote>, v: Vote)
    ensures TallyOf(votes + [v]) == Record(TallyOf(votes), v)
  {
    assert (votes + [v])[..|votes|] == votes;
  }

  lemma ReplyVotesStep(n: nat, voter: string, decisions: seq<int>, j: nat)
    requires j < |decisions|
    ensures ReplyVotes(n, voter, decisions[..j + 1]) ==
            ReplyVotes(n, voter, decisions[..j]) +
            (if 0 <= decisions[j] < n then [Vote(decisions[j], voter)] else [])
  {
    assert decisions[..j + 1][..j] == decisions[..j];
  }

  /** What one decision adds to the map. */
  lemma ReplyStep(before: seq<Vote>, n: nat, display: string, decisions: seq<int>, j: nat)
    requires j < |decisions|
    ensures var prev := TallyOf(before + ReplyVotes(n, display, decisions[..j]));
            TallyOf(before + ReplyVotes(n, display, decisions[..j + 1])) ==
            if 0 <= decisions[j] < n then Record(prev, Vote(decisions[j], display)) else prev
  {
    ReplyVotesStep(n, display, decisions, j);
    var rv := ReplyVotes(n, display, decisions[..j]);
    if 0 <= decisions[j] < n {
      var v := Vote(decisions[j], display);
      assert before + (rv + [v]) == (before + rv) + [v];
      TallyAppend(before + rv, v);
    } else {
      assert rv + [] == rv;
    }
  }

  /** The inner loop over one reply's decisions. */
  method RecordReply(t0: Tally, n: nat, display: string, decisions: seq<int>, ghost before: seq<Vote>)
    returns (t: Tally)
    requires t0 == TallyOf(before)
    ensures t == TallyOf(before + ReplyVotes(n, display, decisions))
  {
    t := t0;
    var j := 0;
    assert before + ReplyVotes(n, display, decisions[..0]) == before;
    while j < |decisions|
      invariant 0 <= j <= |decisions|
      invariant t == TallyOf(before + ReplyVotes(n, display, decisions[..j]))
    {
      var aid := decisions[j];
      ReplyStep(before, n, display, decisions, j);
      if 0 <= aid < n {
        t := Record(t, Vote(aid, display));
      }
      j := j + 1;
    }
    assert decisions[..j] == decisions;
  }

  /** What one model's reply adds in a round. */
  lemma RoundStep(done: seq<Vote>, n: nat, models: seq<ModelSpec>, replies: seq<seq<seq<int>>>, k: nat, m: nat)
    requires RepliesFit(n, models, replies) && m < |models|
    ensures var prev := done + RoundVotes(n, models, replies, k, m);
            done + RoundVotes(n, models, replies, k, m + 1) ==
            if k < BatchCount(n, models[m].batchSize)
            then prev + ReplyVotes(n, models[m].display, replies[m][k]) else prev
  {
    var r := RoundVotes(n, models, replies, k, m);
    if k < BatchCount(n, models[m].batchSize) {
      var added := ReplyVotes(n, models[m].display, replies[m][k]);
      assert done + (r + added) == (done + r) + added;
    } else {
      assert r + [] == r;
    }
  }

  /** One round: every model that still has a batch with this index. */
  method RecordRound(t0: Tally, n: nat, models: seq<ModelSpec>, replies: seq<seq<seq<int>>>, k: nat,
                     ghost done: seq<Vote>)
    returns (t: Tally)
    requires RepliesFit(n, models, replies)
    requires t0 == TallyOf(done)
    ensures t == TallyOf(done + RoundVotes(n, models, replies, k, |models|))
  {
    t := t0;
    assert done + RoundVotes(n, models, replies, k, 0) == done;
    var mi := 0;
    while mi < |models|
      invariant 0 <= mi <= |models|
      invariant t == TallyOf(done + RoundVotes(n, models, replies, k, mi))
    {
      RoundStep(done, n, models, replies, k, mi);
      if k < BatchCount(n, models[mi].batchSize) {
        t := RecordReply(t, n, models[mi].display, replies[mi][k], done + RoundVotes(n, models, replies, k, mi));
      }
      mi := mi + 1;
    }
  }

  /** The nested round and model loops of `main` that fill `selections_map`. */
  method Aggregate(n: nat, models: seq<ModelSpec>, replies: seq<seq<seq<int>>>) returns (t: Tally)
    requires RepliesFit(n, models, replies)
    ensures t == TallyOf(AllVotes(n, models, replies))
  {
    t := Empty();
    var rounds := Rounds(n, models);
    var batchIdx := 0;
    while batchIdx < rounds
      invariant 0 <= batchIdx <= rounds
      invariant t == TallyOf(VotesBefore(n, models, replies, batchIdx))
    {
      t := RecordRound(t, n, models, replies, batchIdx, VotesBefore(n, models, replies, batchIdx));
      batchIdx := batchIdx + 1;
    }
  }

  // ----- what the map records -----

  /** The voters of the votes for `k`, in order. */
  function VotersOf(votes: seq<Vote>, k: int): seq<string>
  {
    if votes == [] then []
    else VotersOf(votes[..|votes| - 1], k) + (if votes[|votes| - 1].id == k then [votes[|votes| - 1].voter] else [])
  }

  predicate Voted(votes: seq<Vote>, k: int)
  {
    exists i :: 0 <= i < |votes| && votes[i].id == k
  }

  /** What one vote does to the map: its id gains the voter and one count, and
      a new id goes to the end of the key order. */
  lemma RecordFacts(t: Tally, v: Vote)
    ensures var r := Record(t, v);
            && r.keys == (if v.id in t.values then t.keys else t.keys + [v.id])
            && v.id in r.values
            && r.values[v.id].models == (if v.id in t.values then t.values[v.id].models else []) + [v.voter]
            && r.values[v.id].count == (if v.id in t.values then t.values[v.id].count else 0) + 1
            && (forall k :: k != v.id ==> (k in r.values <==> k in t.values))
            && (forall k :: k != v.id && k in t.values ==> r.values[k] == t.values[k])
  {
  }

  lemma {:induction false} UnvotedHasNoVoters(votes: seq<Vote>, k: int)
    requires !Voted(votes, k)
    ensures VotersOf(votes, k) == []
  {
    if votes != [] {
      var front := votes[..|votes| - 1];
      assert forall i :: 0 <= i < |front| ==> front[i] == votes[i];
      UnvotedHasNoVoters(front, k);
    }
  }

  /** The map holds exactly the voted ids; each entry lists every vote for its
      id, in call order, duplicates included, and counts them. */
  lemma {:induction false} TallyRecordsVotes(votes: seq<Vote>)
    ensures forall k :: k in TallyOf(votes).values <==> Voted(votes, k)
    ensures forall k :: k in TallyOf(votes).values ==>
              TallyOf(votes).values[k].models == VotersOf(votes, k) &&
              TallyOf(votes).values[k].count == |VotersOf(votes, k)|
  {
    if votes != [] {
      var front := votes[..|votes| - 1];
      var v := votes[|votes| - 1];
      var t0 := TallyOf(front);
      var t := TallyOf(votes);
      assert t == Record(t0, v);
      TallyRecordsVotes(front);
      RecordFacts(t0, v);
      assert forall i :: 0 <= i < |front| ==> front[i] == votes[i];
      forall k ensures Voted(votes, k) <==> Voted(front, k) || v.id == k {
        if Voted(votes, k) && v.id != k {
          var i :| 0 <= i < |votes| && votes[i].id == k;
          assert i < |front| && front[i].id == k;
        }
        if v.id == k {
          assert votes[|votes| - 1].id == k;
        }
      }
      forall k | k in t.values
        ensures t.values[k].models == VotersOf(votes, k) && t.values[k].count == |VotersOf(votes, k)|
      {
        assert VotersOf(votes, k) == VotersOf(front, k) + (if v.id == k then [v.voter] else []);
        if k == v.id && k !in t0.values {
          UnvotedHasNoVoters(front, k);
        }
      }
    }
  }

  /** The index of the first vote for `k`, or the number of votes when no vote
      names `k`. */
  function FirstVote(votes: seq<Vote>, k: int): (i: nat)
    ensures i <= |votes|
  {
    if votes == [] then 0
    else
      var f := FirstVote(votes[..|votes| - 1], k);
      if f < |votes| - 1 then f
      else if votes[|votes| - 1].id == k then |votes| - 1
      else |votes|
  }

  /** The first vote is a vote for `k` with none before it, and exists
      exactly when `k` was voted for. */
  lemma {:induction false} FirstVoteFacts(votes: seq<Vote>, k: int)
    ensures FirstVote(votes, k) < |votes| <==> Voted(votes, k)
    ensures FirstVote(votes, k) < |votes| ==> votes[FirstVote(votes, k)].id == k
    ensures forall j :: 0 <= j < FirstVote(votes, k) ==> votes[j].id != k
  {
    if votes != [] {
      var front := votes[..|votes| - 1];
      FirstVoteFacts(front, k);
      assert forall j :: 0 <= j < |front| ==> front[j] == votes[j];
      if Voted(votes, k) && votes[|front|].id != k {
        var i :| 0 <= i < |votes| && votes[i].id == k;
        assert i < |front| && front[i].id == k;
      }
    }
  }

  /** One more vote: an id voted before keeps its first vote, and the new vote
      is the first one for an id not voted before. */
  lemma FirstVoteAppend(votes: seq<Vote>, v: Vote, k: int)
    ensures FirstVote(votes + [v], k) ==
            if FirstVote(votes, k) < |votes| then FirstVote(votes, k)
            else if v.id == k then |votes| else |votes| + 1
  {
    assert (votes + [v])[..|votes|] == votes;
  }

  /** The positions of the first votes, as a function of the id. */
  function Pos(votes: seq<Vote>): int -> int
  {
    k => FirstVote(votes, k)
  }

  predicate Increasing(ks: seq<int>, f: int -> int)
  {
    forall i, j :: 0 <= i < j < |ks| ==> f(ks[i]) < f(ks[j])
  }

  /** The map's keys are in order of each id's first vote. */
  lemma TallyKeysInFirstVoteOrder(votes: seq<Vote>)
    ensures forall k :: k in TallyOf(votes).keys ==> Voted(votes, k)
    ensures forall i, j :: 0 <= i < j < |TallyOf(votes).keys| ==>
              FirstVote(votes, TallyOf(votes).keys[i]) < FirstVote(votes, TallyOf(votes).keys[j])
  {
    KeysAllVoted(votes);
    KeysInOrder(votes);
  }

  lemma {:induction false} KeysInOrder(votes: seq<Vote>)
    ensures forall k :: k in TallyOf(votes).keys ==> FirstVote(votes, k) < |votes|
    ensures Increasing(TallyOf(votes).keys, Pos(votes))
  {
    if votes != [] {
      var front := votes[..|votes| - 1];
      var v := votes[|votes| - 1];
      KeysInOrder(front);
      KeysOrderStep(front, v);
      assert votes == front + [v];
    }
  }

  lemma KeysAllVoted(votes: seq<Vote>)
    ensures forall k :: k in TallyOf(votes).keys ==> Voted(votes, k)
  {
    TallyValid(votes);
    TallyRecordsVotes(votes);
  }

  lemma KeysAfter(front: seq<Vote>, v: Vote)
    ensures TallyOf(front + [v]).keys ==
            if v.id in TallyOf(front).values then TallyOf(front).keys else TallyOf(front).keys + [v.id]
  {
    TallyAppend(front, v);
    RecordFacts(TallyOf(front), v);
  }

  /** One more vote keeps the key order: an id seen before keeps its first
      vote, and a new id comes last with the newest first vote. */
  lemma KeysOrderStep(front: seq<Vote>, v: Vote)
    requires forall k :: k in TallyOf(front).keys ==> FirstVote(front, k) < |front|
    requires Increasing(TallyOf(front).keys, Pos(front))
    ensures forall k :: k in TallyOf(front + [v]).keys ==> FirstVote(front + [v], k) < |front + [v]|
    ensures Increasing(TallyOf(front + [v]).keys, Pos(front + [v]))
  {
    var ks := TallyOf(front).keys;
    KeysAfter(front, v);
    KeepFirstVotes(ks, front, v);
    if v.id !in TallyOf(front).values {
      NewIdVotedLast(front, v);
      AppendLargest(ks, v.id, Pos(front + [v]), Pos(front), |front|);
    } else {
      SameOrder(ks, Pos(front + [v]), Pos(front));
    }
  }

  lemma KeepFirstVotes(ks: seq<int>, front: seq<Vote>, v: Vote)
    requires forall k :: k in ks ==> FirstVote(front, k) < |front|
    ensures forall i :: 0 <= i < |ks| ==> Pos(front + [v])(ks[i]) == Pos(front)(ks[i]) < |front|
    ensures forall k :: k in ks ==> FirstVote(front + [v], k) < |front|
  {
    forall k | k in ks
      ensures FirstVote(front + [v], k) == FirstVote(front, k) < |front|
    {
      FirstVoteAppend(front, v, k);
    }
  }

  /** An id the map does not hold yet has its first vote in the new vote. */
  lemma NewIdVotedLast(front: seq<Vote>, v: Vote)
    requires v.id !in TallyOf(front).values
    ensures FirstVote(front + [v], v.id) == |front|
  {
    TallyRecordsVotes(front);
    FirstVoteFacts(front, v.id);
    FirstVoteAppend(front, v, v.id);
  }

  lemma AppendLargest(ks: seq<int>, x: int, f: int -> int, g: int -> int, bound: int)
    requires forall i :: 0 <= i < |ks| ==> f(ks[i]) == g(ks[i]) < bound
    requires Increasing(ks, g)
    requires f(x) == bound
    ensures Increasing(ks + [x], f)
  {
    var ks' := ks + [x];
    forall i, j | 0 <= i < j < |ks'|
      ensures f(ks'[i]) < f(ks'[j])
    {
      assert ks'[i] == ks[i];
      if j < |ks| {
        assert ks'[j] == ks[j];
      } else {
        assert ks'[j] == x;
      }
    }
  }

  lemma SameOrder(ks: seq<int>, f: int -> int, g: int -> int)
    requires forall i :: 0 <= i < |ks| ==> f(ks[i]) == g(ks[i])
    requires Increasing(ks, g)
    ensures Increasing(ks, f)
  {
  }

  /** Every vote of the run lies in the article range. */
  lemma {:induction false} VotesInRange(n: nat, models: seq<ModelSpec>, replies: seq<seq<seq<int>>>, r: nat)
    requires RepliesFit(n, models, replies)
    ensures forall i :: 0 <= i < |VotesBefore(n, models, replies, r)| ==> 0 <= VotesBefore(n, models, replies, r)[i].id < n
  {
    if r > 0 {
      VotesInRange(n, models, replies, r - 1);
      RoundVotesInRange(n, models, replies, r - 1, |models|);
    }
  }

  lemma {:induction false} RoundVotesInRange(n: nat, models: seq<ModelSpec>, replies: seq<seq<seq<int>>>, k: nat, m: nat)
    requires RepliesFit(n, models, replies) && m <= |models|
    ensures forall i :: 0 <= i < |RoundVotes(n, models, replies, k, m)| ==> 0 <= RoundVotes(n, models, replies, k, m)[i].id < n
  {
    if m > 0 {
      RoundVotesInRange(n, models, replies, k, m - 1);
      if k < BatchCount(n, models[m - 1].batchSize) {
        ReplyVotesInRange(n, models[m - 1].display, replies[m - 1][k]);
      }
    }
  }

  /** Only ids in `[0, len(articles))` are ever recorded. */
  lemma AggregatedIdsInRange(n: nat, models: seq<ModelSpec>, replies: seq<seq<seq<int>>>)
    requires RepliesFit(n, models, replies)
    ensures forall k :: k in TallyOf(AllVotes(n, models, replies)).values ==> 0 <= k < n
  {
    var votes := AllVotes(n, models, replies);
    VotesInRange(n, models, replies, Rounds(n, models));
    TallyRecordsVotes(votes);
  }

  /** A reply that names an article twice gives it two votes from the same model. */
  lemma DuplicateIdCountsTwice(n: nat, voter: string, d: int)
    requires 0 <= d < n
    ensures var t := TallyOf(ReplyVotes(n, voter, [d, d]));
            d in t.values && t.values[d] == Selection([voter, voter], 2)
  {
    var v := Vote(d, voter);
    ReplyTwice(n, voter, d);
    TallyOfTwo(v, v);
    var t0: Tally := Empty();
    RecordFacts(t0, v);
    RecordFacts(Record(t0, v), v);
  }

  lemma ReplyTwice(n: nat, voter: string, d: int)
    requires 0 <= d < n
    ensures ReplyVotes(n, voter, [d, d]) == [Vote(d, voter), Vote(d, voter)]
  {
    assert [d, d][..1] == [d];
    assert [d][..0] == [];
  }

  lemma TallyOfTwo(v1: Vote, v2: Vote)
    ensures TallyOf([v1, v2]) == Record(Record(Empty(), v1), v2)
  {
    assert [v1, v2][..1] == [v1];
    assert [v1][..0] == [];
    assert TallyOf([v1]) == Record(TallyOf([]), v1);
  }

  lemma TallyOfThree(v1: Vote, v2: Vote, v3: Vote)
    ensures TallyOf([v1, v2, v3]) == Record(Record(Record(Empty(), v1), v2), v3)
  {
    assert [v1, v2, v3][..2] == [v1, v2];
    TallyOfTwo(v1, v2);
  }

  // ----- the consensus filter -----

  const ConsensusThreshold: nat := 2
  const ConsensusCategory: string := "BCS/Bank/GK"
  const ConsensusReason: string := "Selected by multi-model consensus"

  /** An article of the final list with the fields the filter adds. */
  datatype Curated = Curated(article: Article, selectedBy: seq<string>, category: string, reason: string)

  predicate HasConsensus(t: Tally, k: int)
  {
    k in t.values && t.values[k].count >= ConsensusThreshold
  }

  /** The filter condition of `final_articles`, as a value. */
  function Passes(t: Tally): int -> bool
  {
    k => HasConsensus(t, k)
  }

  /** The ids of `final_articles`, in the map's order. */
  function ConsensusIds(t: Tally): (ids: seq<int>)
  {
    Filter(t.keys, Passes(t))
  }

  /** `final_articles` holds exactly the ids with two votes or more, each once,
      in the order of their first vote. */
  lemma ConsensusIdsContract(votes: seq<Vote>)
    ensures var t := TallyOf(votes);
            var ids := ConsensusIds(t);
            && (forall k :: k in ids <==> Voted(votes, k) && |VotersOf(votes, k)| >= ConsensusThreshold)
            && (forall i, j :: 0 <= i < j < |ids| ==> FirstVote(votes, ids[i]) < FirstVote(votes, ids[j]))
  {
    var t := TallyOf(votes);
    var ids := ConsensusIds(t);
    TallyValid(votes);
    TallyRecordsVotes(votes);
    TallyKeysInFirstVoteOrder(votes);
    forall k ensures k in ids <==> Voted(votes, k) && |VotersOf(votes, k)| >= ConsensusThreshold {
      assert k in ids <==> k in t.keys && HasConsensus(t, k);
    }
    forall i, j | 0 <= i < j < |ids| ensures FirstVote(votes, ids[i]) < FirstVote(votes, ids[j]) {
      FilterKeepsOrder(t.keys, Passes(t), i, j);
      var a, b :| 0 <= a < b < |t.keys| && t.keys[a] == ids[i] && t.keys[b] == ids[j];
      assert FirstVote(votes, t.keys[a]) < FirstVote(votes, t.keys[b]);
    }
  }

  /** Every id of `ks` has a record and names an article. */
  predicate IdsIndexArticles(articles: seq<Article>, t: Tally, ks: seq<int>)
  {
    forall i :: 0 <= i < |ks| ==> ks[i] in t.values && 0 <= ks[i] < |articles|
  }

  predicate KeysIndexArticles(articles: seq<Article>, t: Tally)
  {
    IdsIndexArticles(articles, t, t.keys)
  }

  /** After aggregation every key of the tally has a record and names an article. */
  lemma AggregatedKeysIndexArticles(articles: seq<Article>, models: seq<ModelSpec>, replies: seq<seq<seq<int>>>)
    requires RepliesFit(|articles|, models, replies)
    ensures KeysIndexArticles(articles, TallyOf(AllVotes(|articles|, models, replies)))
  {
    var t := TallyOf(AllVotes(|articles|, models, replies));
    TallyValid(AllVotes(|articles|, models, replies));
    AggregatedIdsInRange(|articles|, models, replies);
    assert forall i :: 0 <= i < |t.keys| ==> t.keys[i] in t.keys;
  }

  /** The articles the filter builds from the keys `ks`, in order. */
  function CurateKeys(articles: seq<Article>, t: Tally, ks: seq<int>): seq<Curated>
    requires IdsIndexArticles(articles, t, ks)
  {
    if ks == [] then []
    else
      var k := ks[|ks| - 1];
      CurateKeys(articles, t, ks[..|ks| - 1]) +
      (if HasConsensus(t, k) then [Curated(articles[k], t.values[k].models, ConsensusCategory, ConsensusReason)] else [])
  }

  /** The curated list is the consensus ids, each with its article, its voters
      and the fixed category and reason. */
  lemma {:induction false} CurateKeysContents(articles: seq<Article>, t: Tally, ks: seq<int>)
    requires IdsIndexArticles(articles, t, ks)
    ensures var ids := Filter(ks, Passes(t));
            var cs := CurateKeys(articles, t, ks);
            && |cs| == |ids|
            && forall i :: 0 <= i < |cs| ==>
                 ids[i] in t.values && 0 <= ids[i] < |articles| &&
                 cs[i] == Curated(articles[ids[i]], t.values[ids[i]].models, ConsensusCategory, ConsensusReason)
  {
    if ks != [] {
      var front := ks[..|ks| - 1];
      CurateKeysContents(articles, t, front);
      FilterStep(ks, Passes(t), |ks| - 1);
      assert ks[..|ks|] == ks;
    }
  }

  /** The loop of `main` that builds `final_articles`. */
  method SelectConsensus(articles: seq<Article>, t: Tally) returns (finals: seq<Curated>)
    requires KeysIndexArticles(articles, t)
    ensures finals == CurateKeys(articles, t, t.keys)
  {
    finals := [];
    var j := 0;
    while j < |t.keys|
      invariant 0 <= j <= |t.keys|
      invariant IdsIndexArticles(articles, t, t.keys[..j])
      invariant finals == CurateKeys(articles, t, t.keys[..j])
    {
      var aid := t.keys[j];
      assert t.keys[..j + 1][..j] == t.keys[..j];
      var info := t.values[aid];
      if info.count >= ConsensusThreshold {
        finals := finals + [Curated(articles[aid], info.models, ConsensusCategory, ConsensusReason)];
      }
      j := j + 1;
    }
    assert t.keys[..j] == t.keys;
  }

  /** `final_articles` lists the consensus ids in the map's order, each once,
      with its article, the models that chose it, and the fixed category and reason. */
  lemma SelectConsensusContents(articles: seq<Article>, t: Tally)
    requires KeysIndexArticles(articles, t)
    ensures var ids := ConsensusIds(t);
            var cs := CurateKeys(articles, t, t.keys);
            && |cs| == |ids|
            && forall i :: 0 <= i < |cs| ==>
                 cs[i] == Curated(articles[ids[i]], t.values[ids[i]].models, ConsensusCategory, ConsensusReason)
  {
    CurateKeysContents(articles, t, t.keys);
  }

  /** Two models vote for X and one of them also for Y: only X passes, and its
      voters are listed in call order. */
  lemma TwoVotesSelectOne(x: int, y: int, a: string, b: string)
    requires x != y
    ensures var t := TallyOf([Vote(x, a), Vote(y, a), Vote(x, b)]);
            ConsensusIds(t) == [x] && t.values[x].models == [a, b]
  {
    TallyOfThree(Vote(x, a), Vote(y, a), Vote(x, b));
    ThreeRecords(x, y, a, b);
    var t := Record(Record(Record(Empty(), Vote(x, a)), Vote(y, a)), Vote(x, b));
    OnlyFirstPasses(t, x, y);
  }

  lemma ThreeRecords(x: int, y: int, a: string, b: string)
    requires x != y
    ensures var t := Record(Record(Record(Empty(), Vote(x, a)), Vote(y, a)), Vote(x, b));
            && t.keys == [x, y] && HasConsensus(t, x) && !HasConsensus(t, y)
            && t.values[x].models == [a, b]
  {
    var t0: Tally := Empty();
    var t1 := Record(t0, Vote(x, a));
    var t2 := Record(t1, Vote(y, a));
    RecordFacts(t0, Vote(x, a));
    RecordFacts(t1, Vote(y, a));
    RecordFacts(t2, Vote(x, b));
  }

  lemma OnlyFirstPasses(t: Tally, x: int, y: int)
    requires t.keys == [x, y] && HasConsensus(t, x) && !HasConsensus(t, y)
    ensures ConsensusIds(t) == [x]
  {
    FilterStep(t.keys, Passes(t), 1);
    FilterStep(t.keys, Passes(t), 0);
    assert t.keys[..2] == t.keys;
    assert t.keys[..0] == [];
  }
}
