/**
 * How `call_gemini_cluster` reads the clustering reply: the list, possibly
 * under a wrapper key, and the validation of its entries.
 */
module Clusters {
  import opened Wrappers
  import opened Json
  import opened Coerce

  /** A validated cluster: all three fields already converted by `int()`. */
  datatype Cluster = Cluster(clusterId: int, main: int, members: seq<int>)

  /** What the clustering request produced. `Unavailable` stands for every path
      that returns None before a reply is decoded: no key, a status other than
      200, a network error, a body that is not JSON. `Answered` carries what the
      extractor made of the reply text. */
  datatype ClusterReply = Unavailable | Answered(extracted: Option<Json>)

  const WrapperKeys: seq<string> := ["clusters", "data", "result", "output"]

  /** `key in d and isinstance(d[key], list)`. */
  predicate HoldsList(fields: seq<(string, Json)>, key: string)
  {
    Lookup(fields, key).Some? && Lookup(fields, key).value.JArray?
  }

  /** The first wrapper key, in `WrapperKeys` order from index `k`, that holds a list. */
  function UnwrapFrom(fields: seq<(string, Json)>, k: nat): (r: Option<seq<Json>>)
    requires k <= |WrapperKeys|
    ensures r.Some? ==>
              exists w :: k <= w < |WrapperKeys| && Lookup(fields, WrapperKeys[w]) == Some(JArray(r.value)) &&
                forall v :: k <= v < w ==> !HoldsList(fields, WrapperKeys[v])
    ensures r.None? <==> forall w :: k <= w < |WrapperKeys| ==> !HoldsList(fields, WrapperKeys[w])
    decreases |WrapperKeys| - k
  {
    if k == |WrapperKeys| then None
    else
      var v := Lookup(fields, WrapperKeys[k]);
      if v.Some? && v.value.JArray? then Some(v.value.elems) else UnwrapFrom(fields, k + 1)
  }

  /** The list the validation loop walks: the reply itself, or the first
      wrapper key holding a list when the reply is a dict; None otherwise. */
  function ReplyList(parsed: Option<Json>): Option<seq<Json>>
  {
    match parsed
    case Some(JArray(es)) => Some(es)
    case Some(JObject(fields)) => UnwrapFrom(fields, 0)
    case _ => None
  }

  function Field(e: Json, key: string): Option<Json>
    requires e.JObject?
  {
    Lookup(e.fields, key)
  }

  /** The members of a dict entry, when the entry has them and `int()` converts each. */
  function MembersOf(e: Json): Option<seq<int>>
    requires e.JObject?
  {
    var v := Field(e, "members");
    if v.None? then None
    else
      var xs := Iterate(v.value);
      if xs.None? then None else IntList(xs.value)
  }

  function MainField(e: Json): Option<int>
    requires e.JObject?
  {
    var v := Field(e, "main");
    if v.None? then None else ToInt(v.value)
  }

  /** An entry the inner `try` accepts: a dict with `members` and `main` whose
      values convert. */
  predicate Convertible(e: Json)
  {
    e.JObject? && MembersOf(e).Some? && MainField(e).Some?
  }

  /** `int(c.get("cluster_id", i))`, which runs outside the inner `try`. */
  function ClusterIdOf(i: nat, e: Json): Option<int>
    requires e.JObject?
  {
    var v := Field(e, "cluster_id");
    if v.None? then Some(i) else ToInt(v.value)
  }

  /** What the loop body does with entry `i`: skip it, end the call, or
      accept its cluster. */
  datatype Verdict = Skip | Fail | Accept(cluster: Cluster)

  function Judge(i: nat, e: Json): Verdict
  {
    if !Convertible(e) then Skip
    else match ClusterIdOf(i, e)
      case None => Fail
      case Some(cid) => Accept(Cluster(cid, MainField(e).value, MembersOf(e).value))
  }

  /** The verdict ends the call exactly when the entry converts but its
      cluster id does not. */
  lemma JudgeFails(i: nat, e: Json)
    ensures Judge(i, e).Fail? <==> Convertible(e) && ClusterIdOf(i, e).None?
  {
  }

  /** An accepted entry is a convertible one, with its three converted values. */
  lemma JudgeAccepts(i: nat, e: Json)
    ensures Judge(i, e).Accept? <==> Convertible(e) && ClusterIdOf(i, e).Some?
    ensures Judge(i, e).Accept? ==>
              Judge(i, e).cluster == Cluster(ClusterIdOf(i, e).value, MainField(e).value, MembersOf(e).value)
  {
  }

  /** The verdict on each entry, by position. */
  function Verdicts(es: seq<Json>): (vs: seq<Verdict>)
    ensures |vs| == |es|
    ensures forall i :: 0 <= i < |es| ==> vs[i] == Judge(i, es[i])
  {
    seq(|es|, i requires 0 <= i < |es| => Judge(i, es[i]))
  }

  /** The clusters the loop collects from the verdicts; None once one fails. */
  function Collect(vs: seq<Verdict>): (r: Option<seq<Cluster>>)
    ensures r.Some? ==> |r.value| <= |vs|
  {
    if vs == [] then Some([])
    else
      var front := Collect(vs[..|vs| - 1]);
      if front.None? then None
      else match vs[|vs| - 1]
        case Skip => front
        case Fail => None
        case Accept(c) => Some(front.value + [c])
  }

  /** The loop over `enumerate(parsed)`: None when a cluster id fails to convert,
      because that exception ends the whole call. */
  function ValidateEntries(es: seq<Json>): (r: Option<seq<Cluster>>)
    ensures r.Some? ==> |r.value| <= |es|
  {
    Collect(Verdicts(es))
  }

  /** A failing verdict fails the collection. */
  lemma {:induction false} CollectFailsAt(vs: seq<Verdict>, i: nat)
    requires i < |vs| && vs[i].Fail?
    ensures Collect(vs).None?
  {
    var n := |vs| - 1;
    if i < n {
      assert vs[..n][i] == vs[i];
      CollectFailsAt(vs[..n], i);
    }
  }

  /** A failed collection has a failing verdict. */
  lemma {:induction false} FailingVerdict(vs: seq<Verdict>) returns (i: nat)
    requires Collect(vs).None?
    ensures i < |vs| && vs[i].Fail?
  {
    var n := |vs| - 1;
    if Collect(vs[..n]).None? {
      i := FailingVerdict(vs[..n]);
      assert vs[..n][i] == vs[i];
    } else {
      i := n;
    }
  }

  /** The last verdict adds nothing or adds its cluster. */
  lemma CollectLast(vs: seq<Verdict>)
    requires vs != [] && Collect(vs).Some?
    ensures Collect(vs[..|vs| - 1]).Some?
    ensures var fv, cs := Collect(vs[..|vs| - 1]).value, Collect(vs).value;
            || (!vs[|vs| - 1].Accept? && cs == fv)
            || (vs[|vs| - 1].Accept? && |cs| == |fv| + 1 && cs[..|fv|] == fv && cs[|fv|] == vs[|vs| - 1].cluster)
  {
    var fv := Collect(vs[..|vs| - 1]).value;
    var cs := Collect(vs).value;
    if vs[|vs| - 1].Accept? {
      assert cs[..|fv|] == fv;
    }
  }

  /** The verdict each collected cluster comes from. */
  lemma {:induction false} CollectSource(vs: seq<Verdict>, cs: seq<Cluster>, k: nat) returns (i: nat)
    requires Collect(vs) == Some(cs) && k < |cs|
    ensures i < |vs| && vs[i] == Accept(cs[k])
  {
    var n := |vs| - 1;
    CollectLast(vs);
    var fv := Collect(vs[..n]).value;
    if k < |fv| {
      assert cs[k] == cs[..|fv|][k];
      i := CollectSource(vs[..n], fv, k);
      assert vs[..n][i] == vs[i];
    } else {
      i := n;
    }
  }

  /** The collected cluster of each accepting verdict. */
  lemma {:induction false} CollectTarget(vs: seq<Verdict>, cs: seq<Cluster>, i: nat) returns (k: nat)
    requires Collect(vs) == Some(cs) && i < |vs| && vs[i].Accept?
    ensures k < |cs| && cs[k] == vs[i].cluster
  {
    var n := |vs| - 1;
    CollectLast(vs);
    var fv := Collect(vs[..n]).value;
    if i < n {
      assert vs[..n][i] == vs[i];
      k := CollectTarget(vs[..n], fv, i);
      assert cs[k] == cs[..|fv|][k];
    } else {
      k := |fv|;
    }
  }

  /** Entry `i` of the list describes cluster `c`. */
  predicate Describes(es: seq<Json>, i: nat, c: Cluster)
  {
    i < |es| && Judge(i, es[i]) == Accept(c)
  }

  /** Some entry of the list describes `c`. */
  predicate FromEntry(es: seq<Json>, c: Cluster)
  {
    exists i :: 0 <= i < |es| && Describes(es, i, c)
  }

  /** Some validated cluster comes from entry `i`. */
  predicate Yields(es: seq<Json>, vs: seq<Cluster>, i: nat)
  {
    exists k :: 0 <= k < |vs| && Describes(es, i, vs[k])
  }

  /** Validation fails exactly when a convertible entry's cluster id does not convert. */
  lemma ValidateFailsExactly(es: seq<Json>)
    ensures ValidateEntries(es).None? <==>
              exists i :: 0 <= i < |es| && Convertible(es[i]) && ClusterIdOf(i, es[i]).None?
  {
    var vs := Verdicts(es);
    if Collect(vs).None? {
      var i := FailingVerdict(vs);
      JudgeFails(i, es[i]);
    } else {
      forall i | 0 <= i < |es| && Convertible(es[i]) ensures ClusterIdOf(i, es[i]).Some? {
        JudgeFails(i, es[i]);
        if vs[i].Fail? {
          CollectFailsAt(vs, i);
        }
      }
    }
  }

  /** Every validated cluster comes from a convertible entry, with that entry's values. */
  lemma ValidateSound(es: seq<Json>, cs: seq<Cluster>)
    requires ValidateEntries(es) == Some(cs)
    ensures forall k :: 0 <= k < |cs| ==> FromEntry(es, cs[k])
  {
    forall k | 0 <= k < |cs| ensures FromEntry(es, cs[k]) {
      var i := CollectSource(Verdicts(es), cs, k);
      assert Describes(es, i, cs[k]);
    }
  }

  /** Every convertible entry yields a validated cluster. */
  lemma ValidateComplete(es: seq<Json>, cs: seq<Cluster>)
    requires ValidateEntries(es) == Some(cs)
    ensures forall i :: 0 <= i < |es| && Convertible(es[i]) ==> Yields(es, cs, i)
  {
    var vs := Verdicts(es);
    forall i | 0 <= i < |es| && Convertible(es[i]) ensures Yields(es, cs, i) {
      JudgeFails(i, es[i]);
      JudgeAccepts(i, es[i]);
      if vs[i].Fail? {
        CollectFailsAt(vs, i);
      }
      var k := CollectTarget(vs, cs, i);
      assert Describes(es, i, cs[k]);
    }
  }

  /** Validating one more entry. */
  lemma ValidatePrefixStep(es: seq<Json>, i: nat)
    requires i < |es|
    ensures ValidateEntries(es[..i + 1]) ==
            if ValidateEntries(es[..i]).None? then None
            else match Judge(i, es[i])
              case Skip => ValidateEntries(es[..i])
              case Fail => None
              case Accept(c) => Some(ValidateEntries(es[..i]).value + [c])
  {
    var vs := Verdicts(es[..i + 1]);
    assert vs[..i] == Verdicts(es[..i]);
    assert vs[i] == Judge(i, es[i]);
  }

  /** Once a cluster id fails, so does every longer prefix. */
  lemma ValidateStaysFailed(es: seq<Json>, n: nat)
    requires n <= |es| && ValidateEntries(es[..n]).None?
    ensures ValidateEntries(es).None?
  {
    var i := FailingVerdict(Verdicts(es[..n]));
    assert es[..n][i] == es[i];
    CollectFailsAt(Verdicts(es), i);
  }

  /** The loop of `call_gemini_cluster` that builds `validated`. */
  method Validate(es: seq<Json>) returns (r: Option<seq<Cluster>>)
    ensures r == ValidateEntries(es)
  {
    var validated: seq<Cluster> := [];
    var i := 0;
    while i < |es|
      invariant 0 <= i <= |es|
      invariant ValidateEntries(es[..i]) == Some(validated)
    {
      var e := es[i];
      ValidatePrefixStep(es, i);
      if e.JObject? {
        var members := MembersOf(e);
        var main := MainField(e);
        if members.Some? && main.Some? {
          var cid := ClusterIdOf(i, e);
          if cid.None? {
            assert Judge(i, e) == Fail;
            ValidateStaysFailed(es, i + 1);
            return None;
          }
          assert Judge(i, e) == Accept(Cluster(cid.value, main.value, members.value));
          validated := validated + [Cluster(cid.value, main.value, members.value)];
        } else {
          assert Judge(i, e) == Skip;
        }
      } else {
        assert Judge(i, e) == Skip;
      }
      i := i + 1;
    }
    assert es[..i] == es;
    return Some(validated);
  }

  /** `call_gemini_cluster`'s result: None, or the validated clusters. */
  function ValidatedClusters(reply: ClusterReply): Option<seq<Cluster>>
  {
    if reply.Unavailable? then None
    else
      var es := ReplyList(reply.extracted);
      if es.None? then None else ValidateEntries(es.value)
  }

  /** A dict that wraps its list under `clusters` is read like the bare list. */
  lemma WrappedListIsRead(es: seq<Json>, rest: seq<(string, Json)>)
    ensures ReplyList(Some(JObject([("clusters", JArray(es))] + rest))) ==
            if HasKey(rest, "clusters") then UnwrapFrom([("clusters", JArray(es))] + rest, 0) else Some(es)
  {
    var fields := [("clusters", JArray(es))] + rest;
    if !HasKey(rest, "clusters") {
      assert fields[1..] == rest;
      assert Lookup(fields, "clusters") == Some(JArray(es)) by {
        LookupFirstOnly(fields);
      }
    }
  }

  lemma {:induction false} LookupFirstOnly(fields: seq<(string, Json)>)
    requires fields != [] && !HasKey(fields[1..], fields[0].0)
    ensures Lookup(fields, fields[0].0) == Some(fields[0].1)
  {
    var key := fields[0].0;
    LookupFacts(fields, key);
    var r := Lookup(fields, key);
    assert r.Some? by { assert fields[0].0 == key; }
    forall j | 0 < j < |fields|
      ensures fields[j].0 != key
    {
      assert fields[1..][j - 1] == fields[j];
    }
    var i :| 0 <= i < |fields| && fields[i] == (key, r.value);
  }
}
