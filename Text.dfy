/** Character classes and the string rewrites the extractor applies before scanning. */
module Text {

  /** Python's `str.isspace()`, which is also what `\s` and `str.strip()` use. */
  predicate IsSpace(c: char)
  {
    || ('\t' <= c <= '\r')
    || ('\U{001C}' <= c <= ' ')
    || c == '\U{0085}' || c == '\U{00A0}' || c == '\U{1680}'
    || ('\U{2000}' <= c <= '\U{200A}')
    || c == '\U{2028}' || c == '\U{2029}' || c == '\U{202F}' || c == '\U{205F}' || c == '\U{3000}'
  }

  /** `s.lstrip()`: drops the leading whitespace and nothing else. */
  function TrimStart(s: string): (r: string)
    ensures |r| <= |s| && r == s[|s| - |r|..]
    ensures r == [] || !IsSpace(r[0])
  {
    if s != [] && IsSpace(s[0]) then TrimStart(s[1..]) else s
  }

  lemma {:induction false} TrimStartDropsAt(s: string, k: nat)
    requires k < |s| - |TrimStart(s)|
    ensures IsSpace(s[k])
  {
    if k > 0 {
      TrimStartDropsAt(s[1..], k - 1);
    }
  }

  /** What `lstrip` drops is whitespace. */
  lemma TrimStartDropsSpaces(s: string)
    ensures forall k :: 0 <= k < |s| - |TrimStart(s)| ==> IsSpace(s[k])
  {
    forall k | 0 <= k < |s| - |TrimStart(s)| {
      TrimStartDropsAt(s, k);
    }
  }

  /** `s.rstrip()`: drops the trailing whitespace and nothing else. */
  function TrimEnd(s: string): (r: string)
    ensures |r| <= |s| && r == s[..|r|]
    ensures r == [] || !IsSpace(r[|r| - 1])
  {
    if s != [] && IsSpace(s[|s| - 1]) then TrimEnd(s[..|s| - 1]) else s
  }

  lemma {:induction false} TrimEndDropsAt(s: string, k: nat)
    requires |TrimEnd(s)| <= k < |s|
    ensures IsSpace(s[k])
  {
    if k < |s| - 1 {
      TrimEndDropsAt(s[..|s| - 1], k);
    }
  }

  /** What `rstrip` drops is whitespace. */
  lemma TrimEndDropsSpaces(s: string)
    ensures forall k :: |TrimEnd(s)| <= k < |s| ==> IsSpace(s[k])
  {
    forall k | |TrimEnd(s)| <= k < |s| {
      TrimEndDropsAt(s, k);
    }
  }

  /** `s.strip()`. */
  function Strip(s: string): string
  {
    TrimEnd(TrimStart(s))
  }

  /** Leading whitespace is trimmed only up to the first non-space. */
  lemma {:induction false} TrimStartMid(pre: string, rest: string) returns (a: nat)
    requires rest != [] && !IsSpace(rest[0])
    ensures a <= |pre| && TrimStart(pre + rest) == pre[a..] + rest
    decreases |pre|
  {
    if pre == [] {
      assert pre + rest == rest;
      a := 0;
    } else if IsSpace(pre[0]) {
      assert (pre + rest)[0] == pre[0];
      assert (pre + rest)[1..] == pre[1..] + rest;
      var a' := TrimStartMid(pre[1..], rest);
      a := a' + 1;
      assert pre[1..][a'..] == pre[a..];
    } else {
      assert (pre + rest)[0] == pre[0];
      a := 0;
    }
  }

  /** Trailing whitespace is trimmed only back to the last non-space. */
  lemma {:induction false} TrimEndMid(init: string, post: string) returns (b: nat)
    requires init != [] && !IsSpace(init[|init| - 1])
    ensures b <= |post| && TrimEnd(init + post) == init + post[..b]
    decreases |post|
  {
    if post == [] {
      assert init + post == init;
      b := 0;
    } else if IsSpace(post[|post| - 1]) {
      assert (init + post)[|init + post| - 1] == post[|post| - 1];
      assert (init + post)[..|init + post| - 1] == init + post[..|post| - 1];
      b := TrimEndMid(init, post[..|post| - 1]);
      assert post[..|post| - 1][..b] == post[..b];
    } else {
      assert (init + post)[|init + post| - 1] == post[|post| - 1];
      b := |post|;
      assert post[..b] == post;
    }
  }

  /** Leading whitespace of any length goes. */
  lemma {:induction false} TrimStartSpaces(pre: string, rest: string)
    requires forall k :: 0 <= k < |pre| ==> IsSpace(pre[k])
    ensures TrimStart(pre + rest) == TrimStart(rest)
    decreases |pre|
  {
    if pre == [] {
      assert pre + rest == rest;
    } else {
      assert (pre + rest)[0] == pre[0];
      assert (pre + rest)[1..] == pre[1..] + rest;
      TrimStartSpaces(pre[1..], rest);
    }
  }

  /** Trailing whitespace of any length goes. */
  lemma {:induction false} TrimEndSpaces(init: string, post: string)
    requires forall k :: 0 <= k < |post| ==> IsSpace(post[k])
    ensures TrimEnd(init + post) == TrimEnd(init)
    decreases |post|
  {
    if post == [] {
      assert init + post == init;
    } else {
      var n := |init + post|;
      assert (init + post)[n - 1] == post[|post| - 1];
      assert (init + post)[..n - 1] == init + post[..|post| - 1];
      TrimEndSpaces(init, post[..|post| - 1]);
    }
  }

  /** `strip` removes exactly the whitespace around a text whose ends are not
      whitespace. */
  lemma StripPadding(pre: string, s: string, post: string)
    requires s != [] && !IsSpace(s[0]) && !IsSpace(s[|s| - 1])
    requires forall k :: 0 <= k < |pre| ==> IsSpace(pre[k])
    requires forall k :: 0 <= k < |post| ==> IsSpace(post[k])
    ensures Strip(pre + s + post) == s
  {
    assert pre + s + post == pre + (s + post);
    TrimStartSpaces(pre, s + post);
    assert (s + post)[0] == s[0];
    TrimEndSpaces(s, post);
  }

  /** The stripped text is a contiguous piece of the original. */
  lemma StripIsInfix(s: string) returns (a: nat)
    ensures a + |Strip(s)| <= |s|
    ensures forall i :: 0 <= i < |Strip(s)| ==> Strip(s)[i] == s[a + i]
  {
    var u := TrimStart(s);
    a := |s| - |u|;
    assert u == s[a..];
  }

  /** One character of the word `json`, case-insensitively (ASCII letters only). */
  predicate LowerIs(c: char, lower: char)
  {
    c == lower || (c as int) + 32 == lower as int
  }

  /** Whether `s` starts with a fence: three backticks. */
  predicate StartsWithFence(s: string)
  {
    |s| >= 3 && s[0] == '`' && s[1] == '`' && s[2] == '`'
  }

  /** Whether the word `json`, in any letter case, stands at index `i` of `s`. */
  predicate JsonWordAt(s: string, i: nat)
  {
    i + 4 <= |s| && LowerIs(s[i], 'j') && LowerIs(s[i + 1], 's') && LowerIs(s[i + 2], 'o') && LowerIs(s[i + 3], 'n')
  }

  /** The number of characters the fence pattern ```` ```(?:json)? ```` matches at the
      start of `s` (0 when it does not match). The optional group is greedy. */
  function FenceAt(s: string): (n: nat)
    ensures n == 0 || n == 3 || n == 7
    ensures n <= |s|
    ensures n > 0 <==> StartsWithFence(s)
    ensures n == 7 <==> StartsWithFence(s) && JsonWordAt(s, 3)
  {
    if StartsWithFence(s) then (if JsonWordAt(s, 3) then 7 else 3) else 0
  }

  /** `re.sub(r'```(?:json)?', '', s, flags=re.IGNORECASE)`: the leftmost
      non-overlapping matches are deleted, scanning left to right. */
  function RemoveFences(s: string): (r: string)
    ensures |r| <= |s|
    decreases |s|
  {
    if s == [] then []
    else if FenceAt(s) > 0 then RemoveFences(s[FenceAt(s)..])
    else [s[0]] + RemoveFences(s[1..])
  }

  /** A string with no backtick holds no fence, so the rewrite leaves it alone. */
  lemma {:induction false} RemoveFencesNoBacktick(s: string)
    requires '`' !in s
    ensures RemoveFences(s) == s
  {
    if s != [] {
      assert s[0] != '`';
      assert FenceAt(s) == 0;
      RemoveFencesNoBacktick(s[1..]);
    }
  }

  /** Deletion works piecewise: a prefix with no backtick is kept as it is. */
  lemma {:induction false} RemoveFencesPrefix(a: string, b: string)
    requires '`' !in a
    ensures RemoveFences(a + b) == a + RemoveFences(b)
  {
    if a != [] {
      ConsOfAppend(a, b);
      RemoveFencesKeep(a + b);
      RemoveFencesPrefix(a[1..], b);
      ConsAssoc(a, RemoveFences(b));
    } else {
      assert a + b == b;
    }
  }

  lemma ConsOfAppend(a: string, b: string)
    requires a != [] && '`' !in a
    ensures a + b != [] && (a + b)[0] == a[0] && a[0] != '`' && (a + b)[1..] == a[1..] + b
    ensures '`' !in a[1..]
  {
    assert a[0] in a;
  }

  lemma ConsAssoc(a: string, r: string)
    requires a != []
    ensures [a[0]] + (a[1..] + r) == a + r
  {
  }

  /** A first character that is no backtick stays. */
  lemma RemoveFencesKeep(s: string)
    requires s != [] && s[0] != '`'
    ensures RemoveFences(s) == [s[0]] + RemoveFences(s[1..])
  {
  }

  /** A whole fence token, with `json` in any letter case, is deleted wherever
      it stands. */
  lemma RemoveFencesJsonFence(f: string, b: string)
    requires |f| == 7 && StartsWithFence(f) && JsonWordAt(f, 3)
    ensures RemoveFences(f + b) == RemoveFences(b)
  {
    var s := f + b;
    assert forall k :: 0 <= k < 7 ==> s[k] == f[k];
    assert FenceAt(s) == 7;
    assert s[7..] == b;
  }

  /** A bare fence is deleted when no `json` in any letter case follows it. */
  lemma RemoveFencesPlainFence(b: string)
    requires !JsonWordAt(b, 0)
    ensures RemoveFences("```" + b) == RemoveFences(b)
  {
    var s := "```" + b;
    assert forall k :: 0 <= k < |b| ==> s[k + 3] == b[k];
    assert FenceAt(s) == 3;
    assert s[3..] == b;
  }

  /** The length of the run of whitespace that starts `s`. */
  function SpaceRun(s: string): (n: nat)
    ensures n <= |s|
  {
    if s != [] && IsSpace(s[0]) then 1 + SpaceRun(s[1..]) else 0
  }

  /** The run is whitespace, and it stops at the end or at a non-space. */
  lemma {:induction false} SpaceRunFacts(s: string)
    ensures forall k :: 0 <= k < SpaceRun(s) ==> IsSpace(s[k])
    ensures SpaceRun(s) == |s| || !IsSpace(s[SpaceRun(s)])
  {
    if s != [] && IsSpace(s[0]) {
      SpaceRunFacts(s[1..]);
      assert forall k :: 1 <= k < SpaceRun(s) ==> s[k] == s[1..][k - 1];
    }
  }

  /** A string of whitespace is one run. */
  lemma {:induction false} SpaceRunAll(w: string)
    requires forall k :: 0 <= k < |w| ==> IsSpace(w[k])
    ensures SpaceRun(w) == |w|
  {
    if w != [] {
      SpaceRunAll(w[1..]);
    }
  }
}
