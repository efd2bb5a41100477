/**
 * Recovery of a JSON value from free model text (`extract_json_from_text`).
 * `json.loads` is an oracle `parse`: Some(v) when it returns v (Some(JNull) when
 * it returns Python's None), None when it raises.
 */
module Extractor {
  import opened Wrappers
  import opened Json
  import opened Text

  type Parser = string -> Option<Json>

  predicate IsOpener(c: char) { c == '[' || c == '{' }
  predicate IsCloser(c: char) { c == ']' || c == '}' }
  predicate IsQuote(c: char) { c == '"' || c == '\'' }

  function CloserOf(c: char): char { if c == '[' then ']' else '}' }

  /** The text after the fence markers are deleted and the result is stripped. */
  function Clean(text: string): string
  {
    Strip(RemoveFences(text))
  }

  /** The index of the first `[` or `{`, if there is one. */
  function FirstOpener(t: string): (r: Option<nat>)
    ensures r.None? <==> forall k :: 0 <= k < |t| ==> !IsOpener(t[k])
    ensures r.Some? ==> r.value < |t| && IsOpener(t[r.value])
    ensures r.Some? ==> forall k :: 0 <= k < r.value ==> !IsOpener(t[k])
  {
    if t == [] then None
    else if IsOpener(t[0]) then Some(0)
    else match FirstOpener(t[1..])
      case None => None
      case Some(i) => Some(i + 1)
  }

  /** `t.find(c)`. */
  function FindFirst(t: string, c: char): (r: Option<nat>)
    ensures r.None? <==> c !in t
    ensures r.Some? ==> r.value < |t| && t[r.value] == c && c !in t[..r.value]
  {
    if t == [] then None
    else if t[0] == c then Some(0)
    else match FindFirst(t[1..], c)
      case None => None
      case Some(i) => assert t[..i + 1] == [t[0]] + t[1..][..i]; Some(i + 1)
  }

  /** `t.rfind(c)`. */
  function FindLast(t: string, c: char): (r: Option<nat>)
    ensures r.None? <==> c !in t
    ensures r.Some? ==> r.value < |t| && t[r.value] == c && c !in t[r.value + 1..]
  {
    if t == [] then None
    else if t[|t| - 1] == c then Some(|t| - 1)
    else
      var r := FindLast(t[..|t| - 1], c);
      assert r.Some? ==> t[r.value + 1..] == t[..|t| - 1][r.value + 1..] + [t[|t| - 1]];
      assert c in t[..|t| - 1] ==> c in t;
      assert c in t ==> c in t[..|t| - 1] by {
        if c in t { var k :| 0 <= k < |t| && t[k] == c; assert t[..|t| - 1][k] == c; }
      }
      r
  }

  // ----- the bracket walk, stated over prefixes of the scanned span -----

  /** String state of the walk: the open quote character, if any, and whether
      the previous character was an unconsumed backslash inside a string. */
  datatype Lex = Lex(inStr: Option<char>, esc: bool)

  function LexStep(l: Lex, c: char): Lex
  {
    if l.inStr.Some? then
      if l.esc then Lex(l.inStr, false)
      else if c == '\\' then Lex(l.inStr, true)
      else if c == l.inStr.value then Lex(None, false)
      else l
    else if IsQuote(c) then Lex(Some(c), l.esc)
    else l
  }

  /** The string state after walking over `s`. Outside a string there is
      never a pending escape. */
  function LexAfter(s: string): (l: Lex)
    ensures l.inStr.None? ==> !l.esc
    ensures l.inStr.Some? ==> IsQuote(l.inStr.value)
  {
    if s == [] then Lex(None, false) else LexStep(LexAfter(s[..|s| - 1]), s[|s| - 1])
  }

  /** One step of the closer stack; None is the walk's `break`. */
  function StackStep(stack: seq<char>, l: Lex, c: char): Option<seq<char>>
  {
    if l.inStr.Some? || IsQuote(c) then Some(stack)
    else if IsOpener(c) then Some(stack + [CloserOf(c)])
    else if IsCloser(c) then
      if stack == [] || c != stack[|stack| - 1] then None
      else Some(stack[..|stack| - 1])
    else Some(stack)
  }

  /** The stack of expected closers after walking over `s`, or None once it broke. */
  function StackAfter(s: string): Option<seq<char>>
  {
    if s == [] then Some([])
    else match StackAfter(s[..|s| - 1])
      case None => None
      case Some(st) => StackStep(st, LexAfter(s[..|s| - 1]), s[|s| - 1])
  }

  lemma AppendChar(s: string, c: char)
    ensures LexAfter(s + [c]) == LexStep(LexAfter(s), c)
    ensures StackAfter(s + [c]) == match StackAfter(s)
                                   case None => None
                                   case Some(st) => StackStep(st, LexAfter(s), c)
  {
    assert (s + [c])[..|s|] == s;
  }

  /** The walk over `t` from `start` is still open (stack non-empty, not broken)
      after each prefix ending strictly between `lo` and `hi`. */
  ghost predicate OpenBetween(t: string, start: nat, lo: nat, hi: nat)
    requires start <= lo && hi <= |t| + 1
  {
    forall k :: lo < k < hi ==> StackAfter(t[start..k]).Some? && StackAfter(t[start..k]).value != []
  }

  datatype ScanOutcome = Closed(end: nat) | Broken | RanOff

  /** The walk from index `i` on: the first prefix that empties the stack closes
      the span, the first that breaks aborts, and running off the end is a third
      outcome. */
  function ScanFrom(t: string, start: nat, i: nat): (o: ScanOutcome)
    requires start <= i <= |t|
    ensures o.Closed? ==> i < o.end <= |t|
    decreases |t| - i
  {
    if i == |t| then RanOff
    else match StackAfter(t[start..i + 1])
      case None => Broken
      case Some(st) => if st == [] then Closed(i + 1) else ScanFrom(t, start, i + 1)
  }

  function Scan(t: string, start: nat): (o: ScanOutcome)
    requires start < |t| && IsOpener(t[start])
    ensures o.Closed? ==> start < o.end <= |t|
  {
    ScanFrom(t, start, start)
  }

  lemma {:induction false} ScanClosedFacts(t: string, start: nat, i: nat)
    requires start <= i <= |t| && ScanFrom(t, start, i).Closed?
    ensures var e := ScanFrom(t, start, i).end;
            StackAfter(t[start..e]) == Some([]) && OpenBetween(t, start, i, e)
    decreases |t| - i
  {
    var o := StackAfter(t[start..i + 1]);
    if o.Some? && o.value != [] {
      ScanClosedFacts(t, start, i + 1);
    }
  }

  lemma {:induction false} ScanBrokenFacts(t: string, start: nat, i: nat) returns (e: nat)
    requires start <= i <= |t| && ScanFrom(t, start, i).Broken?
    ensures i < e <= |t| && StackAfter(t[start..e]).None? && OpenBetween(t, start, i, e)
    decreases |t| - i
  {
    var o := StackAfter(t[start..i + 1]);
    if o.Some? && o.value != [] {
      e := ScanBrokenFacts(t, start, i + 1);
    } else {
      e := i + 1;
    }
  }

  lemma {:induction false} ScanRanOffFacts(t: string, start: nat, i: nat)
    requires start <= i <= |t| && ScanFrom(t, start, i).RanOff?
    ensures OpenBetween(t, start, i, |t| + 1)
    decreases |t| - i
  {
    if i < |t| {
      ScanRanOffFacts(t, start, i + 1);
    }
  }

  lemma SliceSnoc(t: string, a: nat, b: nat)
    requires a < b <= |t|
    ensures t[a..b] == t[a..b - 1] + [t[b - 1]]
  {
  }

  /** The bottom of the stack is the closer of the span's first character as
      long as the walk stays open. */
  lemma {:induction false} BottomIsFirstCloser(t: string, start: nat, k: nat)
    requires start < k <= |t| && IsOpener(t[start])
    requires forall j :: start < j <= k ==> StackAfter(t[start..j]).Some? && StackAfter(t[start..j]).value != []
    ensures StackAfter(t[start..k]).value[0] == CloserOf(t[start])
  {
    SliceSnoc(t, start, k);
    AppendChar(t[start..k - 1], t[k - 1]);
    if k > start + 1 {
      BottomIsFirstCloser(t, start, k - 1);
    }
  }

  /** When the walk closes, the captured span is balanced on its own, every
      shorter prefix is still open, and its last character closes its first. */
  lemma ScanClosedSpan(t: string, start: nat)
    requires start < |t| && IsOpener(t[start])
    requires Scan(t, start).Closed?
    ensures var e := Scan(t, start).end;
            start + 1 < e <= |t| && StackAfter(t[start..e]) == Some([]) &&
            OpenBetween(t, start, start, e) && t[e - 1] == CloserOf(t[start])
  {
    var e := Scan(t, start).end;
    ScanClosedFacts(t, start, start);
    SliceSnoc(t, start, start + 1);
    AppendChar(t[start..start], t[start]);
    assert e != start + 1;
    BottomIsFirstCloser(t, start, e - 1);
    SliceSnoc(t, start, e);
    AppendChar(t[start..e - 1], t[e - 1]);
  }

  /** A closer that does not match, or that has nothing to close, aborts the walk. */
  lemma ScanBrokenAt(t: string, start: nat)
    requires start < |t| && IsOpener(t[start])
    requires Scan(t, start).Broken?
    ensures exists e :: start < e <= |t| && StackAfter(t[start..e]).None? && OpenBetween(t, start, start, e) &&
                        IsCloser(t[e - 1]) && LexAfter(t[start..e - 1]).inStr.None?
  {
    var e := ScanBrokenFacts(t, start, start);
    SliceSnoc(t, start, e);
    AppendChar(t[start..e - 1], t[e - 1]);
  }

  /** Running off the end means every prefix of the rest of the text left an open bracket. */
  lemma ScanRanOffOpen(t: string, start: nat)
    requires start < |t| && IsOpener(t[start])
    requires Scan(t, start).RanOff?
    ensures OpenBetween(t, start, start, |t| + 1)
  {
    ScanRanOffFacts(t, start, start);
  }

  /** What may stand between two quotes `q`: characters other than `q` and
      backslash, and backslash-escaped pairs. */
  predicate LiteralBody(b: string, q: char)
    decreases |b|
  {
    if b == [] then true
    else if b[0] == '\\' then |b| >= 2 && LiteralBody(b[2..], q)
    else b[0] != q && LiteralBody(b[1..], q)
  }

  lemma {:induction false} InsideLiteral(pre: string, b: string, q: char)
    requires LexAfter(pre) == Lex(Some(q), false)
    requires LiteralBody(b, q)
    ensures LexAfter(pre + b) == Lex(Some(q), false)
    ensures StackAfter(pre + b) == StackAfter(pre)
    decreases |b|
  {
    if b == [] {
      assert pre + b == pre;
    } else if b[0] == '\\' {
      AppendChar(pre, b[0]);
      AppendChar(pre + [b[0]], b[1]);
      InsideLiteral(pre + [b[0]] + [b[1]], b[2..], q);
      assert pre + [b[0]] + [b[1]] + b[2..] == pre + b;
    } else {
      AppendChar(pre, b[0]);
      InsideLiteral(pre + [b[0]], b[1..], q);
      assert pre + [b[0]] + b[1..] == pre + b;
    }
  }

  /** Brackets inside a quoted string, in either quote style and with
      backslash escapes, never touch the stack. */
  lemma StringLiteralInert(p: string, q: char, body: string)
    requires LexAfter(p).inStr.None? && IsQuote(q)
    requires LiteralBody(body, q)
    ensures StackAfter(p + [q] + body + [q]) == StackAfter(p)
    ensures LexAfter(p + [q] + body + [q]) == LexAfter(p)
  {
    AppendChar(p, q);
    InsideLiteral(p + [q], body, q);
    AppendChar(p + [q] + body, q);
  }

  // ----- trailing-comma repair: re.sub(r',\s*([}\]])', r'\1', s) -----

  /** When `s` starts with a comma that only whitespace separates from a `}` or
      `]`, the index of that closer; otherwise 0. */
  function CommaRun(s: string): (k: nat)
    ensures k > 0 ==> k < |s| && IsCloser(s[k])
  {
    if s != [] && s[0] == ',' && 1 + SpaceRun(s[1..]) < |s| && IsCloser(s[1 + SpaceRun(s[1..])]) then
      1 + SpaceRun(s[1..])
    else 0
  }

  /** A match of the pattern is replaced by its closer; the text after the
      closer is searched again. */
  function Repair(s: string): (r: string)
    ensures |r| <= |s|
    decreases |s|
  {
    if s == [] then []
    else if CommaRun(s) > 0 then [s[CommaRun(s)]] + Repair(s[CommaRun(s) + 1..])
    else [s[0]] + Repair(s[1..])
  }

  /** The match is the comma, then whitespace, then the closer. */
  lemma CommaRunFacts(s: string)
    requires CommaRun(s) > 0
    ensures s[0] == ','
    ensures forall k :: 1 <= k < CommaRun(s) ==> IsSpace(s[k])
  {
    SpaceRunFacts(s[1..]);
    assert forall k :: 1 <= k < CommaRun(s) ==> s[k] == s[1..][k - 1];
  }

  /** The characters other than commas and whitespace. */
  function Significant(s: string): string
  {
    if s == [] then [] else (if s[0] == ',' || IsSpace(s[0]) then [] else [s[0]]) + Significant(s[1..])
  }

  lemma {:induction false} SignificantAppend(a: string, b: string)
    ensures Significant(a + b) == Significant(a) + Significant(b)
  {
    if a == [] {
      assert a + b == b;
    } else {
      assert (a + b)[1..] == a[1..] + b;
      SignificantAppend(a[1..], b);
    }
  }

  lemma {:induction false} SignificantSpaces(w: string)
    requires forall k :: 0 <= k < |w| ==> IsSpace(w[k])
    ensures Significant(w) == []
  {
    if w != [] { SignificantSpaces(w[1..]); }
  }

  lemma SignificantCons(c: char, r: string)
    ensures Significant([c] + r) == (if c == ',' || IsSpace(c) then [] else [c]) + Significant(r)
  {
    assert ([c] + r)[1..] == r;
  }

  /** A comma and the whitespace after it are not significant. */
  lemma SignificantCommaRun(s: string, n: nat)
    requires 1 + n <= |s| && s[0] == ','
    requires forall k :: 1 <= k < 1 + n ==> IsSpace(s[k])
    ensures Significant(s) == Significant(s[1 + n..])
  {
    CommaRunSplit(s, n, s[1..1 + n]);
    CommaThenSpaces(s[1..1 + n], s[1 + n..]);
  }

  lemma CommaRunSplit(s: string, n: nat, w: string)
    requires 1 + n <= |s| && s[0] == ',' && w == s[1..1 + n]
    requires forall k :: 1 <= k < 1 + n ==> IsSpace(s[k])
    ensures s == [','] + (w + s[1 + n..])
    ensures forall k :: 0 <= k < |w| ==> IsSpace(w[k])
  {
    assert forall k :: 0 <= k < n ==> w[k] == s[1 + k];
  }

  lemma CommaThenSpaces(w: string, rest: string)
    requires forall k :: 0 <= k < |w| ==> IsSpace(w[k])
    ensures Significant([','] + (w + rest)) == Significant(rest)
  {
    SignificantSpaces(w);
    SignificantCons(',', w + rest);
    SignificantAppend(w, rest);
  }

  lemma HeadAt(s: string, k: nat)
    requires k < |s|
    ensures s[k..] == [s[k]] + s[k + 1..]
    ensures s[0..] == s
  {
  }

  /** The repair deletes only commas and whitespace. */
  lemma {:induction false} RepairDeletesOnlyCommasAndSpaces(s: string)
    ensures Significant(Repair(s)) == Significant(s)
    decreases |s|
  {
    if s != [] {
      var n := CommaRun(s);
      if n > 0 {
        CommaRunFacts(s);
        var c, rest := s[n], s[n + 1..];
        RepairCuts(s);
        RepairDeletesOnlyCommasAndSpaces(rest);
        SignificantCons(c, Repair(rest));
        SignificantCons(c, rest);
        HeadAt(s, n);
        SignificantCommaRun(s, n - 1);
      } else {
        RepairKeeps(s);
        RepairDeletesOnlyCommasAndSpaces(s[1..]);
        SignificantCons(s[0], Repair(s[1..]));
        SignificantCons(s[0], s[1..]);
        HeadAt(s, 0);
      }
    }
  }

  /** Text without commas is left alone. */
  lemma {:induction false} RepairNoComma(s: string)
    requires ',' !in s
    ensures Repair(s) == s
  {
    if s != [] {
      assert s[0] != ',';
      RepairNoComma(s[1..]);
    }
  }

  lemma {:induction false} SpaceRunAppend(u: string, x: string)
    requires x != [] && !IsSpace(x[0])
    ensures SpaceRun(u + x) == SpaceRun(u)
  {
    if u == [] {
      assert u + x == x;
    } else {
      assert (u + x)[0] == u[0] && (u + x)[1..] == u[1..] + x;
      if IsSpace(u[0]) { SpaceRunAppend(u[1..], x); }
    }
  }

  /** One step of the repair when the text does not start with a match. */
  lemma RepairKeeps(s: string)
    requires s != [] && CommaRun(s) == 0
    ensures Repair(s) == [s[0]] + Repair(s[1..])
  {
  }

  /** One step of the repair when the text starts with a match. */
  lemma RepairCuts(s: string)
    requires CommaRun(s) > 0
    ensures Repair(s) == [s[CommaRun(s)]] + Repair(s[CommaRun(s) + 1..])
  {
  }

  /** Appending a text that starts with a comma neither creates nor changes a
      match at the start of `a`. */
  lemma CommaRunAppend(a: string, x: string)
    requires x != [] && x[0] == ',' && a != []
    ensures CommaRun(a + x) == CommaRun(a)
  {
    assert (a + x)[1..] == a[1..] + x;
    SpaceRunAppend(a[1..], x);
  }

  lemma TailOfAppend(a: string, x: string, k: nat)
    requires k < |a|
    ensures (a + x)[k] == a[k] && (a + x)[k + 1..] == a[k + 1..] + x
  {
  }

  lemma KeepBoth(a: string, x: string)
    requires x != [] && x[0] == ',' && a != [] && CommaRun(a) == 0
    ensures Repair(a) == [a[0]] + Repair(a[1..])
    ensures Repair(a + x) == [a[0]] + Repair(a[1..] + x)
  {
    RepairKeeps(a);
    CommaRunAppend(a, x);
    RepairKeeps(a + x);
    TailOfAppend(a, x, 0);
  }

  lemma CutBoth(a: string, x: string)
    requires x != [] && x[0] == ',' && a != [] && CommaRun(a) > 0
    ensures Repair(a) == [a[CommaRun(a)]] + Repair(a[CommaRun(a) + 1..])
    ensures Repair(a + x) == [a[CommaRun(a)]] + Repair(a[CommaRun(a) + 1..] + x)
  {
    RepairCuts(a);
    CommaRunAppend(a, x);
    RepairCuts(a + x);
    TailOfAppend(a, x, CommaRun(a));
  }

  lemma ConcatAssoc(c: string, u: string, v: string)
    ensures (c + u) + v == c + (u + v)
  {
  }

  lemma EmptyConcat(a: string, x: string)
    requires a == []
    ensures a + x == x
  {
  }

  /** The repair of a text is the repair of its pieces when the second starts with a comma. */
  lemma {:induction false} RepairSplit(a: string, x: string)
    requires x != [] && x[0] == ','
    ensures Repair(a + x) == Repair(a) + Repair(x)
    decreases |a|
  {
    if a == [] {
      EmptyConcat(a, x);
    } else if CommaRun(a) > 0 {
      var n := CommaRun(a);
      CutBoth(a, x);
      RepairSplit(a[n + 1..], x);
      ConcatAssoc([a[n]], Repair(a[n + 1..]), Repair(x));
    } else {
      KeepBoth(a, x);
      RepairSplit(a[1..], x);
      ConcatAssoc([a[0]], Repair(a[1..]), Repair(x));
    }
  }

  /** A comma, then whitespace, then a closer: the comma and the whitespace go. */
  lemma CommaBeforeCloser(w: string, c: char, b: string)
    requires forall k :: 0 <= k < |w| ==> IsSpace(w[k])
    requires IsCloser(c)
    ensures Repair([','] + w + [c] + b) == [c] + Repair(b)
  {
    var x := [','] + w + [c] + b;
    assert CommaRun(x) == 1 + |w| by {
      assert x[1..] == w + ([c] + b);
      SpaceRunAppend(w, [c] + b);
      SpaceRunAll(w);
      assert x[1 + |w|] == c;
    }
    RepairCuts(x);
    assert x[2 + |w|..] == b;
  }

  /** Every comma that only whitespace separates from a `}` or `]` is deleted,
      together with that whitespace. */
  lemma TrailingCommaRemoved(a: string, w: string, c: char, b: string)
    requires forall k :: 0 <= k < |w| ==> IsSpace(w[k])
    requires IsCloser(c)
    ensures Repair(a + [','] + w + [c] + b) == Repair(a) + [c] + Repair(b)
  {
    var x := [','] + w + [c] + b;
    assert a + [','] + w + [c] + b == a + x;
    RepairSplit(a, x);
    CommaBeforeCloser(w, c, b);
  }

  // ----- the extractor -----

  /** `json.loads(span)`, and on failure `json.loads` of the repaired span. */
  function ParseOrRepair(span: string, parse: Parser): Option<Json>
  {
    if parse(span).Some? then parse(span) else parse(Repair(span))
  }

  /** The last resort: the span from the first `[` to the last `]`. */
  function Fallback(t: string, parse: Parser): Option<Json>
  {
    var s, e := FindFirst(t, '['), FindLast(t, ']');
    if s.Some? && e.Some? && e.value > s.value then ParseOrRepair(t[s.value..e.value + 1], parse) else None
  }

  /** What `extract_json_from_text` returns. */
  function Extract(text: string, parse: Parser): Option<Json>
  {
    if text == [] then None else ExtractCleaned(Clean(text), parse)
  }

  /** The steps after fence removal: a direct parse, then the bracket walk from
      the first opener, then the fallback span. */
  function ExtractCleaned(t: string, parse: Parser): Option<Json>
  {
    if parse(t).Some? then parse(t)
    else match FirstOpener(t)
      case None => None
      case Some(start) =>
        match Scan(t, start)
        case Closed(end) => ParseOrRepair(t[start..end], parse)
        case _ => Fallback(t, parse)
  }

  // ----- properties of the extractor -----

  /** With no direct parse and no `[` or `{` left after cleaning, the result is None. */
  lemma NoOpenerGivesNone(text: string, parse: Parser)
    requires text != [] && parse(Clean(text)).None?
    requires forall k :: 0 <= k < |Clean(text)| ==> !IsOpener(Clean(text)[k])
    ensures Extract(text, parse) == None
  {
  }

  /** The walk starts at the first opener. If it closes, its span (or the span's
      repair) decides the result and the fallback is never tried; only a walk
      that breaks or runs off the end reaches the fallback. */
  lemma WalkDecides(text: string, parse: Parser)
    requires text != [] && parse(Clean(text)).None?
    requires FirstOpener(Clean(text)).Some?
    ensures var t := Clean(text);
            var start := FirstOpener(t).value;
            && (Scan(t, start).Closed? ==>
                  Extract(text, parse) == ParseOrRepair(t[start..Scan(t, start).end], parse))
            && (!Scan(t, start).Closed? ==> Extract(text, parse) == Fallback(t, parse))
  {
  }

  /** A fallback result is the parse of the span from the first `[` to the
      last `]`, the latter strictly after the former. */
  lemma FallbackSpan(t: string, parse: Parser) returns (s: nat, e: nat)
    requires Fallback(t, parse).Some?
    ensures s < e < |t| && t[s] == '[' && '[' !in t[..s] && t[e] == ']' && ']' !in t[e + 1..]
    ensures Fallback(t, parse) == ParseOrRepair(t[s..e + 1], parse)
  {
    s, e := FindFirst(t, '[').value, FindLast(t, ']').value;
  }

  /** The fallback is tried only when a `]` lies strictly after some `[`. */
  lemma FallbackNeedsPair(t: string, parse: Parser)
    requires forall s, e :: 0 <= s < |t| && 0 <= e < |t| && t[s] == '[' && t[e] == ']' ==> e <= s
    ensures Fallback(t, parse) == None
  {
    var s, e := FindFirst(t, '['), FindLast(t, ']');
    if s.Some? && e.Some? {
      assert t[s.value] == '[' && t[e.value] == ']';
    }
  }

  /** The extractor invents nothing: a result is the parse of the cleaned text,
      or of one of its slices, or of the repair of one of its slices. */
  lemma ExtractSound(text: string, parse: Parser)
    requires Extract(text, parse).Some?
    ensures var t := Clean(text);
            var v := Extract(text, parse);
            v == parse(t) ||
            exists i, j :: 0 <= i <= j <= |t| && (v == parse(t[i..j]) || v == parse(Repair(t[i..j])))
  {
    CleanedSound(Clean(text), parse);
  }

  lemma CleanedSound(t: string, parse: Parser)
    requires ExtractCleaned(t, parse).Some?
    ensures var v := ExtractCleaned(t, parse);
            v == parse(t) ||
            exists i, j :: 0 <= i <= j <= |t| && (v == parse(t[i..j]) || v == parse(Repair(t[i..j])))
  {
    var v := ExtractCleaned(t, parse);
    if parse(t).None? {
      var start := FirstOpener(t).value;
      if Scan(t, start).Closed? {
        var e := Scan(t, start).end;
        assert v == ParseOrRepair(t[start..e], parse);
        assert v == parse(t[start..e]) || v == parse(Repair(t[start..e]));
      } else {
        var s, e := FindFirst(t, '['), FindLast(t, ']');
        assert v == ParseOrRepair(t[s.value..e.value + 1], parse);
        assert v == parse(t[s.value..e.value + 1]) || v == parse(Repair(t[s.value..e.value + 1]));
      }
    }
  }

  lemma {:induction false} ScanShift(t: string, start: nat, c: string, j: nat)
    requires start + |c| <= |t| && t[start..start + |c|] == c
    requires j < |c| && ScanFrom(c, 0, j) == Closed(|c|)
    ensures ScanFrom(t, start, start + j) == Closed(start + |c|)
    decreases |c| - j
  {
    assert t[start..start + j + 1] == c[0..j + 1];
    var o := StackAfter(c[0..j + 1]);
    if o.Some? && o.value != [] {
      ScanShift(t, start, c, j + 1);
    }
  }

  lemma FencesAroundCore(prose: string, core: string, trail: string)
    requires '`' !in prose && '`' !in core && '`' !in trail
    requires !JsonWordAt(trail, 0)
    ensures RemoveFences(prose + ("```json" + (core + ("```" + trail)))) == prose + core + trail
  {
    var tail := "```" + trail;
    var mid := core + tail;
    var fenced := "```json" + mid;
    RemoveFencesPrefix(prose, fenced);
    RemoveFencesJsonFence("```json", mid);
    RemoveFencesPrefix(core, tail);
    RemoveFencesPlainFence(trail);
    RemoveFencesNoBacktick(trail);
  }

  /** Stripping cuts only into the prose and the commentary when the core
      starts and ends with a non-space. */
  lemma StripAroundCore(prose: string, core: string, trail: string) returns (a: nat, b: nat)
    requires |core| > 0 && !IsSpace(core[0]) && !IsSpace(core[|core| - 1])
    ensures a <= |prose| && b <= |trail|
    ensures Strip(prose + core + trail) == prose[a..] + core + trail[..b]
  {
    Regroup(prose, core, trail);
    a := TrimStartMid(prose, core + trail);
    Regroup(prose[a..], core, trail);
    b := TrimEndMid(prose[a..] + core, trail);
  }

  lemma Regroup(a: string, c: string, b: string)
    requires c != []
    ensures a + c + b == a + (c + b) && (c + b)[0] == c[0]
    ensures (a + c)[|a + c| - 1] == c[|c| - 1]
  {
  }

  /** A closing span after bracket-free text decides the cleaned extraction. */
  lemma CoreAfterPlainText(t: string, p: nat, core: string, parse: Parser)
    requires p + |core| <= |t| && t[p..p + |core|] == core
    requires forall k :: 0 <= k < p ==> !IsOpener(t[k])
    requires |core| > 0 && IsOpener(core[0]) && Scan(core, 0) == Closed(|core|)
    requires parse(t).None?
    ensures ExtractCleaned(t, parse) == ParseOrRepair(core, parse)
  {
    assert t[p] == core[0];
    assert FirstOpener(t) == Some(p);
    ScanShift(t, p, core, 0);
  }

  /** After stripping, the core stands after what is left of the prose, which
      holds no opener. */
  lemma PlainBeforeCore(prose: string, core: string, trail: string) returns (t: string, p: nat)
    requires forall k :: 0 <= k < |prose| ==> !IsOpener(prose[k])
    requires |core| > 0 && IsOpener(core[0]) && Scan(core, 0) == Closed(|core|)
    ensures Strip(prose + core + trail) == t
    ensures p + |core| <= |t| && t[p..p + |core|] == core
    ensures forall k :: 0 <= k < p ==> !IsOpener(t[k])
  {
    CoreEnds(core);
    var a, b := StripAroundCore(prose, core, trail);
    t := prose[a..] + core + trail[..b];
    p := |prose| - a;
    SliceMid(prose[a..], core, trail[..b]);
    forall k | 0 <= k < p ensures !IsOpener(t[k]) {
      assert prose[a..][k] == prose[a + k];
    }
  }

  lemma CoreEnds(core: string)
    requires |core| > 0 && IsOpener(core[0]) && Scan(core, 0) == Closed(|core|)
    ensures !IsSpace(core[0]) && !IsSpace(core[|core| - 1])
  {
    ScanClosedSpan(core, 0);
  }

  lemma SliceMid(x: string, c: string, y: string)
    ensures (x + c + y)[|x|..|x| + |c|] == c
    ensures forall k :: 0 <= k < |x| ==> (x + c + y)[k] == x[k]
  {
  }

  /** A JSON value in a `json` code fence, with prose before it and commentary
      after it, is recovered as if the fenced text stood alone: when the prose has
      no bracket, no backtick and no direct parse succeeds, the result is the parse
      (or repaired parse) of the fenced text. */
  lemma FencedCoreRecovered(prose: string, core: string, trail: string, parse: Parser)
    requires '`' !in prose && '`' !in core && '`' !in trail
    requires forall k :: 0 <= k < |prose| ==> !IsOpener(prose[k])
    requires |core| > 0 && IsOpener(core[0]) && Scan(core, 0) == Closed(|core|)
    requires !JsonWordAt(trail, 0)
    requires parse(Clean(prose + ("```json" + (core + ("```" + trail))))).None?
    ensures Extract(prose + ("```json" + (core + ("```" + trail))), parse) == ParseOrRepair(core, parse)
  {
    var text := prose + ("```json" + (core + ("```" + trail)));
    FencesAroundCore(prose, core, trail);
    var t, p := PlainBeforeCore(prose, core, trail);
    CoreAfterPlainText(t, p, core, parse);
    assert |text| >= 7;
  }

    lemma PrefixStep(t: string, start: nat, i: nat)
    requires start <= i < |t|
    ensures LexAfter(t[start..i + 1]) == LexStep(LexAfter(t[start..i]), t[i])
    ensures StackAfter(t[start..i + 1]) == match StackAfter(t[start..i])
                                           case None => None
                                           case Some(st) => StackStep(st, LexAfter(t[start..i]), t[i])
  {
    assert t[start..i + 1] == t[start..i] + [t[i]];
    AppendChar(t[start..i], t[i]);
  }

  /** The first loop of `extract_json_from_text`: the index of the first `[` or `{`. */
  method FindOpener(t: string) returns (startIdx: Option<nat>)
    ensures startIdx == FirstOpener(t)
  {
    startIdx := None;
    var j := 0;
    while j < |t|
      invariant 0 <= j <= |t|
      invariant forall k :: 0 <= k < j ==> !IsOpener(t[k])
    {
      if IsOpener(t[j]) {
        return Some(j);
      }
      j := j + 1;
    }
  }

  /** The bracket walk of `extract_json_from_text` from the first opener on:
      a closer stack and the string/escape flags, one character at a time. */
  method WalkBrackets(t: string, start: nat) returns (outcome: ScanOutcome)
    requires start < |t| && IsOpener(t[start])
    ensures outcome == Scan(t, start)
  {
    var i := start;
    var stack: seq<char> := [];
    var inStr: Option<char> := None;
    var esc := false;
    while i < |t|
      invariant start <= i <= |t|
      invariant LexAfter(t[start..i]) == Lex(inStr, esc)
      invariant StackAfter(t[start..i]) == Some(stack)
      invariant i > start ==> stack != []
      invariant ScanFrom(t, start, i) == Scan(t, start)
    {
      var ch := t[i];
      PrefixStep(t, start, i);
      if inStr.Some? {
        if esc {
          esc := false;
        } else if ch == '\\' {
          esc := true;
        } else if ch == inStr.value {
          inStr := None;
        }
      } else {
        if ch == '"' || ch == '\'' {
          inStr := Some(ch);
        } else if ch == '[' {
          stack := stack + [']'];
        } else if ch == '{' {
          stack := stack + ['}'];
        } else if ch == ']' || ch == '}' {
          if stack == [] {
            break;
          }
          var expected := stack[|stack| - 1];
          stack := stack[..|stack| - 1];
          if ch != expected {
            break;
          }
          if stack == [] {
            return Closed(i + 1);
          }
        }
      }
      i := i + 1;
    }
    return if i < |t| then Broken else RanOff;
  }

  lemma FallbackCases(t: string, parse: Parser)
    ensures var s, e := FindFirst(t, '['), FindLast(t, ']');
            if s.Some? && e.Some? && e.value > s.value
            then e.value + 1 <= |t| && Fallback(t, parse) == ParseOrRepair(t[s.value..e.value + 1], parse)
            else Fallback(t, parse) == None
  {
  }

  /** `extract_json_from_text`. The candidate span is the walked span when the
      walk closes, else the fallback span from the first `[` to the last `]`; it
      is parsed as it is, else after the trailing-comma repair. */
  method ExtractJsonFromText(text: string, parse: Parser) returns (r: Option<Json>)
    ensures r == Extract(text, parse)
  {
    if text == [] {
      return None;
    }
    var t := Clean(text);
    var direct := parse(t);
    if direct.Some? {
      return direct;
    }
    var startIdx := FindOpener(t);
    if startIdx.None? {
      return None;
    }
    var start := startIdx.value;
    var outcome := WalkBrackets(t, start);
    assert Extract(text, parse) == ExtractCleaned(t, parse);
    var candidate: string;
    if outcome.Closed? {
      candidate := t[start..outcome.end];
      assert ExtractCleaned(t, parse) == ParseOrRepair(candidate, parse);
    } else {
      assert ExtractCleaned(t, parse) == Fallback(t, parse);
      var s := FindFirst(t, '[');
      var e := FindLast(t, ']');
      FallbackCases(t, parse);
      if !(s.Some? && e.Some? && e.value > s.value) {
        return None;
      }
      candidate := t[s.value..e.value + 1];
    }
    r := parse(candidate);
    if r.None? {
      r := parse(Repair(candidate));
    }
  }
}
