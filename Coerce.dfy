/**
 * What Python's `int()` and iteration make of a decoded JSON value, as far as
 * cluster validation applies them.
 */
module Coerce {
  import opened Wrappers
  import opened Json
  import opened Text

  predicate IsDigit(c: char)
  {
    '0' <= c <= '9'
  }

  predicate AllDigits(s: string)
  {
    forall i :: 0 <= i < |s| ==> IsDigit(s[i])
  }

  /** The value of a string of ASCII decimal digits. */
  function DigitsValue(ds: string): nat
    requires AllDigits(ds)
  {
    if ds == [] then 0 else 10 * DigitsValue(ds[..|ds| - 1]) + ((ds[|ds| - 1] as int) - ('0' as int))
  }

  /** Python's decimal literal after the sign: digits, where single underscores
      may separate two digits. */
  predicate DigitGroups(s: string)
  {
    && s != [] && IsDigit(s[0]) && IsDigit(s[|s| - 1])
    && (forall i :: 0 <= i < |s| ==> IsDigit(s[i]) || s[i] == '_')
    && (forall i :: 0 <= i < |s| - 1 && s[i] == '_' ==> s[i + 1] != '_')
  }

  /** The digits of a literal, its underscores dropped. */
  function DropUnderscores(s: string): (r: string)
    requires forall i :: 0 <= i < |s| ==> IsDigit(s[i]) || s[i] == '_'
    ensures AllDigits(r) && |r| <= |s|
    ensures AllDigits(s) ==> r == s
  {
    if s == [] then []
    else
      var front := DropUnderscores(s[..|s| - 1]);
      if s[|s| - 1] == '_' then front else front + [s[|s| - 1]]
  }

  /** `int(s)` for a string: surrounding whitespace is ignored, a sign may lead,
      and the rest is a decimal literal; anything else raises (None). */
  function ParseIntText(s: string): Option<int>
  {
    ParseLiteral(Strip(s))
  }

  /** `int(t)` for a string with no surrounding whitespace. */
  function ParseLiteral(t: string): Option<int>
  {
    if t == [] then None
    else
      var body := if t[0] == '-' || t[0] == '+' then t[1..] else t;
      if !DigitGroups(body) then None
      else
        var v: int := DigitsValue(DropUnderscores(body));
        Some(if t[0] == '-' then -v else v)
  }

  /** `str(n)` for a natural number. */
  function NatDigits(n: nat): (s: string)
    ensures s != [] && AllDigits(s)
  {
    if n < 10 then [('0' as int + n) as char] else NatDigits(n / 10) + [('0' as int + n % 10) as char]
  }

  /** `str(n)`. */
  function Decimal(n: int): string
  {
    if n < 0 then "-" + NatDigits(-n) else NatDigits(n)
  }

  lemma {:induction false} NatDigitsValue(n: nat)
    ensures DigitsValue(NatDigits(n)) == n
  {
    if n >= 10 {
      var front := NatDigits(n / 10);
      var s := NatDigits(n);
      assert s[..|s| - 1] == front;
      NatDigitsValue(n / 10);
    }
  }

  lemma DigitIsNotSpace(c: char)
    requires IsDigit(c) || c == '-'
    ensures !IsSpace(c)
  {
  }

  lemma TrimNoSpaceEnds(s: string)
    requires s != [] && !IsSpace(s[0]) && !IsSpace(s[|s| - 1])
    ensures Strip(s) == s
  {
    assert TrimStart(s) == s;
  }

  lemma DigitsAreGroups(ds: string)
    requires ds != [] && AllDigits(ds)
    ensures DigitGroups(ds) && DropUnderscores(ds) == ds
  {
  }

  /** A minus sign and a literal read as the negated literal. */
  lemma LiteralMinus(t: string, body: string)
    requires t != [] && t[0] == '-' && body == t[1..] && DigitGroups(body)
    ensures ParseLiteral(t) == Some(-(DigitsValue(DropUnderscores(body)) as int))
  {
  }

  /** A literal without a sign reads as its value. */
  lemma LiteralDigits(t: string)
    requires t != [] && t[0] != '-' && t[0] != '+' && DigitGroups(t)
    ensures ParseLiteral(t) == Some(DigitsValue(DropUnderscores(t)) as int)
  {
  }

  /** A stripped minus sign followed by digits reads as the negated value. */
  lemma ParseMinusDigits(s: string, ds: string)
    requires ds != [] && AllDigits(ds) && s != [] && s[0] == '-' && s[1..] == ds && Strip(s) == s
    ensures ParseIntText(s) == Some(-(DigitsValue(ds) as int))
  {
    DigitsAreGroups(ds);
    LiteralMinus(s, ds);
  }

  lemma MinusThen(ds: string)
    requires ds != []
    ensures var s := ['-'] + ds; s[0] == '-' && s[|s| - 1] == ds[|ds| - 1] && s[1..] == ds
  {
  }

  /** A minus sign and a run of digits read back as the negated value. */
  lemma ParseNegative(ds: string)
    requires ds != [] && AllDigits(ds)
    ensures ParseIntText(['-'] + ds) == Some(-(DigitsValue(ds) as int))
  {
    var s := ['-'] + ds;
    MinusThen(ds);
    DigitIsNotSpace('-');
    DigitIsNotSpace(ds[|ds| - 1]);
    TrimNoSpaceEnds(s);
    ParseMinusDigits(s, ds);
  }

  /** A run of digits reads back as its value. */
  lemma ParseNonNegative(ds: string)
    requires ds != [] && AllDigits(ds)
    ensures ParseIntText(ds) == Some(DigitsValue(ds))
  {
    DigitIsNotSpace(ds[0]);
    DigitIsNotSpace(ds[|ds| - 1]);
    TrimNoSpaceEnds(ds);
    DigitsAreGroups(ds);
    LiteralDigits(ds);
  }

  /** Texts that strip to the same literal read the same. */
  lemma SameStrip(a: string, b: string)
    requires Strip(a) == Strip(b)
    ensures ParseIntText(a) == ParseIntText(b)
  {
  }

  /** `int(str(n)) == n`: the coercion reads back every decimal rendering. */
  lemma ParseDecimal(n: int)
    ensures ParseIntText(Decimal(n)) == Some(n)
  {
    var m: nat := if n < 0 then -n else n;
    var ds := NatDigits(m);
    NatDigitsValue(m);
    assert DigitsValue(ds) == m;
    if n < 0 {
      ParseNegative(ds);
      assert Decimal(n) == ['-'] + ds;
      assert -(DigitsValue(ds) as int) == n;
    } else {
      ParseNonNegative(ds);
    }
  }

  lemma DecimalEnds(n: int)
    ensures Decimal(n) != [] && !IsSpace(Decimal(n)[0]) && !IsSpace(Decimal(n)[|Decimal(n)| - 1])
  {
    var m: nat := if n < 0 then -n else n;
    var ds := NatDigits(m);
    DigitIsNotSpace(ds[0]);
    DigitIsNotSpace(ds[|ds| - 1]);
    DigitIsNotSpace('-');
    if n < 0 {
      assert Decimal(n) == ['-'] + ds;
    }
  }

  /** Whitespace of any length around a decimal rendering makes no difference. */
  lemma ParsePadded(pre: string, n: int, post: string)
    requires forall k :: 0 <= k < |pre| ==> IsSpace(pre[k])
    requires forall k :: 0 <= k < |post| ==> IsSpace(post[k])
    ensures ParseIntText(pre + Decimal(n) + post) == Some(n)
  {
    DecimalEnds(n);
    StripPadding(pre, Decimal(n), post);
    TrimNoSpaceEnds(Decimal(n));
    SameStrip(pre + Decimal(n) + post, Decimal(n));
    ParseDecimal(n);
  }

  /** A string that holds no ASCII digit never coerces. */
  lemma NoDigitNoInt(s: string)
    requires forall i :: 0 <= i < |s| ==> !IsDigit(s[i])
    ensures ParseIntText(s).None?
  {
    var t := Strip(s);
    var a := StripIsInfix(s);
    assert forall i :: 0 <= i < |t| ==> !IsDigit(t[i]) by {
      forall i | 0 <= i < |t|
        ensures !IsDigit(t[i])
      {
        assert t[i] == s[a + i];
      }
    }
    LiteralNoDigit(t);
  }

  /** A literal needs a digit. */
  lemma LiteralNoDigit(t: string)
    requires forall i :: 0 <= i < |t| ==> !IsDigit(t[i])
    ensures ParseLiteral(t).None?
  {
    if t != [] && (t[0] == '-' || t[0] == '+') && |t| > 1 {
      assert t[1..][0] == t[1];
    }
  }

  /** `int(x)` for a decoded value: numbers and booleans convert, strings are
      read as literals, everything else raises (None). */
  function ToInt(j: Json): (r: Option<int>)
    ensures j.JInt? ==> r == Some(j.i)
    ensures j.JNull? || j.JArray? || j.JObject? ==> r.None?
  {
    match j
    case JInt(i) => Some(i)
    case JBool(b) => Some(if b then 1 else 0)
    case JFloat(t) => t
    case JString(s) => ParseIntText(s)
    case _ => None
  }

  /** Each character of a string as a one-character string value. */
  function Chars(s: string): (r: seq<Json>)
  {
    if s == [] then [] else Chars(s[..|s| - 1]) + [JString([s[|s| - 1]])]
  }

  function AsStrings(ks: seq<string>): (r: seq<Json>)
  {
    if ks == [] then [] else AsStrings(ks[..|ks| - 1]) + [JString(ks[|ks| - 1])]
  }

  /** `for x in v`: a list yields its elements, a string its characters, a dict
      its keys; anything else raises (None). */
  function Iterate(j: Json): (r: Option<seq<Json>>)
    ensures j.JArray? ==> r == Some(j.elems)
    ensures j.JNull? || j.JBool? || j.JInt? || j.JFloat? ==> r.None?
  {
    match j
    case JArray(es) => Some(es)
    case JString(s) => Some(Chars(s))
    case JObject(fs) => Some(AsStrings(Keys(fs)))
    case _ => None
  }

  /** `[int(x) for x in xs]`, which raises as soon as one element does. */
  function IntList(xs: seq<Json>): (r: Option<seq<int>>)
  {
    if xs == [] then Some([])
    else
      var front := IntList(xs[..|xs| - 1]);
      var last := ToInt(xs[|xs| - 1]);
      if front.Some? && last.Some? then Some(front.value + [last.value]) else None
  }

  /** The characters of a string, one value each, in order. */
  lemma {:induction false} CharsAt(s: string, i: nat)
    requires i < |s|
    ensures |Chars(s)| == |s| && Chars(s)[i] == JString([s[i]])
    decreases |s|
  {
    CharsLength(s[..|s| - 1]);
    if i < |s| - 1 {
      CharsAt(s[..|s| - 1], i);
    }
  }

  lemma {:induction false} CharsLength(s: string)
    ensures |Chars(s)| == |s|
    decreases |s|
  {
    if s != [] {
      CharsLength(s[..|s| - 1]);
    }
  }

  /** The keys of a dict, one string value each, in order. */
  lemma {:induction false} AsStringsAt(ks: seq<string>, i: nat)
    requires i < |ks|
    ensures |AsStrings(ks)| == |ks| && AsStrings(ks)[i] == JString(ks[i])
    decreases |ks|
  {
    AsStringsLength(ks[..|ks| - 1]);
    if i < |ks| - 1 {
      AsStringsAt(ks[..|ks| - 1], i);
    }
  }

  lemma {:induction false} AsStringsLength(ks: seq<string>)
    ensures |AsStrings(ks)| == |ks|
    decreases |ks|
  {
    if ks != [] {
      AsStringsLength(ks[..|ks| - 1]);
    }
  }

  /** Iterating a string yields its characters; iterating a dict yields its
      keys, each key once. */
  lemma IterateFacts(j: Json)
    ensures j.JString? ==>
      (Iterate(j).Some? && |Iterate(j).value| == |j.s| &&
       forall i :: 0 <= i < |j.s| ==> Iterate(j).value[i] == JString([j.s[i]]))
    ensures j.JObject? ==>
      (Iterate(j).Some? && |Iterate(j).value| == |Keys(j.fields)| &&
       (forall i :: 0 <= i < |Keys(j.fields)| ==> Iterate(j).value[i] == JString(Keys(j.fields)[i])) &&
       (forall k :: k in Keys(j.fields) <==> HasKey(j.fields, k)))
  {
    if j.JString? {
      CharsLength(j.s);
      forall i | 0 <= i < |j.s|
        ensures Iterate(j).value[i] == JString([j.s[i]])
      {
        CharsAt(j.s, i);
      }
    }
    if j.JObject? {
      KeysFacts(j.fields);
      AsStringsLength(Keys(j.fields));
      forall i | 0 <= i < |Keys(j.fields)|
        ensures Iterate(j).value[i] == JString(Keys(j.fields)[i])
      {
        AsStringsAt(Keys(j.fields), i);
      }
    }
  }

  /** A converted list has one integer per element, each the element's own
      conversion. */
  lemma {:induction false} IntListAt(xs: seq<Json>, i: nat)
    requires IntList(xs).Some? && i < |xs|
    ensures |IntList(xs).value| == |xs| && ToInt(xs[i]) == Some(IntList(xs).value[i])
    decreases |xs|
  {
    IntListLength(xs[..|xs| - 1]);
    if i < |xs| - 1 {
      IntListAt(xs[..|xs| - 1], i);
      assert xs[..|xs| - 1][i] == xs[i];
    }
  }

  lemma {:induction false} IntListLength(xs: seq<Json>)
    ensures IntList(xs).Some? ==> |IntList(xs).value| == |xs|
    decreases |xs|
  {
    if xs != [] {
      IntListLength(xs[..|xs| - 1]);
    }
  }

  /** A list that does not convert holds an element that does not. */
  lemma {:induction false} IntListFails(xs: seq<Json>) returns (i: nat)
    requires IntList(xs).None?
    ensures i < |xs| && ToInt(xs[i]).None?
    decreases |xs|
  {
    if ToInt(xs[|xs| - 1]).None? {
      i := |xs| - 1;
    } else {
      i := IntListFails(xs[..|xs| - 1]);
      assert xs[..|xs| - 1][i] == xs[i];
    }
  }

  /** `[int(x) for x in xs]` succeeds exactly when every element converts, and
      then holds the conversions in order. */
  lemma IntListFacts(xs: seq<Json>)
    ensures IntList(xs).Some? <==> forall i :: 0 <= i < |xs| ==> ToInt(xs[i]).Some?
    ensures IntList(xs).Some? ==>
      (|IntList(xs).value| == |xs| &&
       forall i :: 0 <= i < |xs| ==> ToInt(xs[i]) == Some(IntList(xs).value[i]))
  {
    if IntList(xs).None? {
      var i := IntListFails(xs);
    } else {
      IntListLength(xs);
      forall i | 0 <= i < |xs|
        ensures ToInt(xs[i]) == Some(IntList(xs).value[i])
      {
        IntListAt(xs, i);
      }
    }
  }
}
