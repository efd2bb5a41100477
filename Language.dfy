/** The Bangla/English split of the output feeds. */
module Language {
  import opened Seqs

  /** A code point of the Bengali block, U+0980 to U+09FF. */
  predicate IsBanglaChar(c: char)
  {
    0x0980 <= c as int <= 0x09FF
  }

  /** `is_bangla`: some character of the title is Bengali. A missing title is
      the empty string here. */
  function IsBangla(s: string): (b: bool)
    ensures b <==> exists i :: 0 <= i < |s| && IsBanglaChar(s[i])
  {
    if s == [] then false
    else IsBanglaChar(s[0]) || (assert forall i :: 0 < i < |s| ==> s[i] == s[1..][i - 1]; IsBangla(s[1..]))
  }

  /** The two comprehensions that split a list by the language of each title:
      the Bangla feed, then the English ("overflow") feed. */
  function SplitByLanguage<T(!new)>(items: seq<T>, title: T -> string): (feeds: (seq<T>, seq<T>))
  {
    (Filter(items, x => IsBangla(title(x))), Filter(items, x => !IsBangla(title(x))))
  }

  /** The two feeds partition the list: every item lands in exactly one of
      them, by the language of its title, and each feed keeps the list's order. */
  lemma SplitIsPartition<T(!new)>(items: seq<T>, title: T -> string)
    ensures var (bangla, english) := SplitByLanguage(items, title);
            && multiset(bangla) + multiset(english) == multiset(items)
            && (forall x :: x in bangla <==> x in items && IsBangla(title(x)))
            && (forall x :: x in english <==> x in items && !IsBangla(title(x)))
  {
    var p := x => IsBangla(title(x));
    FilterSplit(items, p);
    assert Filter(items, y => !p(y)) == Filter(items, x => !IsBangla(title(x))) by {
      FilterSameCondition(items, y => !p(y), x => !IsBangla(title(x)));
    }
  }

  /** The Bangla feed is a subsequence of the list: `idx` gives each of its
      items a position in the list, in increasing order. */
  lemma BanglaKeepsOrder<T(!new)>(items: seq<T>, title: T -> string) returns (idx: seq<nat>)
    ensures Embedding(SplitByLanguage(items, title).0, items, idx)
  {
    idx := FilterPositions(items, x => IsBangla(title(x)));
  }

  /** The English feed is a subsequence of the list in the same sense. */
  lemma EnglishKeepsOrder<T(!new)>(items: seq<T>, title: T -> string) returns (idx: seq<nat>)
    ensures Embedding(SplitByLanguage(items, title).1, items, idx)
  {
    idx := FilterPositions(items, x => !IsBangla(title(x)));
  }

  /** A title with a Bengali letter goes to the Bangla feed, a Latin one does not. */
  lemma BengaliLetterDecides()
    ensures IsBangla("A \U{0995}")
    ensures !IsBangla("AB")
  {
    assert IsBanglaChar("A \U{0995}"[2]);
  }
}
