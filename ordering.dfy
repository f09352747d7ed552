/** The two orders the source sorts entries by. The rendering groups entries
    under the text key `week-dayOrdinal-timeOrdinal` and sorts those keys as
    strings; the canonical form sorts with a comparator on week, day ordinal,
    time ordinal and product label. Both are modelled by integer keys, and
    the lemmas here show that the integer keys order entries exactly as the
    source's text key and comparator do. */
module Ordering {
  import opened Codes
  import opened Schedule

  function Digit(n: nat): char
    requires n < 10
  {
    ('0' as int + n) as char
  }

  /** An ordinal as a template literal prints it: its digit, or "undefined"
      when the table has no entry. */
  function OrdinalText(o: Option<nat>): string
    requires o.Some? ==> o.value < 10
  {
    match o
    case Some(n) => [Digit(n)]
    case None => "undefined"
  }

  /** The source's grouping key, as text. */
  function GroupKeyText(e: Entry): (r: string)
    ensures |r| >= 5 && r[..2] == [e.week, '-']
    ensures |r| == 5 <==> DayOrder(e.day).Some? && TimeOrder(e.time).Some?
  {
    [e.week] + "-" + OrdinalText(DayOrder(e.day)) + "-" + OrdinalText(TimeOrder(e.time))
  }

  /** The grouping key as an integer: week code, then day rank, then time rank. */
  function GroupKey(e: Entry): int
  {
    (e.week as int) * 100 + DayRank(e.day) * 10 + TimeRank(e.time)
  }

  /** The canonical sort key: the grouping key, then the product label's rank. */
  function EntryKey(e: Entry): int
  {
    GroupKey(e) * 10 + ProductRank(e.product)
  }

  lemma LexLessCommonPrefix(p: string, x: string, y: string)
    ensures LexLess(p + x, p + y) <==> LexLess(x, y)
  {
    if |p| > 0 {
      assert (p + x)[1..] == p[1..] + x && (p + y)[1..] == p[1..] + y;
      LexLessCommonPrefix(p[1..], x, y);
    } else {
      assert p + x == x && p + y == y;
    }
  }

  /** Comparing a printed ordinal followed by more text compares the ranks
      first: a digit sorts before "undefined", digits by value. */
  lemma OrdinalTextOrder(o1: Option<nat>, o2: Option<nat>, x: string, y: string)
    requires o1.Some? ==> o1.value < 5
    requires o2.Some? ==> o2.value < 5
    ensures LexLess(OrdinalText(o1) + x, OrdinalText(o2) + y) <==>
      Rank(o1) < Rank(o2) || (Rank(o1) == Rank(o2) && LexLess(x, y))
    ensures OrdinalText(o1) + x == OrdinalText(o2) + y <==> Rank(o1) == Rank(o2) && x == y
  {
    var a, b := OrdinalText(o1) + x, OrdinalText(o2) + y;
    if o1 == o2 {
      LexLessCommonPrefix(OrdinalText(o1), x, y);
      if a == b {
        assert x == a[|OrdinalText(o1)|..] == b[|OrdinalText(o1)|..] == y;
      }
    } else {
      assert a[0] == OrdinalText(o1)[0] && b[0] == OrdinalText(o2)[0];
      assert a[0] != b[0];
    }
  }

  /** The part of the text key after the week code and its dash. */
  function RankText(e: Entry): string
  {
    OrdinalText(DayOrder(e.day)) + ("-" + OrdinalText(TimeOrder(e.time)))
  }

  function RankPair(e: Entry): int
  {
    DayRank(e.day) * 10 + TimeRank(e.time)
  }

  lemma RankTextOrder(a: Entry, b: Entry)
    ensures LexLess(RankText(a), RankText(b)) <==> RankPair(a) < RankPair(b)
    ensures RankText(a) == RankText(b) <==> RankPair(a) == RankPair(b)
  {
    var ta, tb := OrdinalText(TimeOrder(a.time)), OrdinalText(TimeOrder(b.time));
    OrdinalTextOrder(DayOrder(a.day), DayOrder(b.day), "-" + ta, "-" + tb);
    LexLessCommonPrefix("-", ta, tb);
    assert ta == ta + "" && tb == tb + "";
    OrdinalTextOrder(TimeOrder(a.time), TimeOrder(b.time), "", "");
    assert "-" + ta == "-" + tb ==> ta == tb by {
      if "-" + ta == "-" + tb {
        assert ta == ("-" + ta)[1..];
      }
    }
  }

  /** Sorting the text keys as strings (code-point order) is sorting the
      integer keys, and two entries share a text key exactly when they share
      an integer key: every ordinal is a single digit or "undefined". */
  lemma GroupKeyTextOrder(a: Entry, b: Entry)
    ensures LexLess(GroupKeyText(a), GroupKeyText(b)) <==> GroupKey(a) < GroupKey(b)
    ensures GroupKeyText(a) == GroupKeyText(b) <==> GroupKey(a) == GroupKey(b)
  {
    var ka, kb := GroupKeyText(a), GroupKeyText(b);
    GroupKeyParts(a);
    GroupKeyParts(b);
    if a.week == b.week {
      LexLessCommonPrefix([a.week] + "-", RankText(a), RankText(b));
      RankTextOrder(a, b);
      if ka == kb {
        assert RankText(a) == ka[2..] == kb[2..] == RankText(b);
      }
    } else {
      assert ka[0] == a.week && kb[0] == b.week;
    }
  }

  /** Equal grouping keys mean equal week codes, day ranks and time ranks. */
  lemma SameGroupKey(a: Entry, b: Entry)
    requires GroupKey(a) == GroupKey(b)
    ensures a.week == b.week && DayRank(a.day) == DayRank(b.day) && TimeRank(a.time) == TimeRank(b.time)
  {
    GroupKeyParts(a);
    GroupKeyParts(b);
    assert RankPair(a) == RankPair(b);
  }

  /** Both keys split into the week code and the ranks of day and time. */
  lemma GroupKeyParts(e: Entry)
    ensures GroupKeyText(e) == [e.week] + "-" + RankText(e)
    ensures GroupKey(e) == (e.week as int) * 100 + RankPair(e) && 0 <= RankPair(e) < 100
  {
  }

  /** Every code of the entry is in its table. */
  predicate Recognised(e: Entry)
  {
    WeekLabel(e.week).Some? && DayOrder(e.day).Some? && TimeOrder(e.time).Some? && ProductLabel(e.product).Some?
  }

  /** A number written with digits `d`, `t`, `p` below a leading part `w`
      compares as the tuple (w, d, t, p) does. */
  lemma {:induction false} DigitsOrder(w1: int, d1: int, t1: int, p1: int, w2: int, d2: int, t2: int, p2: int)
    requires 0 <= d1 < 10 && 0 <= t1 < 10 && 0 <= p1 < 10
    requires 0 <= d2 < 10 && 0 <= t2 < 10 && 0 <= p2 < 10
    ensures ((w1 * 100 + d1 * 10 + t1) * 10 + p1) < ((w2 * 100 + d2 * 10 + t2) * 10 + p2) <==>
      w1 < w2 || (w1 == w2 && (d1 < d2 || (d1 == d2 && (t1 < t2 || (t1 == t2 && p1 < p2)))))
    ensures ((w1 * 100 + d1 * 10 + t1) * 10 + p1) == ((w2 * 100 + d2 * 10 + t2) * 10 + p2) <==>
      w1 == w2 && d1 == d2 && t1 == t2 && p1 == p2
  {
    assert (w1 * 100 + d1 * 10 + t1) * 10 + p1 == w1 * 1000 + d1 * 100 + t1 * 10 + p1;
    assert (w2 * 100 + d2 * 10 + t2) * 10 + p2 == w2 * 1000 + d2 * 100 + t2 * 10 + p2;
  }

  /** On entries made of recognised codes the canonical key is injective. */
  lemma RecognisedKeyInjective(a: Entry, b: Entry)
    requires Recognised(a) && Recognised(b) && EntryKey(a) == EntryKey(b)
    ensures a == b
  {
    EntryKeyOrder(a, b);
    DayTableConsistent(a.day, b.day);
    TimeTableConsistent(a.time, b.time);
    ProductTableConsistent(a.product, b.product);
  }

  /** String comparison in code-point order, as -1, 0 or 1. */
  function CompareText(x: string, y: string): int
  {
    if LexLess(x, y) then -1 else if x == y then 0 else 1
  }

  /** The canonical comparator. A difference of two ordinals of which one
      is missing is `NaN` in the source, modelled as `None`. */
  function Compare(a: Entry, b: Entry): (r: Option<int>)
    ensures a == b ==> r == Some(0)
    ensures a.week != b.week ==> r.Some? && r.value != 0 && (r.value < 0 <==> a.week < b.week)
  {
    if a.week != b.week then
      WeekTextOrder(a.week, b.week);
      Some(CompareText([a.week], [b.week]))
    else if a.day != b.day then
      match (DayOrder(a.day), DayOrder(b.day))
      case (Some(x), Some(y)) => Some(x - y)
      case _ => None
    else if a.time != b.time then
      match (TimeOrder(a.time), TimeOrder(b.time))
      case (Some(x), Some(y)) => Some(x - y)
      case _ => None
    else Some(CompareText(SortLabel(a.product), SortLabel(b.product)))
  }

  /** On recognised days and times the comparator is defined, and its sign
      is the order of the canonical key; it is `NaN` exactly when two
      different day (or, on the same day, time) codes are compared and one
      of them is not in its table. */
  lemma CompareMatchesKey(a: Entry, b: Entry)
    ensures Compare(a, b).None? <==>
      a.week == b.week &&
      ((a.day != b.day && (DayOrder(a.day).None? || DayOrder(b.day).None?)) ||
       (a.day == b.day && a.time != b.time && (TimeOrder(a.time).None? || TimeOrder(b.time).None?)))
    ensures DayOrder(a.day).Some? && DayOrder(b.day).Some? && TimeOrder(a.time).Some? && TimeOrder(b.time).Some? ==>
      Compare(a, b).Some? &&
      (Compare(a, b).value < 0 <==> EntryKey(a) < EntryKey(b)) &&
      (Compare(a, b).value == 0 <==> EntryKey(a) == EntryKey(b))
  {
    CompareUndefined(a, b);
    if DayOrder(a.day).Some? && DayOrder(b.day).Some? && TimeOrder(a.time).Some? && TimeOrder(b.time).Some? {
      CompareSign(a, b);
    }
  }

  lemma CompareUndefined(a: Entry, b: Entry)
    ensures Compare(a, b).None? <==>
      a.week == b.week &&
      ((a.day != b.day && (DayOrder(a.day).None? || DayOrder(b.day).None?)) ||
       (a.day == b.day && a.time != b.time && (TimeOrder(a.time).None? || TimeOrder(b.time).None?)))
  {
  }

  lemma WeekTextOrder(x: char, y: char)
    ensures LexLess([x], [y]) <==> x < y
    ensures [x] == [y] <==> x == y
  {
    assert [x][1..] == [] && [y][1..] == [];
    assert [x] == [y] ==> [x][0] == [y][0];
  }

  /** The canonical key compares week code, day rank, time rank and product
      rank in turn. */
  lemma EntryKeyOrder(a: Entry, b: Entry)
    ensures EntryKey(a) < EntryKey(b) <==>
      a.week < b.week || (a.week == b.week &&
      (DayRank(a.day) < DayRank(b.day) || (DayRank(a.day) == DayRank(b.day) &&
      (TimeRank(a.time) < TimeRank(b.time) || (TimeRank(a.time) == TimeRank(b.time) &&
       ProductRank(a.product) < ProductRank(b.product))))))
    ensures EntryKey(a) == EntryKey(b) <==>
      a.week == b.week && DayRank(a.day) == DayRank(b.day) &&
      TimeRank(a.time) == TimeRank(b.time) && ProductRank(a.product) == ProductRank(b.product)
  {
    DigitsOrder(a.week as int, DayRank(a.day), TimeRank(a.time), ProductRank(a.product),
                b.week as int, DayRank(b.day), TimeRank(b.time), ProductRank(b.product));
  }

  lemma CompareSign(a: Entry, b: Entry)
    requires DayOrder(a.day).Some? && DayOrder(b.day).Some? && TimeOrder(a.time).Some? && TimeOrder(b.time).Some?
    ensures Compare(a, b).Some?
    ensures Compare(a, b).value < 0 <==> EntryKey(a) < EntryKey(b)
    ensures Compare(a, b).value == 0 <==> EntryKey(a) == EntryKey(b)
  {
    CompareUndefined(a, b);
    EntryKeyOrder(a, b);
    if a.week != b.week {
      WeekTextOrder(a.week, b.week);
    } else if a.day != b.day {
      DayTableConsistent(a.day, b.day);
    } else if a.time != b.time {
      TimeTableConsistent(a.time, b.time);
    } else {
      LabelRankIsAlphabetical(SortLabel(a.product), SortLabel(b.product));
    }
  }

  /** Swapping the arguments flips the comparator's sign, as a consistent
      comparator for `Array.prototype.sort` must; `NaN` stays `NaN`. */
  lemma CompareAntisymmetric(a: Entry, b: Entry)
    ensures Compare(a, b).Some? <==> Compare(b, a).Some?
    ensures Compare(a, b).Some? ==>
      (Compare(a, b).value < 0 <==> Compare(b, a).value > 0) &&
      (Compare(a, b).value == 0 <==> Compare(b, a).value == 0)
  {
    if a.week == b.week && a.day == b.day && a.time == b.time {
      LexLessTotal(SortLabel(a.product), SortLabel(b.product));
    }
  }
}
