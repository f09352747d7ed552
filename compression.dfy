/** `compressPlanning`: entries are grouped by suffix (day + time + product);
    a suffix carried by exactly the weeks 1, 2, 3 and 4 becomes one
    "every week" entry with week code '0', any other suffix keeps one entry
    per distinct week code, in ascending order. */
module Compression {
  import opened Schedule
  import opened Sorting

  function CharKey(c: char): int
  {
    c as int
  }

  /** The weeks that together mean "every week". */
  const REQUIRED_WEEKS: set<char> := {'1', '2', '3', '4'}

  /** The week code of a collapsed group. */
  const EVERY_WEEK: char := '0'

  ghost function Elems<T>(xs: seq<T>): set<T>
  {
    set x | x in xs
  }

  /** The suffixes that occur in `es`. */
  ghost function Suffixes(es: seq<Entry>): set<string>
  {
    set e | e in es :: e.Suffix()
  }

  /** The week codes that occur in `es` together with suffix `sfx`. */
  ghost function WeekSet(es: seq<Entry>, sfx: string): set<char>
  {
    set e | e in es && e.Suffix() == sfx :: e.week
  }

  /** Every suffix is at most six characters long, as in parsed entries. */
  ghost predicate ShortSuffixes(es: seq<Entry>)
  {
    forall e :: e in es ==> |e.Suffix()| < BLOCK
  }

  lemma SuffixesSnoc(es: seq<Entry>, e: Entry)
    ensures Suffixes(es + [e]) == Suffixes(es) + {e.Suffix()}
    ensures WeekSet(es + [e], e.Suffix()) == WeekSet(es, e.Suffix()) + {e.week}
    ensures forall sfx :: sfx != e.Suffix() ==> WeekSet(es + [e], sfx) == WeekSet(es, sfx)
  {
    assert forall x :: x in es + [e] <==> x in es || x == e;
  }

  /** The keys of the source's `groupedBySuffix` map, in insertion order:
      each suffix once, in the order it is first met. */
  function SuffixOrder(es: seq<Entry>): seq<string>
  {
    if |es| == 0 then []
    else
      var o, x := SuffixOrder(es[..|es| - 1]), es[|es| - 1].Suffix();
      if x in o then o else o + [x]
  }

  /** The week set collected for `sfx`, in insertion order (a JavaScript
      `Set` keeps its first-insertion order). */
  function WeeksOf(es: seq<Entry>, sfx: string): seq<char>
  {
    if |es| == 0 then []
    else
      var ws, e := WeeksOf(es[..|es| - 1], sfx), es[|es| - 1];
      if e.Suffix() == sfx && e.week !in ws then ws + [e.week] else ws
  }

  /** The map's keys are the suffixes of the input, each once. */
  lemma {:induction false} SuffixOrderSpec(es: seq<Entry>)
    ensures Distinct(SuffixOrder(es))
    ensures forall x :: x in SuffixOrder(es) <==> x in Suffixes(es)
  {
    if |es| > 0 {
      var front, e := es[..|es| - 1], es[|es| - 1];
      assert es == front + [e];
      SuffixesSnoc(front, e);
      SuffixOrderSpec(front);
    }
  }

  /** A suffix's week list holds each week code met with it, once. */
  lemma {:induction false} WeeksOfSpec(es: seq<Entry>, sfx: string)
    ensures Distinct(WeeksOf(es, sfx))
    ensures forall w :: w in WeeksOf(es, sfx) <==> w in WeekSet(es, sfx)
  {
    if |es| > 0 {
      var front, e := es[..|es| - 1], es[|es| - 1];
      assert es == front + [e];
      SuffixesSnoc(front, e);
      WeeksOfSpec(front, sfx);
    }
  }

  /** The source's `hasAllWeeks` test: same size as the required set and
      containing each required week. */
  predicate HasAllWeeks(weeks: seq<char>)
  {
    |REQUIRED_WEEKS| == |weeks| && forall w :: w in REQUIRED_WEEKS ==> w in weeks
  }

  /** One entry per week code, all on suffix `sfx`. */
  function EmitWeeks(ws: seq<char>, sfx: string): seq<Entry>
  {
    seq(|ws|, k requires 0 <= k < |ws| => BlockEntry([ws[k]] + sfx))
  }

  /** What one suffix group contributes to the output. */
  function EmitGroup(sfx: string, weeks: seq<char>): seq<Entry>
  {
    if HasAllWeeks(weeks) then [BlockEntry([EVERY_WEEK] + sfx)]
    else EmitWeeks(SortBy(weeks, CharKey), sfx)
  }

  /** The groups of `order`, one after another. */
  function EmitAll(order: seq<string>, es: seq<Entry>): seq<Entry>
  {
    if |order| == 0 then []
    else
      var last := order[|order| - 1];
      EmitAll(order[..|order| - 1], es) + EmitGroup(last, WeeksOf(es, last))
  }

  function CompressEntries(es: seq<Entry>): seq<Entry>
  {
    EmitAll(SuffixOrder(es), es)
  }

  /** The compressed schedule as a string; empty input gives "". */
  function Compress(s: string): (r: string)
    ensures r == "" <==> s == ""
  {
    if |s| == 0 then ""
    else
      var es := Parse(s);
      ParseShape(s);
      CompressLength(es);
      SerializeEmpty(CompressEntries(es));
      Serialize(CompressEntries(es))
  }

  lemma SuffixOrderSnoc(es: seq<Entry>, e: Entry)
    ensures SuffixOrder(es + [e])
         == if e.Suffix() in SuffixOrder(es) then SuffixOrder(es) else SuffixOrder(es) + [e.Suffix()]
  {
    assert (es + [e])[..|es|] == es;
  }

  lemma WeeksOfSnoc(es: seq<Entry>, e: Entry, sfx: string)
    ensures WeeksOf(es + [e], sfx)
         == if e.Suffix() == sfx && e.week !in WeeksOf(es, sfx) then WeeksOf(es, sfx) + [e.week] else WeeksOf(es, sfx)
  {
    assert (es + [e])[..|es|] == es;
  }

  /** A suffix that has not been met has no weeks yet. */
  lemma WeeksOfUnseen(es: seq<Entry>, sfx: string)
    requires sfx !in SuffixOrder(es)
    ensures WeeksOf(es, sfx) == []
  {
    SuffixOrderSpec(es);
    WeeksOfSpec(es, sfx);
    assert WeekSet(es, sfx) == {};
  }

  lemma EmitAllStep(order: seq<string>, j: nat, es: seq<Entry>)
    requires j < |order|
    ensures EmitAll(order[..j + 1], es) == EmitAll(order[..j], es) + EmitGroup(order[j], WeeksOf(es, order[j]))
  {
    assert order[..j + 1][..j] == order[..j];
  }

  /** The suffixes of a parsed schedule are shorter than a block. */
  lemma ParsedSuffixesShort(s: string)
    ensures forall x :: x in SuffixOrder(Parse(s)) ==> |x| < BLOCK
  {
    ParseShape(s);
    SuffixOrderSpec(Parse(s));
    forall x | x in SuffixOrder(Parse(s)) ensures |x| < BLOCK {
      assert x in Suffixes(Parse(s));
    }
  }

  // ----------------------------------------------------------------------
  // The imperative form

  /** `compressPlanning`: fills a map from suffix to week set, then appends
      one block per emitted entry to the result string. */
  method CompressPlanning(s: string) returns (result: string)
    ensures result == Compress(s)
  {
    if |s| == 0 {
      return "";
    }
    var entries := ParseSchedule(s);
    var grouped, order := GroupBySuffix(entries);
    ParsedSuffixesShort(s);
    result := "";
    var j := 0;
    while j < |order|
      invariant 0 <= j <= |order|
      invariant result == Serialize(EmitAll(order[..j], entries))
    {
      var sfx := order[j];
      EmitAllStep(order, j, entries);
      SerializeAppend(EmitAll(order[..j], entries), EmitGroup(sfx, grouped[sfx]));
      result := AppendGroup(result, sfx, grouped[sfx]);
      j := j + 1;
    }
    assert order[..j] == order;
  }

  /** The first loop of `compressPlanning`: `groupedBySuffix` and the order
      in which its keys were inserted. */
  method GroupBySuffix(entries: seq<Entry>) returns (grouped: map<string, seq<char>>, order: seq<string>)
    ensures order == SuffixOrder(entries)
    ensures forall x :: x in grouped <==> x in order
    ensures forall x :: x in grouped ==> grouped[x] == WeeksOf(entries, x)
  {
    grouped, order := map[], [];
    var i := 0;
    while i < |entries|
      invariant 0 <= i <= |entries|
      invariant order == SuffixOrder(entries[..i])
      invariant forall x :: x in grouped <==> x in order
      invariant forall x :: x in grouped ==> grouped[x] == WeeksOf(entries[..i], x)
    {
      var e := entries[i];
      ghost var g0, seen := grouped, entries[..i];
      assert entries[..i + 1] == seen + [e];
      SuffixOrderSnoc(seen, e);
      var sfx := e.Suffix();
      if sfx !in grouped {
        grouped := grouped[sfx := []];
        order := order + [sfx];
      }
      if e.week !in grouped[sfx] {
        grouped := grouped[sfx := grouped[sfx] + [e.week]];
      }
      i := i + 1;
      forall x | x in grouped ensures grouped[x] == WeeksOf(seen + [e], x) {
        WeeksOfSnoc(seen, e, x);
        if x != sfx {
          assert x in g0 && grouped[x] == g0[x];
        } else if sfx !in g0 {
          WeeksOfUnseen(seen, sfx);
        }
      }
    }
    assert entries[..i] == entries;
  }

  /** The body of the second loop of `compressPlanning` for one suffix: one
      "every week" block, or one block per week code in ascending order. */
  method AppendGroup(result: string, sfx: string, weeks: seq<char>) returns (r: string)
    requires |sfx| < BLOCK
    ensures r == result + Serialize(EmitGroup(sfx, weeks))
  {
    if HasAllWeeks(weeks) {
      r := result + [EVERY_WEEK] + sfx;
      SerializeOne(BlockEntry([EVERY_WEEK] + sfx));
    } else {
      var sortedWeeks := SortedArray(weeks, CharKey);
      r := AppendWeeks(result, sortedWeeks, sfx);
    }
  }

  /** One block per week code of `ws`, in the array's order. */
  method AppendWeeks(result: string, ws: array<char>, sfx: string) returns (r: string)
    requires |sfx| < BLOCK
    ensures r == result + Serialize(EmitWeeks(ws[..], sfx))
  {
    r := result;
    var k := 0;
    while k < ws.Length
      invariant 0 <= k <= ws.Length
      invariant r == result + Serialize(EmitWeeks(ws[..k], sfx))
    {
      AppendWeeksStep(result, r, ws[..], k, sfx);
      r := r + [ws[k]] + sfx;
      k := k + 1;
    }
    assert ws[..k] == ws[..];
  }

  lemma AppendWeeksStep(result: string, r: string, ws: seq<char>, k: nat, sfx: string)
    requires |sfx| < BLOCK && k < |ws|
    requires r == result + Serialize(EmitWeeks(ws[..k], sfx))
    ensures r + [ws[k]] + sfx == result + Serialize(EmitWeeks(ws[..k + 1], sfx))
  {
    assert ws[..k + 1] == ws[..k] + [ws[k]];
    EmitWeeksSnoc(ws[..k], ws[k], sfx);
    var done := Serialize(EmitWeeks(ws[..k], sfx));
    assert r + [ws[k]] + sfx == result + (done + [ws[k]] + sfx);
  }

  lemma EmitWeeksSnoc(ws: seq<char>, w: char, sfx: string)
    requires |sfx| < BLOCK
    ensures Serialize(EmitWeeks(ws + [w], sfx)) == Serialize(EmitWeeks(ws, sfx)) + [w] + sfx
  {
    var block := BlockEntry([w] + sfx);
    EmitWeeksAppend(ws, w, sfx);
    SerializeAppend(EmitWeeks(ws, sfx), [block]);
    SerializeOne(block);
    assert block.Code() == [w] + sfx;
  }

  lemma EmitWeeksAppend(ws: seq<char>, w: char, sfx: string)
    ensures EmitWeeks(ws + [w], sfx) == EmitWeeks(ws, sfx) + [BlockEntry([w] + sfx)]
  {
    var a, b := EmitWeeks(ws + [w], sfx), EmitWeeks(ws, sfx) + [BlockEntry([w] + sfx)];
    assert |a| == |b|;
    forall k | 0 <= k < |a| ensures a[k] == b[k] {
      if k < |ws| {
        assert (ws + [w])[k] == ws[k];
      }
    }
  }

  // ----------------------------------------------------------------------
  // What one group emits

  function WeekKey(e: Entry): int
  {
    e.week as int
  }

  lemma {:induction false} DistinctElems<T>(xs: seq<T>)
    requires Distinct(xs)
    ensures |Elems(xs)| == |xs|
  {
    if |xs| > 0 {
      var front, x := xs[..|xs| - 1], xs[|xs| - 1];
      assert xs == front + [x];
      assert Elems(xs) == Elems(front) + {x};
      assert x !in Elems(front);
      DistinctElems(front);
    }
  }

  lemma SubsetSameSize<T>(a: set<T>, b: set<T>)
    requires a <= b && |a| == |b|
    ensures a == b
  {
    assert b == a + (b - a) && a * (b - a) == {};
    assert |b - a| == 0;
  }

  /** For a duplicate-free week list, the source's size-and-membership test
      holds exactly when the weeks are the set {1, 2, 3, 4}: duplicates do
      not matter, and a set that also holds '0' or any other code fails. */
  lemma HasAllWeeksIff(ws: seq<char>)
    requires Distinct(ws)
    ensures HasAllWeeks(ws) <==> Elems(ws) == REQUIRED_WEEKS
  {
    assert |REQUIRED_WEEKS| == 4;
    DistinctElems(ws);
    if HasAllWeeks(ws) {
      SubsetSameSize(REQUIRED_WEEKS, Elems(ws));
    }
  }

  lemma EmitWeeksMembers(ws: seq<char>, sfx: string)
    requires |sfx| < BLOCK
    ensures forall e :: e in EmitWeeks(ws, sfx) <==> e == BlockEntry([e.week] + sfx) && e.week in ws
  {
    var out := EmitWeeks(ws, sfx);
    forall e ensures e in out <==> e == BlockEntry([e.week] + sfx) && e.week in ws {
      if e in out {
        var k :| 0 <= k < |out| && out[k] == e;
        assert e.Code() == [ws[k]] + sfx;
      }
      if e == BlockEntry([e.week] + sfx) && e.week in ws {
        var k :| 0 <= k < |ws| && ws[k] == e.week;
        assert out[k] == e;
      }
    }
  }

  /** Every entry of a group carries the group's suffix. */
  lemma EmitGroupSuffix(sfx: string, ws: seq<char>)
    requires |sfx| < BLOCK
    ensures forall e :: e in EmitGroup(sfx, ws) ==> e.Suffix() == sfx
  {
    if !HasAllWeeks(ws) {
      EmitWeeksMembers(SortBy(ws, CharKey), sfx);
    }
  }

  /** What one suffix group emits: the single "every week" entry when its
      weeks are exactly {1, 2, 3, 4}, otherwise one entry per week, in
      strictly ascending week order; never more entries than weeks, and at
      least one when there is a week. */
  lemma EmitGroupSpec(sfx: string, ws: seq<char>)
    requires |sfx| < BLOCK && Distinct(ws)
    ensures forall e :: e in EmitGroup(sfx, ws) <==>
      e == BlockEntry([e.week] + sfx) &&
      if Elems(ws) == REQUIRED_WEEKS then e.week == EVERY_WEEK else e.week in ws
    ensures StrictlySortedBy(EmitGroup(sfx, ws), WeekKey)
    ensures 0 < |ws| ==> 0 < |EmitGroup(sfx, ws)| <= |ws|
    ensures |ws| == 0 ==> EmitGroup(sfx, ws) == []
  {
    HasAllWeeksIff(ws);
    if HasAllWeeks(ws) {
      DistinctElems(ws);
      assert |ws| == 4;
    } else {
      SortedWeeksEmitted(ws, sfx);
    }
  }

  /** One entry per week, in strictly ascending week order. */
  lemma SortedWeeksEmitted(ws: seq<char>, sfx: string)
    requires |sfx| < BLOCK && Distinct(ws)
    ensures forall e :: e in EmitWeeks(SortBy(ws, CharKey), sfx) <==> e == BlockEntry([e.week] + sfx) && e.week in ws
    ensures StrictlySortedBy(EmitWeeks(SortBy(ws, CharKey), sfx), WeekKey)
    ensures |EmitWeeks(SortBy(ws, CharKey), sfx)| == |ws|
  {
    var sorted := SortBy(ws, CharKey);
    assert KeyInjective(ws, CharKey);
    SortDistinct(ws, CharKey);
    EmitWeeksMembers(sorted, sfx);
    var out := EmitWeeks(sorted, sfx);
    forall i, j | 0 <= i < j < |out| ensures WeekKey(out[i]) < WeekKey(out[j]) {
      assert out[i].Code() == [sorted[i]] + sfx && out[j].Code() == [sorted[j]] + sfx;
    }
  }

  // ----------------------------------------------------------------------
  // What the groups emit together

  ghost predicate ShortKeys(order: seq<string>)
  {
    forall x :: x in order ==> |x| < BLOCK
  }

  /** The suffixes met in a schedule whose suffixes are short are short. */
  lemma OrderShort(es: seq<Entry>)
    requires ShortSuffixes(es)
    ensures ShortKeys(SuffixOrder(es))
  {
    SuffixOrderSpec(es);
  }

  lemma {:induction false} EmitAllMembers(order: seq<string>, es: seq<Entry>)
    requires ShortKeys(order)
    ensures forall e :: e in EmitAll(order, es) <==>
      e.Suffix() in order && e in EmitGroup(e.Suffix(), WeeksOf(es, e.Suffix()))
  {
    if |order| > 0 {
      var front, last := order[..|order| - 1], order[|order| - 1];
      assert order == front + [last];
      EmitAllMembers(front, es);
      EmitGroupSuffix(last, WeeksOf(es, last));
    }
  }

  /** Within one suffix the emitted weeks strictly ascend, so no entry is
      emitted twice. */
  lemma {:induction false} EmitAllWeeksAscend(order: seq<string>, es: seq<Entry>)
    requires ShortKeys(order) && Distinct(order)
    ensures forall i, j ::
      (0 <= i < j < |EmitAll(order, es)| && EmitAll(order, es)[i].Suffix() == EmitAll(order, es)[j].Suffix()) ==>
      EmitAll(order, es)[i].week < EmitAll(order, es)[j].week
  {
    if |order| > 0 {
      var front, last := order[..|order| - 1], order[|order| - 1];
      assert order == front + [last];
      var ws := WeeksOf(es, last);
      var f, g := EmitAll(front, es), EmitGroup(last, ws);
      var out := EmitAll(order, es);
      assert out == f + g;
      EmitAllWeeksAscend(front, es);
      EmitAllMembers(front, es);
      GroupAscends(last, es);
      assert forall e :: e in f ==> e.Suffix() != last by {
        assert last !in front;
      }
      WeeksAscendConcat(f, g, last);
    }
  }

  /** A group's blocks all carry its suffix, in strictly ascending week order. */
  lemma GroupAscends(sfx: string, es: seq<Entry>)
    requires |sfx| < BLOCK
    ensures StrictlySortedBy(EmitGroup(sfx, WeeksOf(es, sfx)), WeekKey)
    ensures forall e :: e in EmitGroup(sfx, WeeksOf(es, sfx)) ==> e.Suffix() == sfx
  {
    WeeksOfSpec(es, sfx);
    EmitGroupSpec(sfx, WeeksOf(es, sfx));
    EmitGroupSuffix(sfx, WeeksOf(es, sfx));
  }

  /** Blocks whose weeks ascend within each suffix, followed by blocks of one
      new suffix in strictly ascending week order, still ascend. */
  lemma WeeksAscendConcat(f: seq<Entry>, g: seq<Entry>, sfx: string)
    requires forall i, j :: (0 <= i < j < |f| && f[i].Suffix() == f[j].Suffix()) ==> f[i].week < f[j].week
    requires StrictlySortedBy(g, WeekKey)
    requires forall e :: e in g ==> e.Suffix() == sfx
    requires forall e :: e in f ==> e.Suffix() != sfx
    ensures forall i, j :: (0 <= i < j < |f + g| && (f + g)[i].Suffix() == (f + g)[j].Suffix()) ==>
      (f + g)[i].week < (f + g)[j].week
  {
    var out := f + g;
    forall i, j | 0 <= i < j < |out|
      ensures out[i].Suffix() == out[j].Suffix() ==> out[i].week < out[j].week
    {
      if j < |f| {
        assert out[i] == f[i] && out[j] == f[j];
      } else if |f| <= i {
        assert out[i] == g[i - |f|] && out[j] == g[j - |f|];
        assert WeekKey(g[i - |f|]) < WeekKey(g[j - |f|]);
      } else {
        assert out[i] == f[i] && f[i] in f;
        assert out[j] == g[j - |f|] && g[j - |f|] in g;
      }
    }
  }

  /** The groups are emitted one after another in the order of `order`. */
  lemma {:induction false} EmitAllGroupOrder(order: seq<string>, es: seq<Entry>)
    requires ShortKeys(order) && Distinct(order)
    ensures forall i, j, p, q ::
      (0 <= i < j < |EmitAll(order, es)| && 0 <= p < |order| && 0 <= q < |order| &&
       order[p] == EmitAll(order, es)[i].Suffix() && order[q] == EmitAll(order, es)[j].Suffix()) ==>
      p <= q
  {
    if |order| > 0 {
      var n := |order| - 1;
      var front, last := order[..n], order[n];
      assert order == front + [last];
      var ws := WeeksOf(es, last);
      var f, g := EmitAll(front, es), EmitGroup(last, ws);
      var out := EmitAll(order, es);
      assert out == f + g;
      EmitAllGroupOrder(front, es);
      EmitAllMembers(front, es);
      EmitGroupSuffix(last, ws);
      GroupOrderConcat(order, front, f, g);
    }
  }

  /** Appending the blocks of the last suffix of `order` keeps the blocks in
      the order of their suffixes. */
  lemma GroupOrderConcat(order: seq<string>, front: seq<string>, f: seq<Entry>, g: seq<Entry>)
    requires |order| > 0 && Distinct(order) && front == order[..|order| - 1]
    requires forall i, j, p, q ::
      (0 <= i < j < |f| && 0 <= p < |front| && 0 <= q < |front| &&
       front[p] == f[i].Suffix() && front[q] == f[j].Suffix()) ==>
      p <= q
    requires forall e :: e in f ==> e.Suffix() in front
    requires forall e :: e in g ==> e.Suffix() == order[|order| - 1]
    ensures forall i, j, p, q ::
      (0 <= i < j < |f + g| && 0 <= p < |order| && 0 <= q < |order| &&
       order[p] == (f + g)[i].Suffix() && order[q] == (f + g)[j].Suffix()) ==>
      p <= q
  {
    var n := |order| - 1;
    var out := f + g;
    forall i, j, p, q | 0 <= i < j < |out| && 0 <= p < |order| && 0 <= q < |order| &&
        order[p] == out[i].Suffix() && order[q] == out[j].Suffix()
      ensures p <= q
    {
      if j < |f| {
        assert out[i] == f[i] && out[j] == f[j];
        assert f[i] in f && f[j] in f;
        assert p < n && q < n;
        assert front[p] == order[p] && front[q] == order[q];
      } else {
        assert out[j] == g[j - |f|];
        assert g[j - |f|] in g;
        assert q == n;
      }
    }
  }

  /** The number of distinct (week, suffix) pairs over the suffixes of `order`. */
  ghost function WeekCount(order: seq<string>, es: seq<Entry>): nat
  {
    if |order| == 0 then 0
    else WeekCount(order[..|order| - 1], es) + |WeeksOf(es, order[|order| - 1])|
  }

  lemma {:induction false} EmitAllLength(order: seq<string>, es: seq<Entry>)
    requires ShortKeys(order)
    ensures |EmitAll(order, es)| <= WeekCount(order, es)
  {
    if |order| > 0 {
      var front, last := order[..|order| - 1], order[|order| - 1];
      assert order == front + [last];
      EmitAllLength(front, es);
      WeeksOfSpec(es, last);
      EmitGroupSpec(last, WeeksOf(es, last));
    }
  }

  lemma {:induction false} WeekCountSnoc(order: seq<string>, es: seq<Entry>, e: Entry)
    requires Distinct(order)
    ensures WeekCount(order, es + [e]) <= WeekCount(order, es) + if e.Suffix() in order then 1 else 0
  {
    if |order| > 0 {
      var front, last := order[..|order| - 1], order[|order| - 1];
      assert order == front + [last];
      WeekCountSnoc(front, es, e);
      WeeksOfSnoc(es, e, last);
    }
  }

  /** Each entry adds at most one (week, suffix) pair. */
  lemma {:induction false} WeekCountBound(es: seq<Entry>)
    ensures WeekCount(SuffixOrder(es), es) <= |es|
  {
    if |es| > 0 {
      var front, e := es[..|es| - 1], es[|es| - 1];
      assert es == front + [e];
      var o, sfx := SuffixOrder(front), e.Suffix();
      WeekCountBound(front);
      SuffixOrderSnoc(front, e);
      SuffixOrderSpec(front);
      WeekCountSnoc(o, front, e);
      if sfx !in o {
        assert (o + [sfx])[..|o|] == o;
        WeeksOfUnseen(front, sfx);
        WeeksOfSnoc(front, e, sfx);
      }
    }
  }

  /** Position `k` is where suffix `sfx` first occurs in `es`. */
  ghost predicate FirstAt(es: seq<Entry>, sfx: string, k: int)
  {
    0 <= k < |es| && es[k].Suffix() == sfx && forall m :: 0 <= m < k ==> es[m].Suffix() != sfx
  }

  lemma FirstAtSnoc(front: seq<Entry>, e: Entry, sfx: string, k: int)
    requires sfx in Suffixes(front) && FirstAt(front + [e], sfx, k)
    ensures FirstAt(front, sfx, k)
  {
    var e' :| e' in front && e'.Suffix() == sfx;
    var m :| 0 <= m < |front| && front[m] == e';
    assert (front + [e])[m] == e';
    assert k <= m;
    forall m' | 0 <= m' < k ensures front[m'].Suffix() != sfx {
      assert (front + [e])[m'] == front[m'];
    }
  }

  /** The suffixes are listed in the order of their first occurrence. */
  lemma {:induction false} SuffixOrderFirstSeen(es: seq<Entry>)
    ensures forall p, q, kp, kq ::
      (0 <= p < q < |SuffixOrder(es)| && FirstAt(es, SuffixOrder(es)[p], kp) && FirstAt(es, SuffixOrder(es)[q], kq)) ==>
      kp < kq
  {
    if |es| > 0 {
      var front, e := es[..|es| - 1], es[|es| - 1];
      assert es == front + [e];
      var o, order := SuffixOrder(front), SuffixOrder(es);
      SuffixOrderFirstSeen(front);
      SuffixOrderSnoc(front, e);
      SuffixOrderSpec(front);
      forall p, q, kp, kq | 0 <= p < q < |order| && FirstAt(es, order[p], kp) && FirstAt(es, order[q], kq)
        ensures kp < kq
      {
        assert order[p] == o[p];
        FirstAtSnoc(front, e, order[p], kp);
        if q < |o| {
          assert order[q] == o[q];
          FirstAtSnoc(front, e, order[q], kq);
        } else {
          assert order[q] !in Suffixes(front);
          assert kq == |front|;
        }
      }
    }
  }

  // ----------------------------------------------------------------------
  // Properties of the compressed schedule

  /** An entry is in the output exactly when its suffix occurs in the input
      and either the suffix's weeks are exactly {1, 2, 3, 4} and the entry
      is the "every week" one, or its week occurs with that suffix in the
      input. (`BlockEntry` fixes how the block text is split.) */
  lemma CompressMembers(es: seq<Entry>, e: Entry)
    requires ShortSuffixes(es)
    ensures e in CompressEntries(es) <==>
      e.Suffix() in Suffixes(es) && e == BlockEntry([e.week] + e.Suffix()) &&
      if WeekSet(es, e.Suffix()) == REQUIRED_WEEKS then e.week == EVERY_WEEK
      else e.week in WeekSet(es, e.Suffix())
  {
    var order, sfx := SuffixOrder(es), e.Suffix();
    SuffixOrderSpec(es);
    OrderShort(es);
    EmitAllMembers(order, es);
    WeeksOfSpec(es, sfx);
    var ws := WeeksOf(es, sfx);
    assert Elems(ws) == WeekSet(es, sfx);
    if sfx in order {
      EmitGroupSpec(sfx, ws);
    }
  }

  /** No entry is emitted twice, and the entries of one suffix come in
      strictly ascending week order. */
  lemma CompressDistinct(es: seq<Entry>)
    requires ShortSuffixes(es)
    ensures Distinct(CompressEntries(es))
    ensures forall i, j ::
      (0 <= i < j < |CompressEntries(es)| && CompressEntries(es)[i].Suffix() == CompressEntries(es)[j].Suffix()) ==>
      CompressEntries(es)[i].week < CompressEntries(es)[j].week
  {
    SuffixOrderSpec(es);
    OrderShort(es);
    EmitAllWeeksAscend(SuffixOrder(es), es);
  }

  /** The output never has more entries than the input, and is empty only
      when the input is. */
  lemma CompressLength(es: seq<Entry>)
    requires ShortSuffixes(es)
    ensures |CompressEntries(es)| <= |es|
    ensures |CompressEntries(es)| == 0 <==> |es| == 0
  {
    var order := SuffixOrder(es);
    OrderShort(es);
    EmitAllLength(order, es);
    WeekCountBound(es);
    if |es| > 0 {
      SuffixOrderSpec(es);
      assert es[0] in es;
      var last := order[|order| - 1];
      assert last in Suffixes(es);
      var e :| e in es && e.Suffix() == last;
      WeeksOfSpec(es, last);
      assert e.week in WeeksOf(es, last);
      EmitGroupSpec(last, WeeksOf(es, last));
    }
  }

  /** The output lists the suffix groups in the order in which each suffix
      first occurs in the input. */
  lemma CompressFirstSeen(es: seq<Entry>)
    requires ShortSuffixes(es)
    ensures forall i, j, ki, kj ::
      (0 <= i < j < |CompressEntries(es)| &&
       FirstAt(es, CompressEntries(es)[i].Suffix(), ki) && FirstAt(es, CompressEntries(es)[j].Suffix(), kj)) ==>
      ki <= kj
  {
    var order, out := SuffixOrder(es), CompressEntries(es);
    SuffixOrderSpec(es);
    OrderShort(es);
    EmitAllMembers(order, es);
    EmitAllGroupOrder(order, es);
    SuffixOrderFirstSeen(es);
    forall i, j, ki, kj | 0 <= i < j < |out| && FirstAt(es, out[i].Suffix(), ki) && FirstAt(es, out[j].Suffix(), kj)
      ensures ki <= kj
    {
      assert out[i] in out && out[j] in out;
      var p :| 0 <= p < |order| && order[p] == out[i].Suffix();
      var q :| 0 <= q < |order| && order[q] == out[j].Suffix();
      if p == q {
        assert !(ki < kj) && !(kj < ki);
      }
    }
  }

  /** Entries from full blocks compress to entries from full blocks. */
  lemma CompressKeepsFull(es: seq<Entry>)
    requires forall e :: e in es ==> Full(e)
    ensures forall e :: e in CompressEntries(es) ==> Full(e)
  {
    assert ShortSuffixes(es);
    forall e | e in CompressEntries(es) ensures Full(e) {
      CompressMembers(es, e);
      var e' :| e' in es && e'.Suffix() == e.Suffix();
    }
  }

  lemma SerializeEmpty(es: seq<Entry>)
    ensures Serialize(es) == "" <==> |es| == 0
  {
    if |es| > 0 {
      assert |es[0].Code()| >= 1;
    }
  }

  /** A schedule of whole blocks compresses to whole blocks that parse back
      to the compressed entries. */
  lemma CompressReparse(s: string)
    requires |s| % BLOCK == 0 && |s| > 0
    ensures Parse(Compress(s)) == CompressEntries(Parse(s))
    ensures |Compress(s)| == BLOCK * |CompressEntries(Parse(s))|
  {
    ParseShape(s);
    CompressKeepsFull(Parse(s));
    ParseSerialize(CompressEntries(Parse(s)));
  }

  lemma WholeBlocks(len: nat, n: nat, m: nat)
    requires len % BLOCK == 0 && n == (len + BLOCK - 1) / BLOCK && m <= n
    ensures (BLOCK * m) % BLOCK == 0 && BLOCK * m <= len
  {
  }

  /** A schedule of whole blocks compresses to a schedule of whole blocks,
      no longer than the input, which parses back to the compressed entries. */
  lemma CompressWholeBlocks(s: string)
    requires |s| % BLOCK == 0
    ensures Parse(Compress(s)) == CompressEntries(Parse(s))
    ensures |Compress(s)| % BLOCK == 0 && |Compress(s)| <= |s|
  {
    if |s| > 0 {
      var es := Parse(s);
      assert ShortSuffixes(es) by { ParseShape(s); }
      CompressLength(es);
      CompressReparse(s);
      var n, m := |es|, |CompressEntries(es)|;
      WholeBlocks(|s|, n, m);
    }
  }

  // ----------------------------------------------------------------------
  // Compression depends only on the set of entries, and is idempotent on it

  /** Only the set of input entries matters: the order of the entries and
      repeated entries change nothing but the order of the output. */
  lemma CompressSameSet(xs: seq<Entry>, ys: seq<Entry>)
    requires ShortSuffixes(xs)
    requires forall e :: e in xs <==> e in ys
    ensures forall e :: e in CompressEntries(xs) <==> e in CompressEntries(ys)
  {
    assert ShortSuffixes(ys);
    assert Suffixes(xs) == Suffixes(ys);
    forall e ensures e in CompressEntries(xs) <==> e in CompressEntries(ys) {
      CompressMembers(xs, e);
      CompressMembers(ys, e);
      assert WeekSet(xs, e.Suffix()) == WeekSet(ys, e.Suffix());
    }
  }

  /** The weeks carried by a suffix after compression: just '0' when they
      were {1, 2, 3, 4}, the same weeks otherwise. */
  lemma CompressedWeeks(es: seq<Entry>, sfx: string, w: char)
    requires ShortSuffixes(es) && |sfx| < BLOCK
    ensures w in WeekSet(CompressEntries(es), sfx) <==>
      sfx in Suffixes(es) &&
      if WeekSet(es, sfx) == REQUIRED_WEEKS then w == EVERY_WEEK else w in WeekSet(es, sfx)
  {
    var c := CompressEntries(es);
    if w in WeekSet(c, sfx) {
      var e :| e in c && e.Suffix() == sfx && e.week == w;
      CompressMembers(es, e);
    }
    var b := BlockEntry([w] + sfx);
    CompressMembers(es, b);
    assert b.week == w && b.Suffix() == sfx;
  }

  lemma CompressedShort(es: seq<Entry>)
    requires ShortSuffixes(es)
    ensures ShortSuffixes(CompressEntries(es))
  {
    forall e | e in CompressEntries(es) ensures |e.Suffix()| < BLOCK {
      CompressMembers(es, e);
    }
  }

  /** Compression keeps every suffix, and adds none. */
  lemma CompressedSuffixes(es: seq<Entry>, sfx: string)
    requires ShortSuffixes(es)
    ensures sfx in Suffixes(CompressEntries(es)) <==> sfx in Suffixes(es)
  {
    var c := CompressEntries(es);
    if sfx in Suffixes(c) {
      var e' :| e' in c && e'.Suffix() == sfx;
      CompressMembers(es, e');
    }
    if sfx in Suffixes(es) {
      var e' :| e' in es && e'.Suffix() == sfx;
      assert e'.week in WeekSet(es, sfx);
      if WeekSet(es, sfx) == REQUIRED_WEEKS {
        CompressedWeeks(es, sfx, EVERY_WEEK);
      } else {
        CompressedWeeks(es, sfx, e'.week);
      }
    }
  }

  /** After compression no suffix carries exactly the weeks {1, 2, 3, 4}. */
  lemma CompressedNotAllWeeks(es: seq<Entry>, sfx: string)
    requires ShortSuffixes(es) && |sfx| < BLOCK
    ensures WeekSet(CompressEntries(es), sfx) != REQUIRED_WEEKS
  {
    var c := CompressEntries(es);
    if WeekSet(es, sfx) == REQUIRED_WEEKS {
      CompressedWeeks(es, sfx, '1');
    } else if WeekSet(c, sfx) == REQUIRED_WEEKS {
      forall w ensures w in WeekSet(es, sfx) <==> w in REQUIRED_WEEKS {
        CompressedWeeks(es, sfx, w);
      }
      assert false;
    }
  }

  lemma CompressFixpointAt(es: seq<Entry>, e: Entry)
    requires ShortSuffixes(es)
    ensures e in CompressEntries(CompressEntries(es)) <==> e in CompressEntries(es)
  {
    var c, sfx := CompressEntries(es), e.Suffix();
    CompressedShort(es);
    CompressMembers(es, e);
    CompressMembers(c, e);
    CompressedSuffixes(es, sfx);
    if sfx in Suffixes(es) {
      CompressedNotAllWeeks(es, sfx);
      CompressedWeeks(es, sfx, e.week);
    }
  }

  /** Compressing a compressed schedule gives the same entries again. */
  lemma CompressFixpoint(es: seq<Entry>)
    requires ShortSuffixes(es)
    ensures forall e :: e in CompressEntries(CompressEntries(es)) <==> e in CompressEntries(es)
  {
    forall e ensures e in CompressEntries(CompressEntries(es)) <==> e in CompressEntries(es) {
      CompressFixpointAt(es, e);
    }
  }
}
