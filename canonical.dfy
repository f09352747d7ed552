/** `canonicalizeSchedule`: the compressed schedule, re-parsed and sorted by
    week code, day ordinal, time ordinal and product label. */
module Canonical {
  import opened Codes
  import opened Schedule
  import opened Sorting
  import opened Compression
  import opened Ordering

  /** The canonical form of a schedule; empty input gives "". */
  function Canonicalize(s: string): (r: string)
    ensures r == "" <==> s == ""
  {
    if |s| == 0 then ""
    else
      var es := Parse(Compress(s));
      SerializeParse(Compress(s));
      SerializeEmpty(SortBy(es, EntryKey));
      assert |SortBy(es, EntryKey)| == |multiset(es)| == |es|;
      Serialize(SortBy(es, EntryKey))
  }

  /** `canonicalizeSchedule`: compresses, parses the result into an array,
      sorts the array in place and joins the entries' codes. */
  method CanonicalizeSchedule(s: string) returns (r: string)
    ensures r == Canonicalize(s)
  {
    if |s| == 0 {
      return "";
    }
    var compressed := CompressPlanning(s);
    var parsed := ParseSchedule(compressed);
    var entries := SortedArray(parsed, EntryKey);
    r := Serialize(entries[..]);
  }

  /** A schedule of whole blocks whose every code is in its table. */
  ghost predicate WellFormed(s: string)
  {
    |s| % BLOCK == 0 && forall e :: e in Parse(s) ==> Recognised(e)
  }

  /** Compressing entries of recognised codes gives entries of recognised codes. */
  lemma CompressKeepsRecognised(es: seq<Entry>)
    requires forall e :: e in es ==> Recognised(e)
    ensures forall e :: e in CompressEntries(es) ==> Recognised(e) && Full(e)
  {
    assert forall e :: e in es ==> Full(e);
    CompressKeepsFull(es);
    forall e | e in CompressEntries(es) ensures Recognised(e) {
      CompressMembers(es, e);
      var e' :| e' in es && e'.Suffix() == e.Suffix();
      if e.week != EVERY_WEEK {
        var e'' :| e'' in es && e''.Suffix() == e.Suffix() && e''.week == e.week;
        assert Recognised(e'');
      }
      SameSuffixRecognised(e, e');
    }
  }

  /** An entry with a recognised week code that shares its suffix with a
      recognised entry is recognised. */
  lemma SameSuffixRecognised(e: Entry, e': Entry)
    requires Full(e) && Full(e') && e.Suffix() == e'.Suffix()
    requires Recognised(e') && WeekLabel(e.week).Some?
    ensures Recognised(e)
  {
    assert e.day == e.Suffix()[..2] && e'.day == e'.Suffix()[..2];
    assert e.time == e.Suffix()[2..4] && e'.time == e'.Suffix()[2..4];
    assert e.product == e.Suffix()[4..] && e'.product == e'.Suffix()[4..];
  }

  /** Two duplicate-free sequences with the same elements hold the same multiset. */
  lemma DistinctSameElems<T>(xs: seq<T>, ys: seq<T>)
    requires Distinct(xs) && Distinct(ys)
    requires forall x :: x in xs <==> x in ys
    ensures multiset(xs) == multiset(ys)
  {
    DistinctIffMultiplicityOne(xs);
    DistinctIffMultiplicityOne(ys);
    forall x ensures multiset(xs)[x] == multiset(ys)[x] {
      assert x in multiset(xs) <==> x in xs;
      assert x in multiset(ys) <==> x in ys;
    }
  }

  /** Sorting two duplicate-free sequences of recognised entries that hold
      the same elements gives the same sequence. */
  lemma SortSameSet(xs: seq<Entry>, ys: seq<Entry>)
    requires Distinct(xs) && Distinct(ys)
    requires forall e :: e in xs <==> e in ys
    requires forall e :: e in xs ==> Recognised(e)
    ensures SortBy(xs, EntryKey) == SortBy(ys, EntryKey)
  {
    DistinctSameElems(xs, ys);
    var t := SortBy(xs, EntryKey);
    assert KeyInjective(t, EntryKey) by {
      forall i, j | 0 <= i < |t| && 0 <= j < |t| && EntryKey(t[i]) == EntryKey(t[j])
        ensures t[i] == t[j]
      {
        assert t[i] in multiset(xs) && t[j] in multiset(xs);
        RecognisedKeyInjective(t[i], t[j]);
      }
    }
    SortedUnique(t, SortBy(ys, EntryKey), EntryKey);
  }

  /** What the canonical form is made of, for a well-formed schedule. */
  lemma CanonicalEntries(s: string)
    requires WellFormed(s) && |s| > 0
    ensures Parse(Canonicalize(s)) == SortBy(CompressEntries(Parse(s)), EntryKey)
    ensures |Canonicalize(s)| == |Compress(s)|
    ensures forall e :: e in Parse(Canonicalize(s)) ==> Recognised(e)
  {
    var es := Parse(s);
    var c := CompressEntries(es);
    CompressReparse(s);
    CompressKeepsRecognised(es);
    var t := SortBy(c, EntryKey);
    assert forall e :: e in t ==> e in multiset(c);
    ParseSerialize(t);
  }

  /** The canonical form holds exactly the compressed entries, ordered by
      week code, day ordinal, time ordinal and product label. */
  lemma CanonicalSortedPermutation(s: string)
    requires WellFormed(s)
    ensures SortedBy(Parse(Canonicalize(s)), EntryKey)
    ensures multiset(Parse(Canonicalize(s))) == multiset(Parse(Compress(s)))
    ensures |Canonicalize(s)| == |Compress(s)|
  {
    if |s| > 0 {
      CanonicalEntries(s);
      CompressWholeBlocks(s);
    }
  }

  lemma SameSetSameSorted(es1: seq<Entry>, es2: seq<Entry>)
    requires forall e :: e in es1 ==> Recognised(e)
    requires forall e :: e in es1 <==> e in es2
    ensures SortBy(CompressEntries(es1), EntryKey) == SortBy(CompressEntries(es2), EntryKey)
  {
    assert ShortSuffixes(es1) && ShortSuffixes(es2);
    CompressSameSet(es1, es2);
    CompressDistinct(es1);
    CompressDistinct(es2);
    CompressKeepsRecognised(es1);
    SortSameSet(CompressEntries(es1), CompressEntries(es2));
  }

  lemma SameSetBothEmpty(s1: string, s2: string)
    requires forall e :: e in Parse(s1) <==> e in Parse(s2)
    ensures |s1| == 0 <==> |s2| == 0
  {
    if |s1| > 0 {
      assert Parse(s1)[0] in Parse(s2);
    }
    if |s2| > 0 {
      assert Parse(s2)[0] in Parse(s1);
    }
  }

  /** The canonical form depends only on the set of entries: any order and
      any repetition of the same entries give the same string. */
  lemma CanonicalSetDetermined(s1: string, s2: string)
    requires WellFormed(s1) && WellFormed(s2)
    requires forall e :: e in Parse(s1) <==> e in Parse(s2)
    ensures Canonicalize(s1) == Canonicalize(s2)
  {
    SameSetBothEmpty(s1, s2);
    if |s1| > 0 {
      CanonicalEntries(s1);
      CanonicalEntries(s2);
      SameSetSameSorted(Parse(s1), Parse(s2));
      SerializeParse(Canonicalize(s1));
      SerializeParse(Canonicalize(s2));
    }
  }

  /** Sorting the compressed entries, compressing them again and sorting
      again gives the same sequence. */
  lemma RecompressSorted(es: seq<Entry>)
    requires forall e :: e in es ==> Recognised(e)
    ensures SortBy(CompressEntries(SortBy(CompressEntries(es), EntryKey)), EntryKey)
         == SortBy(CompressEntries(es), EntryKey)
  {
    var c := CompressEntries(es);
    var t := SortBy(c, EntryKey);
    assert ShortSuffixes(es);
    RecompressSameElems(es);
    CompressDistinct(t);
    CompressDistinct(es);
    CompressKeepsRecognised(es);
    SortSameSet(CompressEntries(t), c);
  }

  /** Compressing the sorted compression gives back the same entries. */
  lemma RecompressSameElems(es: seq<Entry>)
    requires ShortSuffixes(es)
    ensures ShortSuffixes(SortBy(CompressEntries(es), EntryKey))
    ensures forall e :: e in CompressEntries(SortBy(CompressEntries(es), EntryKey)) <==> e in CompressEntries(es)
  {
    var c := CompressEntries(es);
    var t := SortBy(c, EntryKey);
    assert forall e :: e in t <==> e in c by {
      assert forall e :: e in t <==> e in multiset(c);
    }
    CompressedShort(es);
    CompressSameSet(c, t);
    CompressFixpoint(es);
  }

  /** The canonical form of a well-formed schedule is well formed. */
  lemma CanonicalWellFormed(s: string)
    requires WellFormed(s)
    ensures WellFormed(Canonicalize(s))
  {
    if |s| > 0 {
      CanonicalEntries(s);
      CompressWholeBlocks(s);
    }
  }

  /** Canonicalising a canonical form changes nothing. */
  lemma CanonicalIdempotent(s: string)
    requires WellFormed(s)
    ensures WellFormed(Canonicalize(s))
    ensures Canonicalize(Canonicalize(s)) == Canonicalize(s)
  {
    CanonicalWellFormed(s);
    var s' := Canonicalize(s);
    if |s'| > 0 {
      CanonicalEntries(s);
      CanonicalEntries(s');
      RecompressSorted(Parse(s));
      SerializeParse(s');
      SerializeParse(Canonicalize(s'));
    }
  }
}
