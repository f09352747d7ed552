/** Schedule entries and the fixed-width encoding: a schedule string is a
    run of 7-character blocks, week (1) + day (2) + time (2) + product (2). */
module Schedule {

  /** One decoded block. The codes are kept as the text found in the block,
      recognised or not; a truncated last block leaves some of them short. */
  datatype Entry = Entry(week: char, day: string, time: string, product: string)
  {
    /** Everything after the week code: day + time + product. */
    function Suffix(): string
    {
      day + time + product
    }

    function Code(): string
    {
      [week] + Suffix()
    }
  }

  const BLOCK: nat := 7

  function Min(a: int, b: int): int
  {
    if a <= b then a else b
  }

  /** Splits one block as `charAt(0)`, `substring(1, 3)`, `substring(3, 5)`
      and `substring(5, 7)` do: bounds past the end are clamped. */
  function BlockEntry(b: string): (e: Entry)
    requires 1 <= |b|
    ensures |b| <= BLOCK ==> e.Code() == b
    ensures |b| <= BLOCK ==> e.Suffix() == b[1..]
    ensures |b| == BLOCK ==> |e.day| == 2 && |e.time| == 2 && |e.product| == 2
  {
    var n := |b|;
    assert |b| <= BLOCK ==> b == [b[0]] + b[1..Min(3, n)] + b[Min(3, n)..Min(5, n)] + b[Min(5, n)..Min(7, n)];
    Entry(b[0], b[1..Min(3, n)], b[Min(3, n)..Min(5, n)], b[Min(5, n)..Min(7, n)])
  }

  /** An entry as it comes out of a full block: every code has two characters. */
  predicate Full(e: Entry)
  {
    |e.day| == 2 && |e.time| == 2 && |e.product| == 2
  }

  /** The entries of a schedule, one per block at offsets 0, 7, 14, ...;
      the last block may be shorter than 7 characters. */
  function Parse(s: string): (r: seq<Entry>)
    ensures |r| == (|s| + BLOCK - 1) / BLOCK
    decreases |s|
  {
    if |s| == 0 then []
    else [BlockEntry(s[..Min(BLOCK, |s|)])] + Parse(s[Min(BLOCK, |s|)..])
  }

  /** Concatenation of the entries' codes. */
  function Serialize(es: seq<Entry>): string
  {
    if |es| == 0 then "" else es[0].Code() + Serialize(es[1..])
  }

  lemma SerializeOne(e: Entry)
    ensures Serialize([e]) == e.Code()
  {
    assert Serialize([e]) == e.Code() + Serialize([]);
  }

  lemma {:induction false} SerializeAppend(a: seq<Entry>, b: seq<Entry>)
    ensures Serialize(a + b) == Serialize(a) + Serialize(b)
  {
    if |a| == 0 {
      assert a + b == b;
    } else {
      assert (a + b)[0] == a[0] && (a + b)[1..] == a[1..] + b;
      SerializeAppend(a[1..], b);
    }
  }

  /** The k-th entry is made from `s[7k..7k+7]`, clamped to the end of `s`. */
  lemma {:induction false} ParseAt(s: string, k: nat)
    requires k < |Parse(s)|
    ensures BLOCK * k < |s|
    ensures Parse(s)[k] == BlockEntry(s[BLOCK * k..Min(BLOCK * k + BLOCK, |s|)])
  {
    if k > 0 {
      var m := Min(BLOCK, |s|);
      var rest := s[m..];
      ParseTail(s);
      ParseAt(rest, k - 1);
      var i, j := BLOCK * (k - 1), Min(BLOCK * (k - 1) + BLOCK, |rest|);
      BlockOffsets(|s|, k);
      SliceShift(s, BLOCK, i, j);
    }
  }

  /** Past the first block, parsing goes on with the rest of the schedule. */
  lemma ParseTail(s: string)
    requires |s| > 0
    ensures |Parse(s)| == 1 + |Parse(s[Min(BLOCK, |s|)..])|
    ensures forall k :: 0 < k < |Parse(s)| ==> Parse(s)[k] == Parse(s[Min(BLOCK, |s|)..])[k - 1]
  {
  }

  lemma BlockOffsets(n: int, k: nat)
    requires 0 < k && BLOCK * (k - 1) < n - BLOCK
    ensures BLOCK + BLOCK * (k - 1) == BLOCK * k
    ensures BLOCK + Min(BLOCK * (k - 1) + BLOCK, n - BLOCK) == Min(BLOCK * k + BLOCK, n)
  {
  }

  lemma SliceShift(s: string, m: nat, i: nat, j: nat)
    requires m <= |s| && i <= j <= |s| - m
    ensures s[m..][i..j] == s[m + i..m + j]
  {
  }

  /** Every parsed entry has a suffix shorter than a block, and when the
      schedule is made of whole blocks every entry has two-character codes. */
  lemma {:induction false} ParseShape(s: string)
    ensures forall e :: e in Parse(s) ==> |e.Suffix()| < BLOCK
    ensures |s| % BLOCK == 0 ==> forall e :: e in Parse(s) ==> Full(e)
  {
    if |s| > 0 {
      ParseShape(s[Min(BLOCK, |s|)..]);
    }
  }

  /** Concatenating the parsed blocks gives back the schedule. */
  lemma {:induction false} SerializeParse(s: string)
    ensures Serialize(Parse(s)) == s
  {
    if |s| > 0 {
      var m := Min(BLOCK, |s|);
      SerializeParse(s[m..]);
      assert Parse(s)[1..] == Parse(s[m..]);
      assert s == s[..m] + s[m..];
    }
  }

  /** Parsing the serialisation of full entries gives them back. */
  lemma {:induction false} ParseSerialize(es: seq<Entry>)
    requires forall e :: e in es ==> Full(e)
    ensures Parse(Serialize(es)) == es
    ensures |Serialize(es)| == BLOCK * |es|
  {
    if |es| > 0 {
      ParseSerialize(es[1..]);
      var s := Serialize(es);
      var e := es[0];
      assert Full(e) by { assert e in es; }
      var c := e.Code();
      assert c == [e.week] + e.day + e.time + e.product;
      assert |c| == BLOCK;
      assert c[1..3] == e.day && c[3..5] == e.time && c[5..7] == e.product;
      assert s == c + Serialize(es[1..]);
      assert s[..BLOCK] == c && s[BLOCK..] == Serialize(es[1..]);
      assert BlockEntry(c) == e;
    }
  }

  /** `parseSchedule`: a counting loop over the block offsets. */
  method ParseSchedule(s: string) returns (entries: seq<Entry>)
    ensures entries == Parse(s)
  {
    entries := [];
    if |s| == 0 {
      return;
    }
    var i := 0;
    while i < |s|
      invariant 0 <= i
      invariant entries + Parse(s[Min(i, |s|)..]) == Parse(s)
    {
      var entry := s[i..Min(i + BLOCK, |s|)];
      ParseStep(s, i);
      entries := entries + [BlockEntry(entry)];
      i := i + BLOCK;
    }
  }

  /** Parsing from offset `i` reads one block there and goes on after it. */
  lemma ParseStep(s: string, i: nat)
    requires i < |s|
    ensures Parse(s[i..]) == [BlockEntry(s[i..Min(i + BLOCK, |s|)])] + Parse(s[Min(i + BLOCK, |s|)..])
  {
    assert s[i..][..Min(BLOCK, |s| - i)] == s[i..Min(i + BLOCK, |s|)];
    assert s[i..][Min(BLOCK, |s| - i)..] == s[Min(i + BLOCK, |s|)..];
  }
}
