/** The fixed code tables of the schedule format: week, day, time-slot and
    product codes with their French labels and their ordinals. */
module Codes {

  datatype Option<T> = None | Some(value: T)

  /** The week codes: '0' ("every week"), then the weeks of the month. */
  const WEEKS: seq<char> := ['0', '1', '2', '3', '4']

  /** The weekday codes, Monday first. */
  const DAYS: seq<string> := ["Lu", "Ma", "Me", "Je", "Ve"]

  /** The time-slot codes, in chronological order. */
  const TIMES: seq<string> := ["Md", "Mf", "Ap"]

  /** The product codes. */
  const PRODUCTS: seq<string> := ["Fr", "Se", "Su"]

  /** Label of a week code; '0' means "every week". */
  function WeekLabel(code: char): (r: Option<string>)
    ensures r.Some? <==> code in WEEKS
  {
    match code
    case '0' => Some("Tous les")
    case '1' => Some("1er")
    case '2' => Some("2e")
    case '3' => Some("3e")
    case '4' => Some("4e")
    case _ => None
  }

  function DayLabel(code: string): (r: Option<string>)
    ensures r.Some? <==> code in DAYS
  {
    if code == "Lu" then Some("lundi")
    else if code == "Ma" then Some("mardi")
    else if code == "Me" then Some("mercredi")
    else if code == "Je" then Some("jeudi")
    else if code == "Ve" then Some("vendredi")
    else None
  }

  /** Weekday ordinal, Monday first: the code's position in `DAYS`. */
  function DayOrder(code: string): (r: Option<nat>)
    ensures r.Some? <==> code in DAYS
    ensures r.Some? ==> r.value < |DAYS| && DAYS[r.value] == code
  {
    if code == "Lu" then Some(0)
    else if code == "Ma" then Some(1)
    else if code == "Me" then Some(2)
    else if code == "Je" then Some(3)
    else if code == "Ve" then Some(4)
    else None
  }

  function TimeLabel(code: string): (r: Option<string>)
    ensures r.Some? <==> code in TIMES
  {
    if code == "Md" then Some("8h30")
    else if code == "Mf" then Some("10h00")
    else if code == "Ap" then Some("14h00")
    else None
  }

  /** Chronological ordinal of a time slot: the code's position in `TIMES`. */
  function TimeOrder(code: string): (r: Option<nat>)
    ensures r.Some? <==> code in TIMES
    ensures r.Some? ==> r.value < |TIMES| && TIMES[r.value] == code
  {
    if code == "Md" then Some(0)
    else if code == "Mf" then Some(1)
    else if code == "Ap" then Some(2)
    else None
  }

  function ProductLabel(code: string): (r: Option<string>)
    ensures r.Some? <==> code in PRODUCTS
  {
    if code == "Fr" then Some("Frais")
    else if code == "Se" then Some("Sec")
    else if code == "Su" then Some("Surgel\U{e9}")
    else None
  }

  /** A looked-up label as JavaScript prints it: a missing one is the text "undefined". */
  function Text(lookup: Option<string>): string
  {
    match lookup
    case Some(l) => l
    case None => "undefined"
  }

  /** The ordinal of a missing table entry. In the source's group key a
      missing ordinal is printed "undefined", which sorts after every digit;
      5 is above every day and time ordinal. */
  const UNDEFINED_RANK: nat := 5

  /** The ordinal used for ordering: a missing one ranks last. */
  function Rank(o: Option<nat>): nat
  {
    match o
    case Some(n) => n
    case None => UNDEFINED_RANK
  }

  function DayRank(code: string): (r: nat)
    ensures DayOrder(code).Some? ==> r == DayOrder(code).value
    ensures r <= UNDEFINED_RANK
    ensures r == UNDEFINED_RANK <==> DayOrder(code).None?
  {
    Rank(DayOrder(code))
  }

  function TimeRank(code: string): (r: nat)
    ensures TimeOrder(code).Some? ==> r == TimeOrder(code).value
    ensures r <= UNDEFINED_RANK
    ensures r == UNDEFINED_RANK <==> TimeOrder(code).None?
  {
    Rank(TimeOrder(code))
  }

  /** Position of a product label in French alphabetical order; the empty
      label (an unknown product in the canonical sort) comes first. It is
      the sort key of product lists, so its type is that of a key. */
  function LabelRank(name: string): (r: int)
    ensures 0 <= r <= 3
  {
    if name == "Frais" then 1
    else if name == "Sec" then 2
    else if name == "Surgel\U{e9}" then 3
    else 0
  }

  /** The product label the canonical comparator uses: `PRODUCTS[code] || ''`. */
  function SortLabel(code: string): string
  {
    match ProductLabel(code)
    case Some(l) => l
    case None => ""
  }

  function ProductRank(code: string): nat
  {
    LabelRank(SortLabel(code))
  }

  /** Code-point lexicographic order on strings. */
  predicate LexLess(a: string, b: string)
  {
    if |a| == 0 then |b| > 0
    else if |b| == 0 then false
    else if a[0] != b[0] then a[0] < b[0]
    else LexLess(a[1..], b[1..])
  }

  /** Code-point order is a strict total order: never both ways, and one way
      for any two different strings. */
  lemma {:induction false} LexLessTotal(a: string, b: string)
    ensures !(LexLess(a, b) && LexLess(b, a))
    ensures a != b ==> LexLess(a, b) || LexLess(b, a)
  {
    if |a| > 0 && |b| > 0 && a[0] == b[0] {
      LexLessTotal(a[1..], b[1..]);
      if a != b {
        assert a == [a[0]] + a[1..] && b == [b[0]] + b[1..];
      }
    }
  }

  /** The rank order of the product labels (and of the empty label) is their
      alphabetical order: the first letters that differ carry no accent, so
      French collation and code-point order agree on them. */
  lemma LabelRankIsAlphabetical(a: string, b: string)
    requires a in {"", "Frais", "Sec", "Surgel\U{e9}"}
    requires b in {"", "Frais", "Sec", "Surgel\U{e9}"}
    ensures LabelRank(a) < LabelRank(b) <==> LexLess(a, b)
    ensures LabelRank(a) == LabelRank(b) <==> a == b
  {
    assert LexLess("", "Frais") && LexLess("Frais", "Sec");
    assert LexLess("Sec", "Surgel\U{e9}") by {
      assert "Sec"[1..] == "ec" && "Surgel\U{e9}"[1..] == "urgel\U{e9}";
    }
  }

  /** The code tables are bijective on the recognised codes: an ordinal
      determines its code, and a code has a label exactly when it has an
      ordinal. */
  lemma DayTableConsistent(a: string, b: string)
    ensures DayLabel(a).Some? <==> DayOrder(a).Some?
    ensures DayOrder(a).Some? && DayOrder(a) == DayOrder(b) ==> a == b
    ensures DayRank(a) == DayRank(b) ==> DayLabel(a) == DayLabel(b)
  {
  }

  lemma TimeTableConsistent(a: string, b: string)
    ensures TimeLabel(a).Some? <==> TimeOrder(a).Some?
    ensures TimeOrder(a).Some? && TimeOrder(a) == TimeOrder(b) ==> a == b
    ensures TimeRank(a) == TimeRank(b) ==> TimeLabel(a) == TimeLabel(b)
  {
  }

  lemma ProductTableConsistent(a: string, b: string)
    ensures ProductLabel(a).Some? <==> ProductRank(a) > 0
    ensures ProductRank(a) > 0 && ProductRank(a) == ProductRank(b) ==> a == b
  {
  }
}
