/** `groupAndSortEntries` and `decodePlanning`: the compressed schedule is
    grouped by (week, day, time), the groups are sorted chronologically, each
    group's product labels are sorted, and every group becomes one French
    sentence. */
module Rendering {
  import opened Codes
  import opened Schedule
  import opened Sorting
  import opened Compression
  import opened Ordering

  /** One group: the looked-up labels (missing ones print as "undefined"),
      the recognised product labels and whether the week code is '0'. */
  datatype Item = Item(week: Option<string>, day: Option<string>, time: Option<string>,
                       productList: seq<string>, isRecurring: bool)

  /** The grouping map, with its keys in insertion order. Keys are the
      integer form of the source's text key; `GroupKeyTextOrder` shows that
      two entries share one exactly when they share the other. */
  datatype Groups = Groups(keys: seq<int>, items: map<int, Item>)

  /** A new group for `e`: its labels, and no products yet. */
  function NewItem(e: Entry): (r: Item)
    ensures Describes(r, e) && r.productList == []
  {
    Item(WeekLabel(e.week), DayLabel(e.day), TimeLabel(e.time), [], e.week == EVERY_WEEK)
  }

  /** One iteration of the grouping loop: create the group if it is new,
      then push the product label when the product code is recognised. */
  function AddEntry(g: Groups, e: Entry): (r: Groups)
    ensures GroupKey(e) in r.items
    ensures GroupKey(e) !in g.items ==> Describes(r.items[GroupKey(e)], e)
    ensures r.items[GroupKey(e)].productList ==
      (if GroupKey(e) in g.items then g.items[GroupKey(e)].productList else []) +
      (if ProductLabel(e.product).Some? then [ProductLabel(e.product).value] else [])
    ensures forall k :: k in g.items && k != GroupKey(e) ==> k in r.items && r.items[k] == g.items[k]
    ensures forall k :: k in r.items ==> k in g.items || k == GroupKey(e)
    ensures Distinct(g.keys) && (forall k :: k in g.keys <==> k in g.items) ==>
      Distinct(r.keys) && (forall k :: k in r.keys <==> k in r.items)
  {
    var k := GroupKey(e);
    var keys := if k in g.items then g.keys else g.keys + [k];
    var items := if k in g.items then g.items else g.items[k := NewItem(e)];
    match ProductLabel(e.product)
    case Some(l) => Groups(keys, items[k := items[k].(productList := items[k].productList + [l])])
    case None => Groups(keys, items)
  }

  /** The grouping loop over `es`; the key list holds each key of the map once. */
  function Group(es: seq<Entry>): (g: Groups)
    ensures Distinct(g.keys)
    ensures forall k :: k in g.keys <==> k in g.items
  {
    if |es| == 0 then Groups([], map[])
    else AddEntry(Group(es[..|es| - 1]), es[|es| - 1])
  }

  function Id(k: int): int
  {
    k
  }

  function SortProducts(it: Item): Item
  {
    it.(productList := SortBy(it.productList, LabelRank))
  }

  /** The items of `ks`, in that order, each with its products sorted. */
  function ItemsFor(ks: seq<int>, items: map<int, Item>): seq<Item>
    requires forall i :: 0 <= i < |ks| ==> ks[i] in items
  {
    if |ks| == 0 then []
    else ItemsFor(ks[..|ks| - 1], items) + [SortProducts(items[ks[|ks| - 1]])]
  }

  /** The items of `keys` in ascending key order, each with its products sorted. */
  function SortedItems(keys: seq<int>, items: map<int, Item>): seq<Item>
    requires forall k :: k in keys ==> k in items
  {
    var ks := SortBy(keys, Id);
    assert forall i :: 0 <= i < |ks| ==> ks[i] in multiset(keys);
    ItemsFor(ks, items)
  }

  /** The groups in ascending key order, each with its products sorted. */
  function GroupAndSort(es: seq<Entry>): seq<Item>
  {
    var g := Group(es);
    SortedItems(g.keys, g.items)
  }

  /** `xs` joined with `sep` between consecutive elements, as `Array.join` does. */
  function Join(xs: seq<string>, sep: string): string
  {
    if |xs| == 0 then ""
    else if |xs| == 1 then xs[0]
    else xs[0] + sep + Join(xs[1..], sep)
  }

  /** The day label, with a plural "s" for a recurring group. */
  function DayText(it: Item): (r: string)
    ensures |r| == |Text(it.day)| + (if it.isRecurring then 1 else 0)
    ensures r[..|Text(it.day)|] == Text(it.day)
  {
    if it.isRecurring then Text(it.day) + "s" else Text(it.day)
  }

  /** The sentence of one group: week label, day, time, then the products,
      ending in a full stop. */
  function Sentence(it: Item): (r: string)
    ensures |r| > |Text(it.week)| && r[..|Text(it.week)| + 1] == Text(it.week) + " "
    ensures |r| > 0 && r[|r| - 1] == '.'
  {
    Text(it.week) + " " + DayText(it) + " " + Text(it.time) + ": " + Join(it.productList, ", ") + "."
  }

  /** One sentence per item, in order. */
  function Sentences(items: seq<Item>): (r: seq<string>)
    ensures |r| == |items|
    ensures forall x :: x in r ==> |x| > 0 && x[|x| - 1] == '.'
  {
    if |items| == 0 then [] else [Sentence(items[0])] + Sentences(items[1..])
  }

  /** The sentences joined by spaces: empty exactly when there are no
      groups, and otherwise ending in a full stop. */
  function Render(items: seq<Item>): (r: string)
    ensures r == "" <==> |items| == 0
    ensures |items| > 0 ==> r[|r| - 1] == '.'
  {
    if |items| == 0 then ""
    else
      JoinEnds(Sentences(items), " ", '.');
      Join(Sentences(items), " ")
  }

  /** Joining strings that all end in `c` gives a string ending in `c`. */
  lemma {:induction false} JoinEnds(xs: seq<string>, sep: string, c: char)
    requires |xs| > 0
    requires forall x :: x in xs ==> |x| > 0 && x[|x| - 1] == c
    ensures |Join(xs, sep)| > 0 && Join(xs, sep)[|Join(xs, sep)| - 1] == c
  {
    assert xs[0] in xs;
    if |xs| > 1 {
      assert forall x :: x in xs[1..] ==> x in xs;
      JoinEnds(xs[1..], sep, c);
    }
  }

  /** The French description of a schedule; empty input gives "". */
  function Decode(s: string): (r: string)
    ensures r == "" <==> s == ""
  {
    if |s| == 0 then ""
    else
      var es := Parse(Compress(s));
      assert es[0] in es && GroupKey(es[0]) in GroupKeys(es);
      GroupAndSortSpec(es);
      Render(GroupAndSort(es))
  }

  // ----------------------------------------------------------------------
  // The imperative form

  /** `groupAndSortEntries`: the grouping loop fills a map, the keys are
      sorted in an array, and each group's product list is sorted in place. */
  method GroupAndSortEntries(s: string) returns (items: seq<Item>)
    ensures items == GroupAndSort(Parse(s))
  {
    var entries := ParseSchedule(s);
    var grouped: map<int, Item> := map[];
    var keys: seq<int> := [];
    var i := 0;
    while i < |entries|
      invariant 0 <= i <= |entries|
      invariant Groups(keys, grouped) == Group(entries[..i])
    {
      var e := entries[i];
      assert entries[..i + 1][..i] == entries[..i];
      var sortKey := GroupKey(e);
      if sortKey !in grouped {
        grouped := grouped[sortKey := NewItem(e)];
        keys := keys + [sortKey];
      }
      match ProductLabel(e.product) {
        case Some(l) =>
          grouped := grouped[sortKey := grouped[sortKey].(productList := grouped[sortKey].productList + [l])];
        case None =>
      }
      i := i + 1;
    }
    assert entries[..i] == entries;
    items := SortGroups(keys, grouped);
  }

  /** The second half of `groupAndSortEntries`: keys in ascending order, and
      for each its item with the product list sorted. */
  method SortGroups(keys: seq<int>, grouped: map<int, Item>) returns (items: seq<Item>)
    requires forall k :: k in keys ==> k in grouped
    ensures items == SortedItems(keys, grouped)
  {
    var sortedKeys := SortedArray(keys, Id);
    ghost var ks := sortedKeys[..];
    SortedKeysPresent(keys, grouped);
    items := [];
    var j := 0;
    while j < sortedKeys.Length
      invariant 0 <= j <= sortedKeys.Length
      invariant sortedKeys[..] == ks
      invariant items == ItemsFor(ks[..j], grouped)
    {
      PrefixStep(ks, j);
      var item := SortItemProducts(grouped[sortedKeys[j]]);
      items := items + [item];
      j := j + 1;
    }
    assert ks[..j] == ks;
  }

  lemma SortedKeysPresent(keys: seq<int>, grouped: map<int, Item>)
    requires forall k :: k in keys ==> k in grouped
    ensures forall i :: 0 <= i < |SortBy(keys, Id)| ==> SortBy(keys, Id)[i] in grouped
  {
    var ks := SortBy(keys, Id);
    assert forall i :: 0 <= i < |ks| ==> ks[i] in multiset(keys);
  }

  lemma PrefixStep<T>(xs: seq<T>, j: nat)
    requires j < |xs|
    ensures xs[..j + 1][..j] == xs[..j] && xs[..j + 1][j] == xs[j]
  {
  }

  /** `item.productList.sort(...)`, in place on an array. */
  method SortItemProducts(item: Item) returns (r: Item)
    ensures r == SortProducts(item)
  {
    var products := SortedArray(item.productList, LabelRank);
    r := item.(productList := products[..]);
  }

  /** `decodePlanning`: compress, group and sort, then format. */
  method DecodePlanning(s: string) returns (r: string)
    ensures r == Decode(s)
  {
    if |s| == 0 {
      return "";
    }
    var compressed := CompressPlanning(s);
    var items := GroupAndSortEntries(compressed);
    r := Render(items);
  }

  // ----------------------------------------------------------------------
  // What the groups hold

  /** The grouping keys that occur in `es`. */
  ghost function GroupKeys(es: seq<Entry>): set<int>
  {
    set e | e in es :: GroupKey(e)
  }

  /** The labels of the recognised product codes of the entries with key
      `k`, in input order. */
  function ProductsOf(es: seq<Entry>, k: int): seq<string>
  {
    if |es| == 0 then []
    else
      var e := es[|es| - 1];
      ProductsOf(es[..|es| - 1], k) +
        if GroupKey(e) == k && ProductLabel(e.product).Some? then [ProductLabel(e.product).value] else []
  }

  /** The item shows entry `e`'s week, day and time labels, and is recurring
      exactly when `e`'s week code is '0'. */
  predicate Describes(it: Item, e: Entry)
  {
    it.week == WeekLabel(e.week) && it.day == DayLabel(e.day) && it.time == TimeLabel(e.time) &&
    it.isRecurring == (e.week == EVERY_WEEK)
  }

  /** Entries that share a grouping key share every label. */
  lemma SameKeySameLabels(a: Entry, b: Entry)
    requires GroupKey(a) == GroupKey(b)
    ensures Describes(NewItem(a), b)
  {
    SameGroupKey(a, b);
    DayTableConsistent(a.day, b.day);
    TimeTableConsistent(a.time, b.time);
  }

  /** The grouping map has one item per grouping key of the input. */
  lemma {:induction false} GroupDomain(es: seq<Entry>)
    ensures forall k :: k in Group(es).items <==> k in GroupKeys(es)
  {
    if |es| > 0 {
      var front, e := es[..|es| - 1], es[|es| - 1];
      assert es == front + [e];
      GroupDomain(front);
      assert GroupKeys(es) == GroupKeys(front) + {GroupKey(e)};
    }
  }

  /** Each item describes every entry with its key. */
  lemma {:induction false} GroupDescribes(es: seq<Entry>)
    ensures forall e :: e in es ==> GroupKey(e) in Group(es).items && Describes(Group(es).items[GroupKey(e)], e)
  {
    if |es| > 0 {
      var front, e := es[..|es| - 1], es[|es| - 1];
      assert es == front + [e];
      GroupDescribes(front);
      GroupDomain(front);
      var g, g' := Group(front), Group(es);
      var k := GroupKey(e);
      forall e' | e' in es ensures GroupKey(e') in g'.items && Describes(g'.items[GroupKey(e')], e') {
        if e' in front {
          assert Describes(g.items[GroupKey(e')], e');
        }
        if e' == e && k in g.items {
          var e0 :| e0 in front && GroupKey(e0) == k;
          SameKeySameLabels(e0, e);
          assert Describes(g.items[k], e0);
        }
      }
    }
  }

  /** Each item holds the labels of its entries' recognised products, in
      input order. */
  lemma {:induction false} GroupProducts(es: seq<Entry>)
    ensures forall k :: k in Group(es).items ==> Group(es).items[k].productList == ProductsOf(es, k)
  {
    if |es| > 0 {
      var front, e := es[..|es| - 1], es[|es| - 1];
      GroupProducts(front);
      GroupDomain(front);
      assert forall k :: k !in Group(front).items ==> ProductsOf(front, k) == [] by {
        forall k | k !in Group(front).items ensures ProductsOf(front, k) == [] {
          ProductsOfAbsent(front, k);
        }
      }
    }
  }

  lemma {:induction false} ProductsOfAbsent(es: seq<Entry>, k: int)
    requires k !in GroupKeys(es)
    ensures ProductsOf(es, k) == []
  {
    if |es| > 0 {
      var front, e := es[..|es| - 1], es[|es| - 1];
      assert es == front + [e];
      assert GroupKeys(es) == GroupKeys(front) + {GroupKey(e)};
      ProductsOfAbsent(front, k);
    }
  }

  /** The group keys in the order the items come out. */
  function SortedKeys(es: seq<Entry>): seq<int>
  {
    SortBy(Group(es).keys, Id)
  }

  lemma {:induction false} ItemsForAt(ks: seq<int>, items: map<int, Item>)
    requires forall i :: 0 <= i < |ks| ==> ks[i] in items
    ensures |ItemsFor(ks, items)| == |ks|
    ensures forall i :: 0 <= i < |ks| ==> ItemsFor(ks, items)[i] == SortProducts(items[ks[i]])
  {
    if |ks| > 0 {
      var front := ks[..|ks| - 1];
      ItemsForAt(front, items);
      var r := ItemsFor(ks, items);
      assert r == ItemsFor(front, items) + [SortProducts(items[ks[|ks| - 1]])];
      forall i | 0 <= i < |ks| ensures r[i] == SortProducts(items[ks[i]]) {
        if i < |ks| - 1 {
          assert front[i] == ks[i];
        }
      }
    }
  }

  /** The sorted keys are the grouping keys of the input, each once, in
      strictly ascending order. */
  lemma SortedKeysSpec(es: seq<Entry>)
    ensures forall k :: k in SortedKeys(es) <==> k in GroupKeys(es)
    ensures StrictlySortedBy(SortedKeys(es), Id)
    ensures |SortedKeys(es)| == |GroupKeys(es)|
  {
    var keys := Group(es).keys;
    GroupDomain(es);
    SortDistinct(keys, Id);
    DistinctElems(keys);
    assert Elems(keys) == GroupKeys(es);
  }

  /** `groupAndSortEntries` yields one item per distinct (week, day, time)
      key of the input, in ascending key order; item `i` describes every
      entry with the `i`-th key, and its product list is the labels of
      their recognised products, sorted Frais < Sec < Surgelé. */
  lemma GroupAndSortSpec(es: seq<Entry>)
    ensures |GroupAndSort(es)| == |SortedKeys(es)| == |GroupKeys(es)|
    ensures StrictlySortedBy(SortedKeys(es), Id)
    ensures forall k :: k in SortedKeys(es) <==> k in GroupKeys(es)
    ensures forall i, e :: 0 <= i < |GroupAndSort(es)| && e in es && GroupKey(e) == SortedKeys(es)[i] ==>
      Describes(GroupAndSort(es)[i], e)
    ensures forall i :: 0 <= i < |GroupAndSort(es)| ==>
      SortedBy(GroupAndSort(es)[i].productList, LabelRank) &&
      multiset(GroupAndSort(es)[i].productList) == multiset(ProductsOf(es, SortedKeys(es)[i]))
  {
    GroupAndSortAt(es);
    GroupDescribes(es);
    GroupProducts(es);
    SortedKeysSpec(es);
  }

  /** Item `i` of the result is the group of the `i`-th sorted key, with its
      products sorted. */
  lemma GroupAndSortAt(es: seq<Entry>)
    ensures |GroupAndSort(es)| == |SortedKeys(es)|
    ensures forall i :: 0 <= i < |SortedKeys(es)| ==>
      SortedKeys(es)[i] in Group(es).items &&
      GroupAndSort(es)[i] == SortProducts(Group(es).items[SortedKeys(es)[i]])
  {
    var g, ks := Group(es), SortedKeys(es);
    GroupDomain(es);
    SortedKeysPresent(g.keys, g.items);
    ItemsForAt(ks, g.items);
  }

  /** The items come out in the order of the source's text keys, compared
      as strings. */
  lemma ItemsInTextKeyOrder(es: seq<Entry>)
    ensures forall i, j, a, b ::
      (0 <= i < j < |SortedKeys(es)| && a in es && b in es &&
       GroupKey(a) == SortedKeys(es)[i] && GroupKey(b) == SortedKeys(es)[j]) ==>
      LexLess(GroupKeyText(a), GroupKeyText(b))
  {
    SortedKeysSpec(es);
    forall i, j, a, b | 0 <= i < j < |SortedKeys(es)| && a in es && b in es &&
        GroupKey(a) == SortedKeys(es)[i] && GroupKey(b) == SortedKeys(es)[j]
      ensures LexLess(GroupKeyText(a), GroupKeyText(b))
    {
      GroupKeyTextOrder(a, b);
    }
  }

  /** The day label of a sentence ends in "s" exactly when the week code is
      '0': no day label (nor "undefined") ends in "s" by itself. */
  lemma PluralDay(it: Item, e: Entry)
    requires Describes(it, e)
    ensures |DayText(it)| > 0
    ensures DayText(it)[|DayText(it)| - 1] == 's' <==> e.week == EVERY_WEEK
  {
  }
}
