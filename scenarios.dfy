/** Worked examples: the expected outputs of the repository's own test files. */
module Scenarios {
  import opened Codes
  import opened Schedule
  import opened Sorting
  import opened Ordering
  import opened Compression
  import opened Canonical
  import opened Rendering

  /** Serialising four entries concatenates their codes. */
  lemma SerializeFour(a: Entry, b: Entry, c: Entry, d: Entry)
    ensures Serialize([a, b, c, d]) == a.Code() + b.Code() + c.Code() + d.Code()
  {
    SerializeAppend([a, b], [c, d]);
    SerializeAppend([a], [b]);
    SerializeAppend([c], [d]);
    assert [a, b] + [c, d] == [a, b, c, d];
    assert Serialize([a]) == a.Code() + Serialize([]);
    assert Serialize([b]) == b.Code() + Serialize([]);
    assert Serialize([c]) == c.Code() + Serialize([]);
    assert Serialize([d]) == d.Code() + Serialize([]);
  }

  function Thursday(w: char): Entry
  {
    Entry(w, "Je", "Md", "Se")
  }

  lemma FourThursdaysCodes()
    ensures Thursday('1').Code() == "1JeMdSe" && Thursday('2').Code() == "2JeMdSe"
    ensures Thursday('3').Code() == "3JeMdSe" && Thursday('4').Code() == "4JeMdSe"
  {
  }

  lemma FourThursdaysSerialize()
    ensures Serialize([Thursday('1'), Thursday('2'), Thursday('3'), Thursday('4')])
         == "1JeMdSe2JeMdSe3JeMdSe4JeMdSe"
  {
    SerializeFour(Thursday('1'), Thursday('2'), Thursday('3'), Thursday('4'));
    FourThursdaysCodes();
    FourThursdaysText();
  }

  lemma FourThursdaysParse()
    ensures Parse("1JeMdSe2JeMdSe3JeMdSe4JeMdSe")
         == [Thursday('1'), Thursday('2'), Thursday('3'), Thursday('4')]
  {
    FourThursdaysSerialize();
    ParseSerialize([Thursday('1'), Thursday('2'), Thursday('3'), Thursday('4')]);
  }

  lemma FourThursdaysText()
    ensures "1JeMdSe2JeMdSe3JeMdSe4JeMdSe" == "1JeMdSe" + "2JeMdSe" + "3JeMdSe" + "4JeMdSe"
  {
  }

  /** All four entries share one suffix, met with the weeks 1 to 4 in turn. */
  lemma FourThursdaysGroups()
    ensures SuffixOrder([Thursday('1'), Thursday('2'), Thursday('3'), Thursday('4')]) == ["JeMdSe"]
    ensures WeeksOf([Thursday('1'), Thursday('2'), Thursday('3'), Thursday('4')], "JeMdSe") == ['1', '2', '3', '4']
  {
    FourThursdaysStep3();
    var front := [Thursday('1'), Thursday('2'), Thursday('3')];
    ThursdayStep(front, '4', ['1', '2', '3']);
    assert front + [Thursday('4')] == [Thursday('1'), Thursday('2'), Thursday('3'), Thursday('4')];
    assert ['1', '2', '3'] + ['4'] == ['1', '2', '3', '4'];
  }

  /** Another Thursday in a new week joins the one suffix group. */
  lemma ThursdayStep(front: seq<Entry>, w: char, ws: seq<char>)
    requires SuffixOrder(front) == ["JeMdSe"] && WeeksOf(front, "JeMdSe") == ws && w !in ws
    ensures SuffixOrder(front + [Thursday(w)]) == ["JeMdSe"]
    ensures WeeksOf(front + [Thursday(w)], "JeMdSe") == ws + [w]
  {
    assert Thursday(w).Suffix() == "JeMdSe";
    SuffixOrderSnoc(front, Thursday(w));
    WeeksOfSnoc(front, Thursday(w), "JeMdSe");
  }

  lemma FourThursdaysStep2()
    ensures SuffixOrder([Thursday('1'), Thursday('2')]) == ["JeMdSe"]
    ensures WeeksOf([Thursday('1'), Thursday('2')], "JeMdSe") == ['1', '2']
  {
    var t1, t2 := Thursday('1'), Thursday('2');
    assert t1.Suffix() == "JeMdSe";
    SuffixOrderSnoc([], t1);
    WeeksOfSnoc([], t1, "JeMdSe");
    assert [] + [t1] == [t1];
    ThursdayStep([t1], '2', ['1']);
    assert [t1] + [t2] == [t1, t2];
  }

  lemma FourThursdaysStep3()
    ensures SuffixOrder([Thursday('1'), Thursday('2'), Thursday('3')]) == ["JeMdSe"]
    ensures WeeksOf([Thursday('1'), Thursday('2'), Thursday('3')], "JeMdSe") == ['1', '2', '3']
  {
    FourThursdaysStep2();
    var front := [Thursday('1'), Thursday('2')];
    ThursdayStep(front, '3', ['1', '2']);
    assert front + [Thursday('3')] == [Thursday('1'), Thursday('2'), Thursday('3')];
    assert ['1', '2'] + ['3'] == ['1', '2', '3'];
  }

  /** Every week 1 to 4 carries Thursday 8h30 dry goods: one "every week" block. */
  lemma CompressFourWeeks()
    ensures Compress("1JeMdSe2JeMdSe3JeMdSe4JeMdSe") == "0JeMdSe"
  {
    var es := [Thursday('1'), Thursday('2'), Thursday('3'), Thursday('4')];
    FourThursdaysParse();
    FourThursdaysGroups();
    ThursdayGroup();
    EmitAllOne("JeMdSe", es);
    SerializeEveryThursday();
  }

  /** One suffix group emits its blocks alone. */
  lemma EmitAllOne(x: string, es: seq<Entry>)
    ensures EmitAll([x], es) == EmitGroup(x, WeeksOf(es, x))
  {
    assert [x][..0] == [];
  }

  lemma SerializeEveryThursday()
    ensures Serialize([Thursday('0')]) == "0JeMdSe"
  {
    assert Serialize([Thursday('0')]) == Thursday('0').Code() + Serialize([]);
  }

  // ----------------------------------------------------------------------
  // Two blocks with different suffixes

  lemma BlockOfCode(e: Entry)
    requires Full(e)
    ensures BlockEntry(e.Code()) == e
  {
    var c := e.Code();
    assert c == [e.week] + e.day + e.time + e.product;
    assert c[1..3] == e.day && c[3..5] == e.time && c[5..7] == e.product;
  }

  lemma SerializeTwo(a: Entry, b: Entry)
    ensures Serialize([a, b]) == a.Code() + b.Code()
  {
    SerializeAppend([a], [b]);
    assert [a] + [b] == [a, b];
    assert Serialize([a]) == a.Code() + Serialize([]);
    assert Serialize([b]) == b.Code() + Serialize([]);
  }

  /** A group of one week emits that week's block unchanged. */
  lemma SingleWeekGroup(e: Entry)
    requires Full(e)
    ensures EmitGroup(e.Suffix(), [e.week]) == [e]
  {
    assert !HasAllWeeks([e.week]) by {
      assert |REQUIRED_WEEKS| == 4 by {
        assert REQUIRED_WEEKS == {'1'} + {'2'} + {'3'} + {'4'};
      }
    }
    assert SortBy([e.week], CharKey) == [e.week] by {
      assert [e.week][..0] == [];
    }
    BlockOfCode(e);
  }

  /** Two blocks with different suffixes make two groups of one week each. */
  lemma GroupsTwo(a: Entry, b: Entry)
    requires a.Suffix() != b.Suffix()
    ensures SuffixOrder([a, b]) == [a.Suffix(), b.Suffix()]
    ensures WeeksOf([a, b], a.Suffix()) == [a.week]
    ensures WeeksOf([a, b], b.Suffix()) == [b.week]
  {
    SuffixOrderSnoc([], a);
    assert [] + [a] == [a];
    SuffixOrderSnoc([a], b);
    assert [a] + [b] == [a, b];
    WeeksOfSnoc([], a, a.Suffix());
    WeeksOfSnoc([a], b, a.Suffix());
    WeeksOfSnoc([], a, b.Suffix());
    WeeksOfSnoc([a], b, b.Suffix());
  }

  /** Two blocks with different suffixes compress to themselves. */
  lemma CompressTwo(a: Entry, b: Entry)
    requires Full(a) && Full(b) && a.Suffix() != b.Suffix()
    ensures CompressEntries([a, b]) == [a, b]
  {
    GroupsTwo(a, b);
    SingleWeekGroup(a);
    SingleWeekGroup(b);
    EmitAllTwo(a.Suffix(), b.Suffix(), [a, b]);
  }

  /** Two suffix groups emit one after the other. */
  lemma EmitAllTwo(x: string, y: string, es: seq<Entry>)
    ensures EmitAll([x, y], es) == EmitGroup(x, WeeksOf(es, x)) + EmitGroup(y, WeeksOf(es, y))
  {
    assert [x, y][..1] == [x];
    EmitAllOne(x, es);
    assert EmitAll([] + [x], es) == EmitAll([x], es);
  }

  /** Sorting two elements swaps them exactly when the second has the smaller key. */
  lemma SortTwo<T>(x: T, y: T, key: T -> int)
    ensures SortBy([x, y], key) == if key(y) < key(x) then [y, x] else [x, y]
  {
    assert [x, y][..1] == [x];
    SortOne(x, key);
    assert SortBy([x, y], key) == Insert([x], y, key);
    if key(y) < key(x) {
      assert [x][..0] == [];
      assert InsertPos([x], y, key) == 0;
    } else {
      assert InsertPos([x], y, key) == 1;
    }
  }

  /** Two blocks with different suffixes are their own compression. */
  lemma CompressTwoText(a: Entry, b: Entry)
    requires Full(a) && Full(b) && a.Suffix() != b.Suffix()
    ensures Parse(a.Code() + b.Code()) == [a, b]
    ensures Compress(a.Code() + b.Code()) == a.Code() + b.Code()
  {
    SerializeTwo(a, b);
    ParseSerialize([a, b]);
    CompressTwo(a, b);
  }

  lemma CanonicalTwoSorted(a: Entry, b: Entry)
    requires Full(a) && Full(b) && a.Suffix() != b.Suffix()
    ensures Canonicalize(a.Code() + b.Code()) == Serialize(SortBy([a, b], EntryKey))
  {
    CompressTwoText(a, b);
  }

  /** The canonical form of two blocks with different suffixes orders them by key. */
  lemma CanonicalTwo(a: Entry, b: Entry)
    requires Full(a) && Full(b) && a.Suffix() != b.Suffix()
    ensures Canonicalize(a.Code() + b.Code())
         == if EntryKey(b) < EntryKey(a) then b.Code() + a.Code() else a.Code() + b.Code()
  {
    CanonicalTwoSorted(a, b);
    SortTwo(a, b, EntryKey);
    if EntryKey(b) < EntryKey(a) {
      SerializeTwo(b, a);
    } else {
      SerializeTwo(a, b);
    }
  }

  lemma ProductOrderCodes(a: Entry, b: Entry)
    requires a == Entry('1', "Ma", "Md", "Se") && b == Entry('1', "Ma", "Md", "Fr")
    ensures a.Code() + b.Code() == "1MaMdSe1MaMdFr" && b.Code() + a.Code() == "1MaMdFr1MaMdSe"
    ensures Full(a) && Full(b) && a.Suffix() != b.Suffix() && EntryKey(b) < EntryKey(a)
  {
    assert a.Suffix()[5] != b.Suffix()[5];
  }

  /** Same slot, two products: Frais is listed before Sec. */
  lemma CanonicalProductOrder()
    ensures Canonicalize("1MaMdSe1MaMdFr") == "1MaMdFr1MaMdSe"
  {
    var a, b := Entry('1', "Ma", "Md", "Se"), Entry('1', "Ma", "Md", "Fr");
    ProductOrderCodes(a, b);
    CanonicalTwo(a, b);
  }

  lemma DayOrderCodes(a: Entry, b: Entry)
    requires a == Entry('1', "Je", "Md", "Se") && b == Entry('1', "Ma", "Md", "Fr")
    ensures a.Code() + b.Code() == "1JeMdSe1MaMdFr" && b.Code() + a.Code() == "1MaMdFr1JeMdSe"
    ensures Full(a) && Full(b) && a.Suffix() != b.Suffix() && EntryKey(b) < EntryKey(a)
  {
    assert a.Suffix()[0] != b.Suffix()[0];
    TuesdayBeforeThursday();
  }

  lemma TuesdayBeforeThursday()
    ensures EntryKey(Entry('1', "Ma", "Md", "Fr")) < EntryKey(Entry('1', "Je", "Md", "Se"))
  {
    assert DayRank("Ma") == 1 && DayRank("Je") == 3;
  }

  /** Same week: Tuesday comes before Thursday. */
  lemma CanonicalDayOrder()
    ensures Canonicalize("1JeMdSe1MaMdFr") == "1MaMdFr1JeMdSe"
  {
    var a, b := Entry('1', "Je", "Md", "Se"), Entry('1', "Ma", "Md", "Fr");
    DayOrderCodes(a, b);
    CanonicalTwo(a, b);
  }

  lemma WeekOrderCodes(a: Entry, b: Entry)
    requires a == Entry('2', "Ma", "Md", "Se") && b == Entry('1', "Ma", "Md", "Fr")
    ensures a.Code() + b.Code() == "2MaMdSe1MaMdFr" && b.Code() + a.Code() == "1MaMdFr2MaMdSe"
    ensures Full(a) && Full(b) && a.Suffix() != b.Suffix() && EntryKey(b) < EntryKey(a)
  {
    assert a.Suffix()[5] != b.Suffix()[5];
  }

  /** Week 1 comes before week 2. */
  lemma CanonicalWeekOrder()
    ensures Canonicalize("2MaMdSe1MaMdFr") == "1MaMdFr2MaMdSe"
  {
    var a, b := Entry('2', "Ma", "Md", "Se"), Entry('1', "Ma", "Md", "Fr");
    WeekOrderCodes(a, b);
    CanonicalTwo(a, b);
  }

  // ----------------------------------------------------------------------
  // Decoding two blocks with different suffixes

  /** Two blocks with different suffixes are decoded without change by the
      compression step. */
  lemma DecodeTwo(a: Entry, b: Entry)
    requires Full(a) && Full(b) && a.Suffix() != b.Suffix()
    ensures Decode(a.Code() + b.Code()) == Render(GroupAndSort([a, b]))
  {
    var s := a.Code() + b.Code();
    SerializeTwo(a, b);
    ParseSerialize([a, b]);
    CompressTwo(a, b);
  }

  /** The item made from one entry with a recognised product. */
  function Single(e: Entry, l: string): Item
  {
    NewItem(e).(productList := [l])
  }

  lemma GroupOne(a: Entry, la: string)
    requires ProductLabel(a.product) == Some(la)
    ensures Group([a]) == Groups([GroupKey(a)], map[GroupKey(a) := Single(a, la)])
  {
    var k := GroupKey(a);
    assert [a][..0] == [];
    assert Group([a]) == AddEntry(Groups([], map[]), a);
    var m: map<int, Item> := map[k := NewItem(a)];
    assert m[k].productList + [la] == [la];
    assert m[k := m[k].(productList := m[k].productList + [la])] == map[k := Single(a, la)];
  }

  /** Adding an entry whose key is already present appends its product. */
  lemma AddSameSlot(a: Entry, b: Entry, la: string, lb: string)
    requires GroupKey(a) == GroupKey(b)
    requires ProductLabel(b.product) == Some(lb)
    ensures AddEntry(Groups([GroupKey(a)], map[GroupKey(a) := Single(a, la)]), b)
         == Groups([GroupKey(a)], map[GroupKey(a) := NewItem(a).(productList := [la, lb])])
  {
    var k := GroupKey(a);
    var m := map[k := Single(a, la)];
    assert m[k].productList + [lb] == [la, lb];
    assert m[k := m[k].(productList := m[k].productList + [lb])] == map[k := NewItem(a).(productList := [la, lb])];
  }

  /** Adding an entry with a new key appends a new item. */
  lemma AddNewSlot(a: Entry, b: Entry, la: string, lb: string)
    requires GroupKey(a) != GroupKey(b)
    requires ProductLabel(b.product) == Some(lb)
    ensures AddEntry(Groups([GroupKey(a)], map[GroupKey(a) := Single(a, la)]), b)
         == Groups([GroupKey(a), GroupKey(b)], map[GroupKey(a) := Single(a, la), GroupKey(b) := Single(b, lb)])
  {
    var ka, kb := GroupKey(a), GroupKey(b);
    var m := map[ka := Single(a, la)][kb := NewItem(b)];
    assert m[kb].productList + [lb] == [lb];
    assert m[kb := m[kb].(productList := m[kb].productList + [lb])]
        == map[ka := Single(a, la), kb := Single(b, lb)];
  }

  lemma SortProductsSingle(e: Entry, l: string)
    ensures SortProducts(Single(e, l)) == Single(e, l)
  {
    assert [l][..0] == [];
    assert SortBy([l], LabelRank) == [l];
  }

  lemma GroupSameSlot(a: Entry, b: Entry, la: string, lb: string)
    requires GroupKey(a) == GroupKey(b)
    requires ProductLabel(a.product) == Some(la) && ProductLabel(b.product) == Some(lb)
    ensures Group([a, b]) == Groups([GroupKey(a)], map[GroupKey(a) := NewItem(a).(productList := [la, lb])])
  {
    GroupOne(a, la);
    AddSameSlot(a, b, la, lb);
    assert [a, b][..1] == [a];
  }

  lemma GroupTwoSlots(a: Entry, b: Entry, la: string, lb: string)
    requires GroupKey(a) != GroupKey(b)
    requires ProductLabel(a.product) == Some(la) && ProductLabel(b.product) == Some(lb)
    ensures Group([a, b])
         == Groups([GroupKey(a), GroupKey(b)], map[GroupKey(a) := Single(a, la), GroupKey(b) := Single(b, lb)])
  {
    GroupOne(a, la);
    AddNewSlot(a, b, la, lb);
    assert [a, b][..1] == [a];
  }

  lemma SortedItemsOne(k: int, items: map<int, Item>)
    requires k in items
    ensures SortedItems([k], items) == [SortProducts(items[k])]
  {
    assert [k][..0] == [];
    assert SortBy([k], Id) == [k];
    assert ItemsFor([k], items) == ItemsFor([], items) + [SortProducts(items[k])];
  }

  lemma SortedItemsTwo(k1: int, k2: int, items: map<int, Item>)
    requires k1 in items && k2 in items
    ensures SortedItems([k1, k2], items)
         == if k2 < k1 then [SortProducts(items[k2]), SortProducts(items[k1])]
            else [SortProducts(items[k1]), SortProducts(items[k2])]
  {
    SortTwo(k1, k2, Id);
    if k2 < k1 {
      ItemsForTwo(k2, k1, items);
    } else {
      ItemsForTwo(k1, k2, items);
    }
  }

  lemma ItemsForTwo(x: int, y: int, items: map<int, Item>)
    requires x in items && y in items
    ensures ItemsFor([x, y], items) == [SortProducts(items[x]), SortProducts(items[y])]
  {
    assert [x, y][..1] == [x] && [x][..0] == [];
    assert ItemsFor([x], items) == ItemsFor([], items) + [SortProducts(items[x])];
  }

  /** Two entries in one slot make one item holding both products, sorted. */
  lemma GroupAndSortSameSlot(a: Entry, b: Entry, la: string, lb: string)
    requires GroupKey(a) == GroupKey(b)
    requires ProductLabel(a.product) == Some(la) && ProductLabel(b.product) == Some(lb)
    ensures GroupAndSort([a, b]) == [NewItem(a).(productList := SortBy([la, lb], LabelRank))]
  {
    var k := GroupKey(a);
    GroupSameSlot(a, b, la, lb);
    SortedItemsOne(k, map[k := NewItem(a).(productList := [la, lb])]);
  }

  /** Two entries in two slots make two items, in ascending key order. */
  lemma GroupAndSortTwoSlots(a: Entry, b: Entry, la: string, lb: string)
    requires GroupKey(a) != GroupKey(b)
    requires ProductLabel(a.product) == Some(la) && ProductLabel(b.product) == Some(lb)
    ensures GroupAndSort([a, b])
         == if GroupKey(b) < GroupKey(a) then [Single(b, lb), Single(a, la)] else [Single(a, la), Single(b, lb)]
  {
    var ka, kb := GroupKey(a), GroupKey(b);
    var items := map[ka := Single(a, la), kb := Single(b, lb)];
    GroupTwoSlots(a, b, la, lb);
    assert GroupAndSort([a, b]) == SortedItems([ka, kb], items);
    assert items[ka] == Single(a, la) && items[kb] == Single(b, lb);
    SortedItemsTwo(ka, kb, items);
    SortProductsSingle(a, la);
    SortProductsSingle(b, lb);
  }

  lemma RenderOne(x: Item)
    ensures Render([x]) == Sentence(x)
  {
    assert [x][1..] == [];
    assert Sentences([x]) == [Sentence(x)] + [];
    assert [Sentence(x)] + [] == [Sentence(x)];
  }

  lemma RenderTwo(x: Item, y: Item)
    ensures Render([x, y]) == Sentence(x) + " " + Sentence(y)
  {
    assert [x, y][1..] == [y] && [y][1..] == [];
    assert Sentences([y]) == [Sentence(y)] + [];
    assert Sentences([x, y]) == [Sentence(x)] + Sentences([y]);
    assert [Sentence(x)] + ([Sentence(y)] + []) == [Sentence(x), Sentence(y)];
    var ss := [Sentence(x), Sentence(y)];
    assert Join(ss, " ") == ss[0] + " " + Join(ss[1..], " ");
    assert Join(ss[1..], " ") == Sentence(y);
    assert [Sentence(x), Sentence(y)][1..] == [Sentence(y)];
  }

  lemma DecodeSameSlot(a: Entry, b: Entry, la: string, lb: string)
    requires Full(a) && Full(b) && a.Suffix() != b.Suffix() && GroupKey(a) == GroupKey(b)
    requires ProductLabel(a.product) == Some(la) && ProductLabel(b.product) == Some(lb)
    ensures Decode(a.Code() + b.Code()) == Sentence(NewItem(a).(productList := SortBy([la, lb], LabelRank)))
  {
    DecodeTwo(a, b);
    GroupAndSortSameSlot(a, b, la, lb);
    RenderOne(NewItem(a).(productList := SortBy([la, lb], LabelRank)));
  }

  lemma DecodeTwoSlots(a: Entry, b: Entry, la: string, lb: string)
    requires Full(a) && Full(b) && a.Suffix() != b.Suffix() && GroupKey(a) != GroupKey(b)
    requires ProductLabel(a.product) == Some(la) && ProductLabel(b.product) == Some(lb)
    ensures Decode(a.Code() + b.Code())
         == if GroupKey(b) < GroupKey(a) then Sentence(Single(b, lb)) + " " + Sentence(Single(a, la))
            else Sentence(Single(a, la)) + " " + Sentence(Single(b, lb))
  {
    DecodeTwo(a, b);
    GroupAndSortTwoSlots(a, b, la, lb);
    RenderTwo(Single(a, la), Single(b, lb));
    RenderTwo(Single(b, lb), Single(a, la));
  }

  lemma SameSlotFacts(a: Entry, b: Entry)
    requires a == Entry('1', "Ma", "Md", "Se") && b == Entry('1', "Ma", "Md", "Fr")
    ensures a.Code() + b.Code() == "1MaMdSe1MaMdFr"
    ensures Full(a) && Full(b) && a.Suffix() != b.Suffix() && GroupKey(a) == GroupKey(b)
    ensures ProductLabel(a.product) == Some("Sec") && ProductLabel(b.product) == Some("Frais")
  {
    assert a.Suffix()[5] != b.Suffix()[5];
  }

  lemma SortFraisSec()
    ensures SortBy(["Sec", "Frais"], LabelRank) == ["Frais", "Sec"]
  {
    var x, y := "Sec", "Frais";
    assert LabelRank(y) < LabelRank(x) by {
      assert x != y;
      assert LabelRank(x) == 2 && LabelRank(y) == 1;
    }
    SortTwo(x, y, LabelRank);
  }

  lemma SameSlotText(a: Entry)
    requires a == Entry('1', "Ma", "Md", "Se")
    ensures Sentence(NewItem(a).(productList := ["Frais", "Sec"])) == "1er mardi 8h30: Frais, Sec."
  {
    var it := NewItem(a).(productList := ["Frais", "Sec"]);
    assert Text(it.week) == "1er" && DayText(it) == "mardi" && Text(it.time) == "8h30";
    assert Join(["Frais", "Sec"], ", ") == "Frais, Sec" by {
      assert ["Frais", "Sec"][1..] == ["Sec"];
    }
    SameSlotWords();
  }

  lemma SameSlotWords()
    ensures "1er" + " " + "mardi" + " " + "8h30" + ": " + "Frais, Sec" + "." == "1er mardi 8h30: Frais, Sec."
  {
  }

  /** Two products in one slot share one sentence, Frais first. */
  lemma DecodeSameSlotExample()
    ensures Decode("1MaMdSe1MaMdFr") == "1er mardi 8h30: Frais, Sec."
  {
    var a, b := Entry('1', "Ma", "Md", "Se"), Entry('1', "Ma", "Md", "Fr");
    SameSlotFacts(a, b);
    SortFraisSec();
    DecodeSameSlot(a, b, "Sec", "Frais");
    SameSlotText(a);
  }


  /** The sentence of a one-product item of a numbered week. */
  lemma SingleSentence(e: Entry, l: string, w: string, d: string, t: string, text: string)
    requires e.week != EVERY_WEEK
    requires WeekLabel(e.week) == Some(w) && DayLabel(e.day) == Some(d) && TimeLabel(e.time) == Some(t)
    requires text == w + " " + d + " " + t + ": " + l + "."
    ensures Sentence(Single(e, l)) == text
  {
    assert Join([l], ", ") == l;
  }

  lemma Words1JeMdSe()
    ensures "1er" + " " + "jeudi" + " " + "8h30" + ": " + "Sec" + "." == "1er jeudi 8h30: Sec."
  {
  }

  lemma Words1MaMdFr()
    ensures "1er" + " " + "mardi" + " " + "8h30" + ": " + "Frais" + "." == "1er mardi 8h30: Frais."
  {
  }

  lemma Words2MaMdSe()
    ensures "2e" + " " + "mardi" + " " + "8h30" + ": " + "Sec" + "." == "2e mardi 8h30: Sec."
  {
  }

  lemma Words1MaMdSe()
    ensures "1er" + " " + "mardi" + " " + "8h30" + ": " + "Sec" + "." == "1er mardi 8h30: Sec."
  {
  }

  lemma Words1MaMfFr()
    ensures "1er" + " " + "mardi" + " " + "10h00" + ": " + "Frais" + "." == "1er mardi 10h00: Frais."
  {
  }

  lemma Words1MaApSe()
    ensures "1er" + " " + "mardi" + " " + "14h00" + ": " + "Sec" + "." == "1er mardi 14h00: Sec."
  {
  }

  lemma WeekdayFacts(a: Entry, b: Entry)
    requires a == Entry('1', "Je", "Md", "Se") && b == Entry('1', "Ma", "Md", "Fr")
    ensures a.Code() + b.Code() == "1JeMdSe1MaMdFr"
    ensures Full(a) && Full(b) && a.Suffix() != b.Suffix() && GroupKey(b) < GroupKey(a)
    ensures ProductLabel(a.product) == Some("Sec") && ProductLabel(b.product) == Some("Frais")
  {
    assert a.Suffix()[0] != b.Suffix()[0];
  }

  lemma WeekdayText(a: Entry, b: Entry)
    requires a == Entry('1', "Je", "Md", "Se") && b == Entry('1', "Ma", "Md", "Fr")
    ensures Sentence(Single(a, "Sec")) == "1er jeudi 8h30: Sec."
    ensures Sentence(Single(b, "Frais")) == "1er mardi 8h30: Frais."
  {
    Words1JeMdSe();
    Words1MaMdFr();
    SingleSentence(a, "Sec", "1er", "jeudi", "8h30", "1er jeudi 8h30: Sec.");
    SingleSentence(b, "Frais", "1er", "mardi", "8h30", "1er mardi 8h30: Frais.");
  }

  lemma WeekdayJoined()
    ensures "1er mardi 8h30: Frais." + " " + "1er jeudi 8h30: Sec." == "1er mardi 8h30: Frais. 1er jeudi 8h30: Sec."
  {
  }

  /** Tuesday comes before Thursday in week 1. */
  lemma DecodeWeekdayExample()
    ensures Decode("1JeMdSe1MaMdFr") == "1er mardi 8h30: Frais. 1er jeudi 8h30: Sec."
  {
    var a, b := Entry('1', "Je", "Md", "Se"), Entry('1', "Ma", "Md", "Fr");
    WeekdayFacts(a, b);
    DecodeTwoSlots(a, b, "Sec", "Frais");
    WeekdayText(a, b);
    WeekdayJoined();
  }

  lemma WeekFacts(a: Entry, b: Entry)
    requires a == Entry('2', "Ma", "Md", "Se") && b == Entry('1', "Ma", "Md", "Fr")
    ensures a.Code() + b.Code() == "2MaMdSe1MaMdFr"
    ensures Full(a) && Full(b) && a.Suffix() != b.Suffix() && GroupKey(b) < GroupKey(a)
    ensures ProductLabel(a.product) == Some("Sec") && ProductLabel(b.product) == Some("Frais")
  {
    assert a.Suffix()[4] != b.Suffix()[4];
  }

  lemma WeekText(a: Entry, b: Entry)
    requires a == Entry('2', "Ma", "Md", "Se") && b == Entry('1', "Ma", "Md", "Fr")
    ensures Sentence(Single(a, "Sec")) == "2e mardi 8h30: Sec."
    ensures Sentence(Single(b, "Frais")) == "1er mardi 8h30: Frais."
  {
    Words2MaMdSe();
    Words1MaMdFr();
    SingleSentence(a, "Sec", "2e", "mardi", "8h30", "2e mardi 8h30: Sec.");
    SingleSentence(b, "Frais", "1er", "mardi", "8h30", "1er mardi 8h30: Frais.");
  }

  lemma WeekJoined()
    ensures "1er mardi 8h30: Frais." + " " + "2e mardi 8h30: Sec." == "1er mardi 8h30: Frais. 2e mardi 8h30: Sec."
  {
  }

  /** Week 1 comes before week 2. */
  lemma DecodeWeekExample()
    ensures Decode("2MaMdSe1MaMdFr") == "1er mardi 8h30: Frais. 2e mardi 8h30: Sec."
  {
    var a, b := Entry('2', "Ma", "Md", "Se"), Entry('1', "Ma", "Md", "Fr");
    WeekFacts(a, b);
    DecodeTwoSlots(a, b, "Sec", "Frais");
    WeekText(a, b);
    WeekJoined();
  }

  lemma MorningFacts(a: Entry, b: Entry)
    requires a == Entry('1', "Ma", "Md", "Se") && b == Entry('1', "Ma", "Mf", "Fr")
    ensures a.Code() + b.Code() == "1MaMdSe1MaMfFr"
    ensures Full(a) && Full(b) && a.Suffix() != b.Suffix() && GroupKey(a) < GroupKey(b)
    ensures ProductLabel(a.product) == Some("Sec") && ProductLabel(b.product) == Some("Frais")
  {
    assert a.Suffix()[3] != b.Suffix()[3];
  }

  lemma MorningText(a: Entry, b: Entry)
    requires a == Entry('1', "Ma", "Md", "Se") && b == Entry('1', "Ma", "Mf", "Fr")
    ensures Sentence(Single(a, "Sec")) == "1er mardi 8h30: Sec."
    ensures Sentence(Single(b, "Frais")) == "1er mardi 10h00: Frais."
  {
    Words1MaMdSe();
    Words1MaMfFr();
    SingleSentence(a, "Sec", "1er", "mardi", "8h30", "1er mardi 8h30: Sec.");
    SingleSentence(b, "Frais", "1er", "mardi", "10h00", "1er mardi 10h00: Frais.");
  }

  lemma MorningJoined()
    ensures "1er mardi 8h30: Sec." + " " + "1er mardi 10h00: Frais." == "1er mardi 8h30: Sec. 1er mardi 10h00: Frais."
  {
  }

  /** 8h30 comes before 10h00. */
  lemma DecodeMorningExample()
    ensures Decode("1MaMdSe1MaMfFr") == "1er mardi 8h30: Sec. 1er mardi 10h00: Frais."
  {
    var a, b := Entry('1', "Ma", "Md", "Se"), Entry('1', "Ma", "Mf", "Fr");
    MorningFacts(a, b);
    DecodeTwoSlots(a, b, "Sec", "Frais");
    MorningText(a, b);
    MorningJoined();
  }

  lemma AfternoonFacts(a: Entry, b: Entry)
    requires a == Entry('1', "Ma", "Ap", "Se") && b == Entry('1', "Ma", "Md", "Fr")
    ensures a.Code() + b.Code() == "1MaApSe1MaMdFr"
    ensures Full(a) && Full(b) && a.Suffix() != b.Suffix() && GroupKey(b) < GroupKey(a)
    ensures ProductLabel(a.product) == Some("Sec") && ProductLabel(b.product) == Some("Frais")
  {
    assert a.Suffix()[2] != b.Suffix()[2];
  }

  lemma AfternoonText(a: Entry, b: Entry)
    requires a == Entry('1', "Ma", "Ap", "Se") && b == Entry('1', "Ma", "Md", "Fr")
    ensures Sentence(Single(a, "Sec")) == "1er mardi 14h00: Sec."
    ensures Sentence(Single(b, "Frais")) == "1er mardi 8h30: Frais."
  {
    Words1MaApSe();
    Words1MaMdFr();
    SingleSentence(a, "Sec", "1er", "mardi", "14h00", "1er mardi 14h00: Sec.");
    SingleSentence(b, "Frais", "1er", "mardi", "8h30", "1er mardi 8h30: Frais.");
  }

  lemma AfternoonJoined()
    ensures "1er mardi 8h30: Frais." + " " + "1er mardi 14h00: Sec." == "1er mardi 8h30: Frais. 1er mardi 14h00: Sec."
  {
  }

  /** 8h30 comes before 14h00. */
  lemma DecodeAfternoonExample()
    ensures Decode("1MaApSe1MaMdFr") == "1er mardi 8h30: Frais. 1er mardi 14h00: Sec."
  {
    var a, b := Entry('1', "Ma", "Ap", "Se"), Entry('1', "Ma", "Md", "Fr");
    AfternoonFacts(a, b);
    DecodeTwoSlots(a, b, "Sec", "Frais");
    AfternoonText(a, b);
    AfternoonJoined();
  }

  lemma OrderedFacts(a: Entry, b: Entry)
    requires a == Entry('1', "Ma", "Md", "Fr") && b == Entry('1', "Ma", "Ap", "Se")
    ensures a.Code() + b.Code() == "1MaMdFr1MaApSe"
    ensures Full(a) && Full(b) && a.Suffix() != b.Suffix() && GroupKey(a) < GroupKey(b)
    ensures ProductLabel(a.product) == Some("Frais") && ProductLabel(b.product) == Some("Sec")
  {
    assert a.Suffix()[2] != b.Suffix()[2];
  }

  lemma OrderedText(a: Entry, b: Entry)
    requires a == Entry('1', "Ma", "Md", "Fr") && b == Entry('1', "Ma", "Ap", "Se")
    ensures Sentence(Single(a, "Frais")) == "1er mardi 8h30: Frais."
    ensures Sentence(Single(b, "Sec")) == "1er mardi 14h00: Sec."
  {
    Words1MaMdFr();
    Words1MaApSe();
    SingleSentence(a, "Frais", "1er", "mardi", "8h30", "1er mardi 8h30: Frais.");
    SingleSentence(b, "Sec", "1er", "mardi", "14h00", "1er mardi 14h00: Sec.");
  }

  lemma OrderedJoined()
    ensures "1er mardi 8h30: Frais." + " " + "1er mardi 14h00: Sec." == "1er mardi 8h30: Frais. 1er mardi 14h00: Sec."
  {
  }

  /** Slots already in order stay in order. */
  lemma DecodeOrderedExample()
    ensures Decode("1MaMdFr1MaApSe") == "1er mardi 8h30: Frais. 1er mardi 14h00: Sec."
  {
    var a, b := Entry('1', "Ma", "Md", "Fr"), Entry('1', "Ma", "Ap", "Se");
    OrderedFacts(a, b);
    DecodeTwoSlots(a, b, "Frais", "Sec");
    OrderedText(a, b);
    OrderedJoined();
  }

  lemma GroupAndSortOne(e: Entry, l: string)
    requires ProductLabel(e.product) == Some(l)
    ensures GroupAndSort([e]) == [Single(e, l)]
  {
    GroupOne(e, l);
    SortedItemsOne(GroupKey(e), map[GroupKey(e) := Single(e, l)]);
    SortProductsSingle(e, l);
  }

  lemma EveryThursdayParse()
    ensures Parse("0JeMdSe") == [Thursday('0')]
  {
    var e := Thursday('0');
    ParseSerialize([e]);
    assert Serialize([e]) == e.Code() + Serialize([]);
    assert e.Code() + "" == e.Code() == "0JeMdSe";
  }

  lemma EveryThursdayText()
    ensures Sentence(Single(Thursday('0'), "Sec")) == "Tous les jeudis 8h30: Sec."
  {
    var it := Single(Thursday('0'), "Sec");
    assert Text(it.week) == "Tous les" && DayText(it) == "jeudi" + "s" && Text(it.time) == "8h30";
    assert Join(["Sec"], ", ") == "Sec";
    EveryThursdayWords();
  }

  lemma EveryThursdayWords()
    ensures "Tous les" + " " + ("jeudi" + "s") + " " + "8h30" + ": " + "Sec" + "." == "Tous les jeudis 8h30: Sec."
  {
  }

  /** Weeks 1 to 4 together read as "every Thursday", with the plural day. */
  lemma DecodeFourWeeksExample()
    ensures Decode("1JeMdSe2JeMdSe3JeMdSe4JeMdSe") == "Tous les jeudis 8h30: Sec."
  {
    var e := Thursday('0');
    CompressFourWeeks();
    EveryThursdayParse();
    GroupAndSortOne(e, "Sec");
    RenderOne(Single(e, "Sec"));
    EveryThursdayText();
  }

  // ----------------------------------------------------------------------
  // Canonical form after compression

  lemma SortOne<T>(x: T, key: T -> int)
    ensures SortBy([x], key) == [x]
  {
    assert [x][..0] == [];
  }

  /** A non-empty schedule's canonical form is its compressed entries,
      sorted by key and joined. */
  lemma CanonicalSteps(s: string)
    requires s != ""
    ensures Canonicalize(s) == Serialize(SortBy(Parse(Compress(s)), EntryKey))
  {
  }

  /** A schedule that compresses to a single block is its own canonical form. */
  lemma CanonicalFourWeeks()
    ensures Canonicalize("1JeMdSe2JeMdSe3JeMdSe4JeMdSe") == "0JeMdSe"
  {
    var s := "1JeMdSe2JeMdSe3JeMdSe4JeMdSe";
    CanonicalSteps(s);
    CompressFourWeeks();
    EveryThursdayParse();
    SortOne(Thursday('0'), EntryKey);
    SerializeEveryThursday();
  }

  function TuesdayFresh(): Entry
  {
    Entry('1', "Ma", "Md", "Fr")
  }

  lemma MixedText()
    ensures "1JeMdSe1MaMdFr2JeMdSe3JeMdSe4JeMdSe"
         == "1JeMdSe" + "1MaMdFr" + "2JeMdSe" + "3JeMdSe" + "4JeMdSe"
  {
  }

  lemma SerializeFive(a: Entry, b: Entry, c: Entry, d: Entry, e: Entry)
    ensures Serialize([a, b, c, d, e]) == a.Code() + b.Code() + c.Code() + d.Code() + e.Code()
  {
    SerializeAppend([a, b], [c, d, e]);
    SerializeTwo(a, b);
    SerializeThree(c, d, e);
    assert [a, b] + [c, d, e] == [a, b, c, d, e];
  }

  lemma MixedCodes()
    ensures Thursday('1').Code() == "1JeMdSe" && TuesdayFresh().Code() == "1MaMdFr"
    ensures Thursday('2').Code() == "2JeMdSe" && Thursday('3').Code() == "3JeMdSe"
    ensures Thursday('4').Code() == "4JeMdSe"
  {
  }

  lemma MixedSerialize()
    ensures Serialize([Thursday('1'), TuesdayFresh(), Thursday('2'), Thursday('3'), Thursday('4')])
         == "1JeMdSe1MaMdFr2JeMdSe3JeMdSe4JeMdSe"
  {
    SerializeFive(Thursday('1'), TuesdayFresh(), Thursday('2'), Thursday('3'), Thursday('4'));
    MixedCodes();
    MixedText();
  }

  lemma MixedParse()
    ensures Parse("1JeMdSe1MaMdFr2JeMdSe3JeMdSe4JeMdSe")
         == [Thursday('1'), TuesdayFresh(), Thursday('2'), Thursday('3'), Thursday('4')]
  {
    var es := [Thursday('1'), TuesdayFresh(), Thursday('2'), Thursday('3'), Thursday('4')];
    MixedSerialize();
    assert forall e :: e in es ==> Full(e);
    ParseSerialize(es);
  }

  lemma SerializeThree(a: Entry, b: Entry, c: Entry)
    ensures Serialize([a, b, c]) == a.Code() + b.Code() + c.Code()
  {
    SerializeAppend([a], [b, c]);
    SerializeTwo(b, c);
    assert [a] + [b, c] == [a, b, c];
    assert Serialize([a]) == a.Code() + Serialize([]);
  }

  lemma MixedSteps(k: string)
    ensures SuffixOrder([Thursday('1'), TuesdayFresh()]) == ["JeMdSe", "MaMdFr"]
    ensures WeeksOf([Thursday('1'), TuesdayFresh()], k)
         == if k == "JeMdSe" || k == "MaMdFr" then ['1'] else []
  {
    var t1, m := Thursday('1'), TuesdayFresh();
    assert t1.Suffix() == "JeMdSe" && m.Suffix() == "MaMdFr";
    assert "JeMdSe" != "MaMdFr" by {
      assert "JeMdSe"[0] != "MaMdFr"[0];
    }
    SuffixOrderSnoc([], t1);
    WeeksOfSnoc([], t1, k);
    assert [] + [t1] == [t1];
    SuffixOrderSnoc([t1], m);
    WeeksOfSnoc([t1], m, k);
    assert [t1] + [m] == [t1, m];
  }

  /** Block 3 adds week '2' to the Thursday suffix only. */
  lemma MixedPrefix3(k: string)
    ensures SuffixOrder([Thursday('1'), TuesdayFresh(), Thursday('2')]) == ["JeMdSe", "MaMdFr"]
    ensures WeeksOf([Thursday('1'), TuesdayFresh(), Thursday('2')], k)
         == if k == "JeMdSe" then ['1', '2'] else WeeksOf([Thursday('1'), TuesdayFresh()], k)
  {
    MixedSteps(k);
    assert Thursday('2').Suffix() == "JeMdSe";
    SuffixOrderSnoc([Thursday('1'), TuesdayFresh()], Thursday('2'));
    WeeksOfSnoc([Thursday('1'), TuesdayFresh()], Thursday('2'), k);
    assert [Thursday('1'), TuesdayFresh()] + [Thursday('2')] == [Thursday('1'), TuesdayFresh(), Thursday('2')];
  }

  /** Block 4 adds week '3' to the Thursday suffix only. */
  lemma MixedPrefix4(k: string)
    ensures SuffixOrder([Thursday('1'), TuesdayFresh(), Thursday('2'), Thursday('3')]) == ["JeMdSe", "MaMdFr"]
    ensures WeeksOf([Thursday('1'), TuesdayFresh(), Thursday('2'), Thursday('3')], k)
         == if k == "JeMdSe" then ['1', '2', '3'] else WeeksOf([Thursday('1'), TuesdayFresh()], k)
  {
    MixedPrefix3(k);
    assert Thursday('3').Suffix() == "JeMdSe";
    SuffixOrderSnoc([Thursday('1'), TuesdayFresh(), Thursday('2')], Thursday('3'));
    WeeksOfSnoc([Thursday('1'), TuesdayFresh(), Thursday('2')], Thursday('3'), k);
    assert [Thursday('1'), TuesdayFresh(), Thursday('2')] + [Thursday('3')] == [Thursday('1'), TuesdayFresh(), Thursday('2'), Thursday('3')];
  }

  /** Block 5 adds week '4' to the Thursday suffix only. */
  lemma MixedPrefix5(k: string)
    ensures SuffixOrder([Thursday('1'), TuesdayFresh(), Thursday('2'), Thursday('3'), Thursday('4')]) == ["JeMdSe", "MaMdFr"]
    ensures WeeksOf([Thursday('1'), TuesdayFresh(), Thursday('2'), Thursday('3'), Thursday('4')], k)
         == if k == "JeMdSe" then ['1', '2', '3', '4'] else WeeksOf([Thursday('1'), TuesdayFresh()], k)
  {
    MixedPrefix4(k);
    assert Thursday('4').Suffix() == "JeMdSe";
    SuffixOrderSnoc([Thursday('1'), TuesdayFresh(), Thursday('2'), Thursday('3')], Thursday('4'));
    WeeksOfSnoc([Thursday('1'), TuesdayFresh(), Thursday('2'), Thursday('3')], Thursday('4'), k);
    assert [Thursday('1'), TuesdayFresh(), Thursday('2'), Thursday('3')] + [Thursday('4')] == [Thursday('1'), TuesdayFresh(), Thursday('2'), Thursday('3'), Thursday('4')];
  }

  /** The Thursday suffix is met first and collects weeks 1 to 4; the Tuesday
      suffix collects week 1. */
  lemma MixedGroups()
    ensures SuffixOrder([Thursday('1'), TuesdayFresh(), Thursday('2'), Thursday('3'), Thursday('4')])
         == ["JeMdSe", "MaMdFr"]
    ensures WeeksOf([Thursday('1'), TuesdayFresh(), Thursday('2'), Thursday('3'), Thursday('4')], "JeMdSe")
         == ['1', '2', '3', '4']
    ensures WeeksOf([Thursday('1'), TuesdayFresh(), Thursday('2'), Thursday('3'), Thursday('4')], "MaMdFr")
         == ['1']
  {
    MixedPrefix5("JeMdSe");
    MixedPrefix5("MaMdFr");
    MixedSteps("MaMdFr");
    assert "MaMdFr" != "JeMdSe" by {
      assert "JeMdSe"[0] != "MaMdFr"[0];
    }
  }

  /** The four Thursday blocks collapse to one; the Tuesday block stays. */
  lemma MixedCompressEntries()
    ensures CompressEntries([Thursday('1'), TuesdayFresh(), Thursday('2'), Thursday('3'), Thursday('4')])
         == [Thursday('0'), TuesdayFresh()]
  {
    var es := [Thursday('1'), TuesdayFresh(), Thursday('2'), Thursday('3'), Thursday('4')];
    MixedGroups();
    ThursdayGroup();
    assert TuesdayFresh().Suffix() == "MaMdFr";
    SingleWeekGroup(TuesdayFresh());
    EmitAllTwo("JeMdSe", "MaMdFr", es);
  }

  /** The Thursday suffix with weeks 1 to 4 emits the single "every week" block. */
  lemma ThursdayGroup()
    ensures EmitGroup("JeMdSe", ['1', '2', '3', '4']) == [Thursday('0')]
  {
    assert HasAllWeeks(['1', '2', '3', '4']);
    assert [EVERY_WEEK] + "JeMdSe" == Thursday('0').Code();
    BlockOfCode(Thursday('0'));
  }

  lemma MixedCompress()
    ensures Compress("1JeMdSe1MaMdFr2JeMdSe3JeMdSe4JeMdSe") == Serialize([Thursday('0'), TuesdayFresh()])
  {
    MixedParse();
    MixedCompressEntries();
  }

  lemma MixedSorted()
    ensures SortBy(Parse(Compress("1JeMdSe1MaMdFr2JeMdSe3JeMdSe4JeMdSe")), EntryKey)
         == [Thursday('0'), TuesdayFresh()]
  {
    MixedCompress();
    MixedReparse();
  }

  lemma MixedReparse()
    ensures SortBy(Parse(Serialize([Thursday('0'), TuesdayFresh()])), EntryKey) == [Thursday('0'), TuesdayFresh()]
  {
    var e, m := Thursday('0'), TuesdayFresh();
    MixedReparseEntries();
    MixedKeys();
    SortTwo(e, m, EntryKey);
  }

  lemma MixedReparseEntries()
    ensures Parse(Serialize([Thursday('0'), TuesdayFresh()])) == [Thursday('0'), TuesdayFresh()]
  {
    ParseSerialize([Thursday('0'), TuesdayFresh()]);
  }

  lemma MixedKeys()
    ensures EntryKey(Thursday('0')) < EntryKey(TuesdayFresh())
  {
  }

  /** The collapsed group (week code '0') sorts before week 1. */
  lemma CanonicalMixed()
    ensures Canonicalize("1JeMdSe1MaMdFr2JeMdSe3JeMdSe4JeMdSe") == "0JeMdSe1MaMdFr"
  {
    MixedSorted();
    MixedOutput();
  }

  lemma MixedOutput()
    ensures Serialize([Thursday('0'), TuesdayFresh()]) == "0JeMdSe1MaMdFr"
  {
    var e, m := Thursday('0'), TuesdayFresh();
    SerializeTwo(e, m);
    assert e.Code() == "0JeMdSe" && m.Code() == "1MaMdFr";
  }
}
