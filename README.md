# Schedule codec model

A Dafny model of the schedule codec in `planning.js`: the compact planning
format in which every 7-character block encodes one pick-up slot — a week of
the month (`'1'`–`'4'`, or `'0'` for "every week"), a weekday (`Lu`…`Ve`), a
time slot (`Md`, `Mf`, `Ap`) and a product (`Fr`, `Se`, `Su`).

The model covers:

- the code tables (`PLANNING_CONSTANTS`) — module `Codes` (`codes.dfy`);
- splitting a schedule into blocks (`parseSchedule`) — module `Schedule`
  (`schedule.dfy`), with the inverse serialisation;
- `compressPlanning`, which collapses a suffix (day + time + product) carried
  by exactly the weeks 1–4 into one `'0'` block and otherwise emits one block
  per distinct week in ascending order — module `Compression`
  (`compression.dfy`);
- the ordering keys — module `Ordering` (`ordering.dfy`). It covers the text
  key `week-dayOrdinal-timeOrdinal` used by `groupAndSortEntries` and the
  comparator of `canonicalizeSchedule`. Both are shown to agree with integer
  keys;
- `canonicalizeSchedule` — module `Canonical` (`canonical.dfy`);
- `groupAndSortEntries` and `decodePlanning`, the French rendering —
  module `Rendering` (`rendering.dfy`);
- the stable sort that `Array.prototype.sort` performs — module `Sorting`
  (`sorting.dfy`). It is given as a functional specification (`SortBy`) and
  as an in-place insertion sort on an array, proved equal to it;
- the expected outputs of the repository's test files — module `Scenarios`
  (`scenarios.dfy`).

Each operation has a functional definition and an imperative form that
mirrors the loops of the source: `ParseSchedule`, `CompressPlanning`,
`GroupAndSortEntries`, `DecodePlanning` and `CanonicalizeSchedule`.

- The imperative forms sort on arrays in place and fill maps and key lists
  the way the JavaScript `Map`/`Set` objects are filled.
- Each imperative form is proved to return exactly its functional
  definition.
- The properties are proved as lemmas about those definitions.

Modelling conventions:

- Strings are `seq<char>`.
- A JavaScript `Set` becomes a duplicate-free sequence in insertion order.
- A `Map` becomes a Dafny `map` plus the sequence of its keys in insertion
  order.
- A missing table entry is `None`. Where the source prints it, it is the
  text `"undefined"`.
- Sort keys are integers. `Ordering.GroupKeyTextOrder` and
  `Ordering.CompareMatchesKey` prove that they order entries exactly as the
  source's string keys and comparator do.

## Model

| member | source | states |
|---|---|---|
| Codes.WeekLabel | planning.js:34-40 | a week code has a label exactly when it is one of `0`–`4` |
| Codes.DayLabel | planning.js:41-47 | a day code has a label exactly when it is one of `Lu`, `Ma`, `Me`, `Je`, `Ve` |
| Codes.DayOrder | planning.js:48-54 | a day code has an ordinal exactly when it is a weekday code, and the ordinal is its position in the week, Monday first |
| Codes.TimeLabel | planning.js:55-59 | a time code has a label exactly when it is one of `Md`, `Mf`, `Ap` |
| Codes.TimeOrder | planning.js:60-64 | a time code has an ordinal exactly when it is a slot code, and the ordinal is its chronological position |
| Codes.ProductLabel | planning.js:65-69 | a product code has a label exactly when it is one of `Fr`, `Se`, `Su` |
| Codes.DayTableConsistent | planning.js:41-54 | the label and ordinal tables have the same day codes, an ordinal determines its code, and equal ranks mean equal labels |
| Codes.TimeTableConsistent | planning.js:55-64 | the label and ordinal tables have the same time codes, an ordinal determines its code, and equal ranks mean equal labels |
| Codes.DayRank | planning.js:48-54 | the rank is the weekday ordinal for a known day code, and the value 5 exactly when the code is missing from `DAY_ORDER` |
| Codes.TimeRank | planning.js:60-64 | the rank is the slot ordinal for a known time code, and 5 exactly when the code is missing from `TIME_ORDER` |
| Codes.LabelRankIsAlphabetical | planning.js:65-69 | on the product labels and the empty label, rank order is alphabetical order, and equal rank means the same label |
| Schedule.BlockEntry | planning.js:82-88 | a block of at most 7 characters is split so that its week code followed by its suffix gives the block back; a full block yields three 2-character codes |
| Schedule.Parse | planning.js:76-91 | a schedule of n characters yields ceil(n/7) entries |
| Schedule.ParseAt | planning.js:80-89 | entry k is built from characters 7k to 7k+7, clamped to the end of the string |
| Schedule.ParseShape | planning.js:82-88 | parsed suffixes are shorter than a block; whole blocks give 2-character codes |
| Schedule.SerializeParse | planning.js:76-91 | concatenating the parsed blocks gives back the schedule |
| Schedule.ParseSerialize | planning.js:76-91 | parsing the concatenated codes of full entries gives back those entries, 7 characters each |
| Schedule.ParseSchedule | planning.js:76-91 | the block loop yields exactly the entries of `Parse` |
| Sorting.SortBy | planning.js:124 | the result is a permutation of the input and ordered by the key |
| Sorting.SortDistinct | planning.js:167 | sorting distinct elements whose keys are all different gives the same elements in strictly ascending key order |
| Sorting.SortedUnique | planning.js:229-271 | two sorted permutations of one another are equal when no two elements share a key |
| Sorting.SortInPlace | planning.js:172 | the array is sorted in place to exactly `SortBy` of its old contents |
| Compression.SuffixOrderSpec | planning.js:100-110 | the keys of the suffix map are the input's suffixes, each once |
| Compression.WeeksOfSpec | planning.js:104-108 | a suffix's week set holds exactly the week codes met with that suffix, each once |
| Compression.SuffixOrderFirstSeen | planning.js:104-107 | suffixes are ordered by their first occurrence in the input |
| Compression.HasAllWeeksIff | planning.js:112-116 | for a duplicate-free week list, the source's size-and-membership test holds exactly when the weeks are {1,2,3,4} |
| Compression.EmitGroupSpec | planning.js:116-129 | one suffix group emits `'0'+suffix` when all four weeks are present, otherwise one block per week; either way it emits in strictly ascending week order, at least one and at most as many blocks as weeks |
| Compression.CompressMembers | planning.js:93-133 | an entry is in the output exactly when its suffix occurs in the input and either (the suffix has weeks exactly {1,2,3,4} and the week is '0') or (the week was met with that suffix) |
| Compression.CompressDistinct | planning.js:114-130 | no block is emitted twice; blocks of one suffix come in strictly ascending week order |
| Compression.CompressLength | planning.js:93-133 | the output has no more entries than the input, and none exactly when the input has none |
| Compression.CompressFirstSeen | planning.js:114 | output groups come in the order their suffixes first occur in the input |
| Compression.Compress | planning.js:93-133 | the compressed string is empty exactly when the input is empty |
| Compression.CompressWholeBlocks | planning.js:93-133 | for whole-block input the result is whole blocks, no longer than the input, and parses to the compressed entries |
| Compression.CompressSameSet | planning.js:102-110 | the output's entry set depends only on the input's entry set, not on order or repetition |
| Compression.CompressedNotAllWeeks | planning.js:116-121 | no suffix of a compressed result carries exactly the weeks 1–4 |
| Compression.CompressFixpoint | planning.js:93-133 | compressing a compressed entry list gives the same entry set |
| Compression.CompressPlanning | planning.js:93-133 | the grouping loop and the emitting loop return exactly `Compress(s)` |
| Compression.GroupBySuffix | planning.js:100-110 | the map holds, for each suffix, its week list; its key order is the order of first occurrence |
| Compression.AppendGroup | planning.js:116-129 | appends exactly the serialised blocks of one group |
| Ordering.GroupKeyText | planning.js:147 | the text key starts with the week code and a dash; it is 5 characters long exactly when the day and time codes are both in their tables, and longer when an ordinal prints as "undefined" |
| Ordering.GroupKeyTextOrder | planning.js:147 | the text key `week-day-time` compares as a string exactly as the integer key compares, and two text keys are equal exactly when the integer keys are |
| Ordering.RecognisedKeyInjective | planning.js:229-271 | among entries with recognised codes, equal canonical keys mean equal entries |
| Ordering.Compare | planning.js:229-270 | an entry compares equal to itself; entries with different week codes never compare equal and order by week code |
| Ordering.CompareAntisymmetric | planning.js:229-270 | swapping the two entries flips the comparator's sign, and `NaN` stays `NaN` |
| Ordering.EntryKeyOrder | planning.js:229-270 | the canonical key compares the week code, then the day rank, then the time rank, then the product rank, as the comparator's branches do |
| Ordering.CompareMatchesKey | planning.js:229-271 | the comparator is NaN exactly when two different day (or time) codes are compared and one is unknown; on known days and times its sign is the order of the canonical key |
| Canonical.CanonicalizeSchedule | planning.js:205-277 | compress, re-parse, sort the array in place and join: exactly `Canonicalize(s)` |
| Canonical.CanonicalSortedPermutation | planning.js:219-275 | the canonical form holds exactly the compressed entries, sorted by week, day, time and product |
| Canonical.CanonicalSetDetermined | planning.js:205-277 | two well-formed schedules with the same entry set have the same canonical form |
| Canonical.CanonicalIdempotent | planning.js:205-277 | the canonical form is well formed, and canonicalising it again changes nothing |
| Canonical.Canonicalize | planning.js:205-277 | the canonical form is empty exactly when the input is empty |
| Rendering.NewItem | planning.js:149-158 | a new group shows the entry's week, day and time labels, is recurring exactly when the week code is `0`, and has no products yet |
| Rendering.AddEntry | planning.js:144-164 | after one entry its key is in the map; a new key's group describes the entry; the group's product list grows by the entry's product label exactly when the code is in the table; every other group is unchanged; the key list and the map keep the same keys, each once |
| Rendering.Group | planning.js:142-165 | the key list holds each map key once, and exactly the map's keys |
| Rendering.GroupAndSortSpec | planning.js:139-175 | one item per distinct (week, day, time) key, in ascending key order; each item describes every entry with its key; its products are the recognised labels of those entries, sorted |
| Rendering.ItemsInTextKeyOrder | planning.js:167 | items come out in the string order of the source's text keys |
| Rendering.GroupAndSortEntries | planning.js:139-175 | the grouping loop plus the sorts return exactly `GroupAndSort` |
| Rendering.SortGroups | planning.js:167-174 | the keys are sorted in an array and each item's products are sorted: exactly `SortedItems` |
| Rendering.SortItemProducts | planning.js:172 | the product list sorted in place is `SortProducts` of the item |
| Rendering.DayText | planning.js:190-194 | the day label, followed by one extra character exactly when the group is recurring |
| Rendering.Sentence | planning.js:187-195 | a sentence starts with the week label and a space, and ends with a full stop |
| Rendering.Render | planning.js:187-196 | the joined sentences are empty exactly when there are no groups, and otherwise end with a full stop |
| Rendering.PluralDay | planning.js:190-194 | the day text ends in "s" exactly when the week code is '0' |
| Rendering.Decode | planning.js:177-197 | the description is empty exactly when the schedule is empty |
| Rendering.DecodePlanning | planning.js:177-197 | compress, group and sort, then render: exactly `Decode(s)` |
| Scenarios.CompressFourWeeks | test_compress.js:19 | weeks 1–4 of one slot compress to `0JeMdSe` |
| Scenarios.CanonicalProductOrder | test_canonical.js:20 | `1MaMdSe1MaMdFr` canonicalises to `1MaMdFr1MaMdSe` |
| Scenarios.CanonicalDayOrder | test_canonical.js:21 | `1JeMdSe1MaMdFr` canonicalises to `1MaMdFr1JeMdSe` |
| Scenarios.CanonicalWeekOrder | test_canonical.js:22 | `2MaMdSe1MaMdFr` canonicalises to `1MaMdFr2MaMdSe` |
| Scenarios.CanonicalFourWeeks | test_canonical.js:25 | weeks 1–4 of one slot canonicalise to `0JeMdSe` |
| Scenarios.CanonicalMixed | test_canonical.js:26 | the '0' group sorts before week 1: `0JeMdSe1MaMdFr` |
| Scenarios.DecodeWeekdayExample | test.js:22 | `1JeMdSe1MaMdFr` decodes to "1er mardi 8h30: Frais. 1er jeudi 8h30: Sec." |
| Scenarios.DecodeSameSlotExample | test.js:23 | `1MaMdSe1MaMdFr` decodes to "1er mardi 8h30: Frais, Sec." |
| Scenarios.DecodeWeekExample | test.js:24 | `2MaMdSe1MaMdFr` decodes to "1er mardi 8h30: Frais. 2e mardi 8h30: Sec." |
| Scenarios.DecodeMorningExample | test.js:25 | `1MaMdSe1MaMfFr` decodes to "1er mardi 8h30: Sec. 1er mardi 10h00: Frais." |
| Scenarios.DecodeAfternoonExample | test.js:26 | `1MaApSe1MaMdFr` decodes to "1er mardi 8h30: Frais. 1er mardi 14h00: Sec." |
| Scenarios.DecodeOrderedExample | test.js:27 | `1MaMdFr1MaApSe` decodes to "1er mardi 8h30: Frais. 1er mardi 14h00: Sec." |
| Scenarios.DecodeFourWeeksExample | test.js:28 | weeks 1–4 of one slot decode to "Tous les jeudis 8h30: Sec." |

## Left out

- `localeCompare(…, 'fr')` is not modelled as a collation. Product labels
  and week codes are compared by rank or code point instead.
  `Codes.LabelRankIsAlphabetical` shows that this agrees with alphabetical
  order on every label the tables can produce. Those labels differ in their
  first unaccented letter.
- Canonical.Canonicalize: the source's comparator returns `NaN` when it
  compares two different day (or time) codes and one of them is unknown. The
  engine's order is then unspecified. The model sorts unknown codes after
  the known ones, by rank 5. `Ordering.CompareMatchesKey` states exactly when
  the source's comparator is `NaN`.
- Canonical.CanonicalIdempotent, Canonical.CanonicalSetDetermined: these
  are stated for schedules of whole blocks whose codes are all in the tables.
  Two unknown product codes in one slot tie in the comparator. A stable sort
  then keeps the input order, so the canonical form can depend on it.
- The `!schedule` guards treat `null`/`undefined` like the empty string.
  The model has only strings; the empty string covers both.
- `parseSchedule` is a generator. The model returns the whole entry list,
  because the consumers always read all of it.
- JavaScript strings are UTF-16 code units. The model's characters are
  code points; the format is ASCII, so the two agree on every valid
  schedule.
- `groupAndSortEntries` sorts each item's product list in place on the
  objects held by its map. The model sorts value copies; no other code sees
  the map.
- The Node/Apps Script export guard and the console output of the test
  files are not modelled.
- The decode vectors at test.js:20-21 (four blocks over two or three slots)
  are not stated as lemmas. The general properties in
  `Rendering.GroupAndSortSpec` cover them. The expectation at test.js:20
  writes the label "Surgelé" in a mis-decoded form; the table at
  planning.js:68 has "Surgelé".
- `encodePlanning` and `parseHumanReadable` are exercised by `test_encode.js`
  and `test_parse.js`, but `planning.js` does not define them. They are not
  part of this model.
