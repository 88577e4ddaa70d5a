/**
 * Worked cases: the resolver on particular sub-categories, and three
 * places (a bar, a cafe and a convenience store) run through the views.
 */
module Scenarios {
  import opened Wrappers
  import opened Text
  import opened Hours
  import opened Selection
  import opened Dashboard
  import OpenWindow

  lemma NightlifeBarText(t: string)
    requires t == "nightlife bar"
    ensures Contains(t, "nightlife")
  {
    FoundAt(t, "nightlife", 0);
  }

  /** "Nightlife Bar" gets the nightlife window (18, 2). */
  lemma NightlifeBarHours(s: string)
    requires s == "Nightlife Bar"
    ensures GetHours(s) == Window(18, 2)
  {
    assert Lower(s) == "nightlife bar";
    NightlifeBarText(Lower(s));
    NightlifeWins(s);
  }

  lemma CafesText(t: string)
    requires t == "cafes"
    ensures Contains(t, "cafes") && !Contains(t, "nightlife") && !Contains(t, "bars")
  {
    FoundAt(t, "cafes", 0);
    CharOfOccurrence(t, "nightlife", 2);
    CharOfOccurrence(t, "bars", 0);
  }

  /** "Cafes" gets the cafe window (8, 20). */
  lemma CafesHours(s: string)
    requires s == "Cafes"
    ensures GetHours(s) == Window(8, 20)
  {
    assert Lower(s) == "cafes";
    CafesText(Lower(s));
    GetHoursByCases(s);
  }

  lemma ConvenienceStoreText(t: string)
    requires t == "convenience store"
    ensures Contains(t, "convenience")
    ensures !Contains(t, "nightlife") && !Contains(t, "bars")
    ensures !Contains(t, "cafes") && !Contains(t, "coffee")
  {
    FoundAt(t, "convenience", 0);
    LettersOfConvenienceStore(t);
    CharOfOccurrence(t, "nightlife", 2);
    CharOfOccurrence(t, "bars", 0);
    CharOfOccurrence(t, "cafes", 1);
    CharOfOccurrence(t, "coffee", 2);
  }

  lemma LettersOfConvenienceStore(t: string)
    requires t == "convenience store"
    ensures 'g' !in t && 'b' !in t && 'a' !in t && 'f' !in t
  {
  }

  /** "Convenience Store" is open around the clock. */
  lemma ConvenienceStoreHours(s: string)
    requires s == "Convenience Store"
    ensures GetHours(s) == Window(0, 24)
  {
    assert Lower(s) == "convenience store";
    ConvenienceStoreText(Lower(s));
    GetHoursByCases(s);
  }

  lemma CafesInMallText(t: string)
    requires t == "cafes in mall"
    ensures Contains(t, "cafes") && Contains(t, "mall")
  {
    FoundAt(t, "cafes", 0);
    FoundAt(t, "mall", 9);
  }

  lemma CafesInMallNotNightlife(t: string)
    requires t == "cafes in mall"
    ensures !Contains(t, "nightlife") && !Contains(t, "bars")
  {
    CharOfOccurrence(t, "nightlife", 2);
    CharOfOccurrence(t, "bars", 0);
  }

  /** "Cafes in Mall" matches two rules; the earlier cafe rule gives (8, 20), not mall hours (10, 22). */
  lemma CafesInMallHours(s: string)
    requires s == "Cafes in Mall"
    ensures GetHours(s) == Window(8, 20)
  {
    forall i | 0 <= i < |s| ensures Lower(s)[i] == "cafes in mall"[i] {
    }
    assert Lower(s) == "cafes in mall";
    CafesInMallText(Lower(s));
    CafesInMallNotNightlife(Lower(s));
    CafesBeatMall(s);
  }

  lemma NanText(t: string)
    requires t == "nan"
    ensures !AnyKeywordIn(t)
  {
    CharOfOccurrence(t, "nightlife", 1);
    CharOfOccurrence(t, "bars", 0);
    CharOfOccurrence(t, "cafes", 0);
    CharOfOccurrence(t, "coffee", 0);
    CharOfOccurrence(t, "fast food", 0);
    CharOfOccurrence(t, "convenience", 0);
    CharOfOccurrence(t, "shopping", 0);
    CharOfOccurrence(t, "mall", 0);
    CharOfOccurrence(t, "office", 0);
    CharOfOccurrence(t, "gov", 0);
    CharOfOccurrence(t, "parks", 0);
    CharOfOccurrence(t, "beach", 0);
  }

  predicate AnyKeywordIn(t: string) {
    Contains(t, "nightlife") || Contains(t, "bars") || Contains(t, "cafes") || Contains(t, "coffee") ||
    Contains(t, "fast food") || Contains(t, "convenience") || Contains(t, "shopping") ||
    Contains(t, "mall") || Contains(t, "office") || Contains(t, "gov") ||
    Contains(t, "parks") || Contains(t, "beach")
  }

  /** A row with an empty sub-category is resolved as the text "nan" and gets the default (9, 21). */
  lemma EmptySubCategoryHours(r: Row)
    requires r.subCategory == None
    ensures HoursOf(r) == Window(9, 21)
  {
    var s := CellText(r.subCategory);
    assert Lower(s) == "nan";
    NanText(Lower(s));
    GetHoursByCases(s);
  }

  /** The three places of the worked scenarios. */
  predicate ScenarioRows(bar: Row, cafe: Row, store: Row) {
    && bar == Row(Some(12.93), Some(100.88), Some("Nightlife"), Some("Nightlife Bar"))
    && cafe == Row(Some(12.92), Some(100.87), Some("Food"), Some("Cafes"))
    && store == Row(Some(12.91), Some(100.89), Some("Shopping"), Some("Convenience Store"))
  }

  lemma ScenarioHours(bar: Row, cafe: Row, store: Row)
    requires ScenarioRows(bar, cafe, store)
    ensures HoursOf(bar) == Window(18, 2)
    ensures HoursOf(cafe) == Window(8, 20)
    ensures HoursOf(store) == Window(0, 24)
  {
    NightlifeBarHours(CellText(bar.subCategory));
    CafesHours(CellText(cafe.subCategory));
    ConvenienceStoreHours(CellText(store.subCategory));
  }

  lemma ScenarioRowsKept(bar: Row, cafe: Row, store: Row)
    requires ScenarioRows(bar, cafe, store)
    ensures DropMissingCoordinates([bar, cafe, store]) == [bar, cafe, store]
  {
    FilterKeepsAll([bar, cafe, store], HasCoordinates);
  }

  lemma AttachThree(a: Row, b: Row, c: Row)
    ensures AttachHours([a, b, c]) == [Place(a, HoursOf(a)), Place(b, HoursOf(b)), Place(c, HoursOf(c))]
  {
    var ps := AttachHours([a, b, c]);
    assert ps[0] == Place(a, HoursOf(a));
    assert ps[1] == Place(b, HoursOf(b));
    assert ps[2] == Place(c, HoursOf(c));
  }

  /** Loading the three rows keeps all of them and attaches their hours. */
  lemma ScenarioLoad(bar: Row, cafe: Row, store: Row)
    requires ScenarioRows(bar, cafe, store)
    ensures Load([bar, cafe, store]) ==
      [Place(bar, Window(18, 2)), Place(cafe, Window(8, 20)), Place(store, Window(0, 24))]
  {
    ScenarioHours(bar, cafe, store);
    ScenarioRowsKept(bar, cafe, store);
    AttachThree(bar, cafe, store);
  }

  lemma FilterThree<T(!new)>(a: T, b: T, c: T, keep: T -> bool)
    ensures Filter([a, b, c], keep) ==
      (if keep(a) then [a] else []) + ((if keep(b) then [b] else []) + (if keep(c) then [c] else []))
  {
    var bc := [b, c];
    FilterTwo(b, c, keep);
    FilterCons(a, bc, keep);
    assert [a, b, c] == [a] + bc;
  }

  lemma FilterTwo<T(!new)>(b: T, c: T, keep: T -> bool)
    ensures Filter([b, c], keep) == (if keep(b) then [b] else []) + (if keep(c) then [c] else [])
  {
    FilterOne(c, keep);
    FilterCons(b, [c], keep);
    assert [b, c] == [b] + [c];
  }

  lemma FilterOne<T(!new)>(c: T, keep: T -> bool)
    ensures Filter([c], keep) == (if keep(c) then [c] else [])
  {
    FilterCons(c, [], keep);
    assert [c] == [c] + [];
  }

  /** The places open at `h` among a bar (18, 2), a cafe (8, 20) and a store (0, 24). */
  lemma ActiveOfThree(b: Place, c: Place, s: Place, h: int)
    requires b.window == Window(18, 2) && c.window == Window(8, 20) && s.window == Window(0, 24)
    ensures Select([b, c, s], Query(h, All)).active ==
      (if h >= 18 || h < 2 then [b] else []) + ((if 8 <= h < 20 then [c] else []) + [s])
  {
    FilterThree(b, c, s, (p: Place) => OpenWindow.IsOpen(p.window.open, p.window.close, h));
  }

  /** The places closing at `h` among a bar (18, 2), a cafe (8, 20) and a store (0, 24). */
  lemma ClosingOfThree(b: Place, c: Place, s: Place, h: int)
    requires b.window == Window(18, 2) && c.window == Window(8, 20) && s.window == Window(0, 24)
    ensures Select([b, c, s], Query(h, All)).closingSoon ==
      (if h == 2 then [b] else []) + ((if h == 20 then [c] else []) + (if h == 24 then [s] else []))
  {
    FilterThree(b, c, s, (p: Place) => p.window.close == h);
  }

  lemma LateEveningActive(b: Place, c: Place, s: Place)
    requires b.window == Window(18, 2) && c.window == Window(8, 20) && s.window == Window(0, 24)
    ensures Select([b, c, s], Query(23, All)).active == [b, s]
  {
    ActiveOfThree(b, c, s, 23);
  }

  lemma LateEveningClosing(b: Place, c: Place, s: Place)
    requires b.window == Window(18, 2) && c.window == Window(8, 20) && s.window == Window(0, 24)
    ensures Select([b, c, s], Query(23, All)).closingSoon == []
  {
    ClosingOfThree(b, c, s, 23);
  }

  lemma SmallHoursViews(b: Place, c: Place, s: Place)
    requires b.window == Window(18, 2) && c.window == Window(8, 20) && s.window == Window(0, 24)
    ensures Select([b, c, s], Query(2, All)).active == [s]
    ensures Select([b, c, s], Query(2, All)).closingSoon == [b]
  {
    ActiveOfThree(b, c, s, 2);
    ClosingOfThree(b, c, s, 2);
  }

  lemma UnknownCategoryViews(b: Place, c: Place, s: Place, q: Query)
    requires q.mainCategory != All
    requires b.row.mainCategory != Some(q.mainCategory) && c.row.mainCategory != Some(q.mainCategory)
    requires s.row.mainCategory != Some(q.mainCategory)
    ensures Select([b, c, s], q).active == [] && Select([b, c, s], q).closingSoon == []
  {
    UnknownCategoryEmptiesViews([b, c, s], q);
  }

  /** At 23:00 the bar and the store are open, and nothing closes. */
  lemma ScenarioLateEvening(bar: Row, cafe: Row, store: Row)
    requires ScenarioRows(bar, cafe, store)
    ensures Select(Load([bar, cafe, store]), Query(23, All)).active ==
      [Place(bar, Window(18, 2)), Place(store, Window(0, 24))]
    ensures Select(Load([bar, cafe, store]), Query(23, All)).closingSoon == []
  {
    ScenarioLoad(bar, cafe, store);
    var b, c, s := Place(bar, Window(18, 2)), Place(cafe, Window(8, 20)), Place(store, Window(0, 24));
    LateEveningActive(b, c, s);
    LateEveningClosing(b, c, s);
  }

  /**
   * At 02:00 only the store is open, yet the bar, which closes at 2, is the
   * one closing place: the closing-soon view does not ask whether a place is open.
   */
  lemma ScenarioSmallHours(bar: Row, cafe: Row, store: Row)
    requires ScenarioRows(bar, cafe, store)
    ensures Select(Load([bar, cafe, store]), Query(2, All)).active == [Place(store, Window(0, 24))]
    ensures Select(Load([bar, cafe, store]), Query(2, All)).closingSoon == [Place(bar, Window(18, 2))]
  {
    ScenarioLoad(bar, cafe, store);
    SmallHoursViews(Place(bar, Window(18, 2)), Place(cafe, Window(8, 20)), Place(store, Window(0, 24)));
  }

  /** A category none of the three places has leaves both views empty. */
  lemma ScenarioUnknownCategory(bar: Row, cafe: Row, store: Row, h: int)
    requires ScenarioRows(bar, cafe, store)
    ensures Select(Load([bar, cafe, store]), Query(h, "Temples")).active == []
    ensures Select(Load([bar, cafe, store]), Query(h, "Temples")).closingSoon == []
  {
    ScenarioLoad(bar, cafe, store);
    UnknownCategoryViews(Place(bar, Window(18, 2)), Place(cafe, Window(8, 20)), Place(store, Window(0, 24)),
      Query(h, "Temples"));
  }

  /** The source's load fails on a table with no usable row, where the intended load gives no places. */
  lemma EmptyTableFailsToLoad(rows: seq<Row>)
    requires rows == [] || rows == [Row(None, Some(100.88), Some("Food"), Some("Cafes"))]
    ensures LoadAsWritten(rows) == Failure(NotEnoughValuesToUnpack)
    ensures Load(rows) == []
  {
  }
}
