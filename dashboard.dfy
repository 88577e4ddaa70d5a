/**
 * The dashboard's data pipeline: places loaded from the table with their
 * derived hours, the category filter, the views of places open at the
 * selected hour and closing at it, and the list of category choices.
 */
module Dashboard {
  import opened Wrappers
  import opened Hours
  import opened OpenWindow
  import opened Selection
  import opened Ordering

  /**
   * One row of the places table. A cell may be empty; coordinates are only
   * checked for presence.
   */
  datatype Row = Row(
    latitude: Option<real>,
    longitude: Option<real>,
    mainCategory: Option<string>,
    subCategory: Option<string>)

  /** A row with its hours, derived once when the table is loaded. */
  datatype Place = Place(row: Row, window: Window)

  /** `str()` of a cell: an empty cell prints as "nan". */
  function CellText(v: Option<string>): string {
    match v
    case Some(s) => s
    case None => "nan"
  }

  predicate HasCoordinates(r: Row) {
    r.latitude.Some? && r.longitude.Some?
  }

  /** `dropna` on the coordinate columns. */
  function DropMissingCoordinates(rows: seq<Row>): (kept: seq<Row>)
    ensures IsSubsequence(kept, rows)
    ensures forall r :: multiset(kept)[r] == if HasCoordinates(r) then multiset(rows)[r] else 0
    ensures forall r :: r in kept <==> r in rows && HasCoordinates(r)
  {
    Filter(rows, HasCoordinates)
  }

  /** The hours the resolver assigns to a row's sub-category. */
  function HoursOf(r: Row): Window {
    GetHours(CellText(r.subCategory))
  }

  /** The derived hours of a place are those of its sub-category. */
  predicate Derived(p: Place) {
    p.window == HoursOf(p.row)
  }

  /** Attaches `get_hours(sub_category)` to every row, keeping rows and order. */
  function AttachHours(rows: seq<Row>): (ps: seq<Place>)
    ensures |ps| == |rows|
    ensures forall i :: 0 <= i < |rows| ==> ps[i] == Place(rows[i], HoursOf(rows[i]))
    ensures forall p :: p in ps ==> Derived(p)
  {
    if rows == [] then [] else [Place(rows[0], HoursOf(rows[0]))] + AttachHours(rows[1..])
  }

  /** A place is attached exactly for each row. */
  lemma AttachHoursMembers(rows: seq<Row>)
    ensures forall r :: r in rows ==> Place(r, HoursOf(r)) in AttachHours(rows)
    ensures forall p :: p in AttachHours(rows) ==> p.row in rows
  {
    var ps := AttachHours(rows);
    forall r | r in rows ensures Place(r, HoursOf(r)) in ps {
      var i :| 0 <= i < |rows| && rows[i] == r;
      assert ps[i] == Place(r, HoursOf(r));
    }
    forall p | p in ps ensures p.row in rows {
      var i :| 0 <= i < |ps| && ps[i] == p;
      assert rows[i] == p.row;
    }
  }

  /** Why loading the table can fail. */
  datatype LoadError = NotEnoughValuesToUnpack

  /**
   * Loading as the source writes it: the pair of hour columns is unpacked
   * from `zip(*...)`, which has nothing to unpack when no row is left. So it
   * fails exactly when no row has both coordinates, and agrees with Load
   * otherwise.
   */
  function LoadAsWritten(rows: seq<Row>): (res: Result<seq<Place>, LoadError>)
    ensures res.Failure? <==> forall r :: r in rows ==> !HasCoordinates(r)
    ensures res.Failure? ==> res.error == NotEnoughValuesToUnpack
    ensures res.Success? ==> res.value == Load(rows)
  {
    var kept := DropMissingCoordinates(rows);
    if kept == [] then Failure(NotEnoughValuesToUnpack)
    else
      assert kept[0] in kept;
      Success(AttachHours(kept))
  }

  /**
   * Loading as intended: the kept rows in table order, each with its derived
   * hours; an empty table is no error.
   */
  function Load(rows: seq<Row>): (ps: seq<Place>)
    ensures |ps| == |DropMissingCoordinates(rows)|
    ensures forall i :: 0 <= i < |ps| ==>
      ps[i] == Place(DropMissingCoordinates(rows)[i], HoursOf(DropMissingCoordinates(rows)[i]))
    ensures forall p :: p in ps ==> p.row in rows && HasCoordinates(p.row) && Derived(p)
    ensures forall r :: r in rows && HasCoordinates(r) ==> Place(r, HoursOf(r)) in ps
  {
    var kept := DropMissingCoordinates(rows);
    AttachHoursMembers(kept);
    AttachHours(kept)
  }

  /** The selection that means "no category filter". */
  const All := "All"

  /** `cat_df`: every place when the selection is "All", else the places of exactly that category. */
  function CategoryFilter(ps: seq<Place>, selected: string): (r: seq<Place>)
    ensures IsSubsequence(r, ps)
    ensures selected == All ==> r == ps
    ensures selected != All ==> forall p ::
      multiset(r)[p] == if p.row.mainCategory == Some(selected) then multiset(ps)[p] else 0
    ensures selected != All ==> forall p :: p in r <==> p in ps && p.row.mainCategory == Some(selected)
  {
    if selected == All then
      SubsequenceReflexive(ps);
      ps
    else
      Filter(ps, (p: Place) => p.row.mainCategory == Some(selected))
  }

  /** `active_df`: the places open at hour `h`, in table order. */
  function Active(ps: seq<Place>, h: int): (r: seq<Place>)
    ensures IsSubsequence(r, ps)
    ensures forall p :: multiset(r)[p] == if IsOpen(p.window.open, p.window.close, h) then multiset(ps)[p] else 0
    ensures forall p :: p in r <==> p in ps && IsOpen(p.window.open, p.window.close, h)
  {
    Filter(ps, (p: Place) => IsOpen(p.window.open, p.window.close, h))
  }

  /** `closing_soon_df`: the places whose closing hour is `h`, whether or not they are open. */
  function ClosingSoon(ps: seq<Place>, h: int): (r: seq<Place>)
    ensures IsSubsequence(r, ps)
    ensures forall p :: multiset(r)[p] == if p.window.close == h then multiset(ps)[p] else 0
    ensures forall p :: p in r <==> p in ps && p.window.close == h
  {
    Filter(ps, (p: Place) => p.window.close == h)
  }

  /** The two controls that select the views: the hour slider and the category box. */
  datatype Query = Query(hour: int, mainCategory: string)

  /** The place lists the map, the chart, the counters and the table are drawn from. */
  datatype Views = Views(active: seq<Place>, closingSoon: seq<Place>)

  /** A place passes the category selection `selected`. */
  predicate InCategory(p: Place, selected: string) {
    selected == All || p.row.mainCategory == Some(selected)
  }

  /** Both views, taken from the category-filtered places, in table order and with every repeat. */
  function Select(ps: seq<Place>, q: Query): (v: Views)
    ensures IsSubsequence(v.active, ps) && IsSubsequence(v.closingSoon, ps)
    ensures forall p ::
      multiset(v.active)[p] ==
        if InCategory(p, q.mainCategory) && IsOpen(p.window.open, p.window.close, q.hour)
        then multiset(ps)[p] else 0
    ensures forall p ::
      multiset(v.closingSoon)[p] ==
        if InCategory(p, q.mainCategory) && p.window.close == q.hour then multiset(ps)[p] else 0
    ensures forall p :: p in v.active <==>
      p in ps && InCategory(p, q.mainCategory) &&
      IsOpen(p.window.open, p.window.close, q.hour)
    ensures forall p :: p in v.closingSoon <==>
      p in ps && InCategory(p, q.mainCategory) &&
      p.window.close == q.hour
  {
    var cat := CategoryFilter(ps, q.mainCategory);
    var active := Active(cat, q.hour);
    var closing := ClosingSoon(cat, q.hour);
    SubsequenceTransitive(active, cat, ps);
    SubsequenceTransitive(closing, cat, ps);
    Views(active, closing)
  }

  /** Applying each filter to its own output changes nothing. */
  lemma FiltersIdempotent(ps: seq<Place>, selected: string, h: int)
    ensures CategoryFilter(CategoryFilter(ps, selected), selected) == CategoryFilter(ps, selected)
    ensures Active(Active(ps, h), h) == Active(ps, h)
    ensures ClosingSoon(ClosingSoon(ps, h), h) == ClosingSoon(ps, h)
  {
    FilterIdempotent(ps, (p: Place) => p.row.mainCategory == Some(selected));
    FilterIdempotent(ps, (p: Place) => IsOpen(p.window.open, p.window.close, h));
    FilterIdempotent(ps, (p: Place) => p.window.close == h);
  }

  /** Running the same query over its own active view returns that view again. */
  lemma SelectIdempotent(ps: seq<Place>, q: Query)
    ensures Select(Select(ps, q).active, q).active == Select(ps, q).active
  {
    var active := Select(ps, q).active;
    var cat := CategoryFilter(ps, q.mainCategory);
    if q.mainCategory != All {
      FilterKeepsAll(active, (p: Place) => p.row.mainCategory == Some(q.mainCategory));
    }
    assert CategoryFilter(active, q.mainCategory) == active;
    FilterIdempotent(cat, (p: Place) => IsOpen(p.window.open, p.window.close, q.hour));
  }

  /**
   * No loaded place is in both views: a place is never open in the hour it
   * closes, so the closing-soon view lists places that are already closed.
   */
  lemma ClosingSoonDisjointFromActive(ps: seq<Place>, q: Query)
    requires 0 <= q.hour <= 23
    requires forall p :: p in ps ==> Derived(p)
    ensures forall p :: p in Select(ps, q).closingSoon ==> p !in Select(ps, q).active
  {
    forall p | p in Select(ps, q).closingSoon
      ensures p !in Select(ps, q).active
    {
      assert p.window.close == q.hour;
    }
  }

  /** A category that no place has empties both views. */
  lemma UnknownCategoryEmptiesViews(ps: seq<Place>, q: Query)
    requires q.mainCategory != All
    requires forall p :: p in ps ==> p.row.mainCategory != Some(q.mainCategory)
    ensures Select(ps, q).active == [] && Select(ps, q).closingSoon == []
  {
    var v := Select(ps, q);
    EmptyIffNoMember(v.active);
    EmptyIffNoMember(v.closingSoon);
  }

  /** The text each place's category shows as in the category box. */
  function CategoryTexts(ps: seq<Place>): (ts: seq<string>)
    ensures |ts| == |ps|
    ensures forall i :: 0 <= i < |ps| ==> ts[i] == CellText(ps[i].row.mainCategory)
  {
    if ps == [] then [] else [CellText(ps[0].row.mainCategory)] + CategoryTexts(ps[1..])
  }

  /** `all_main_cats`: "All" followed by the distinct category texts in increasing order. */
  function CategoryOptions(ps: seq<Place>): (opts: seq<string>)
    ensures |opts| >= 1 && opts[0] == All
    ensures StrictlySorted(opts[1..])
    ensures forall c :: c in opts[1..] <==> exists p :: p in ps && CellText(p.row.mainCategory) == c
  {
    var texts := CategoryTexts(ps);
    var sorted := SortedDistinct(texts);
    assert forall c :: c in texts <==> exists p :: p in ps && CellText(p.row.mainCategory) == c by {
      forall c | c in texts ensures exists p :: p in ps && CellText(p.row.mainCategory) == c {
        var i :| 0 <= i < |texts| && texts[i] == c;
        assert ps[i] in ps;
      }
      forall p | p in ps ensures CellText(p.row.mainCategory) in texts {
        var i :| 0 <= i < |ps| && ps[i] == p;
        assert texts[i] == CellText(p.row.mainCategory);
      }
    }
    assert ([All] + sorted)[1..] == sorted;
    [All] + sorted
  }

  /** The option list depends only on which categories occur, not on their order or repetition. */
  lemma CategoryOptionsDependOnlyOnCategories(ps: seq<Place>, qs: seq<Place>)
    requires Elements(CategoryTexts(ps)) == Elements(CategoryTexts(qs))
    ensures CategoryOptions(ps) == CategoryOptions(qs)
  {
    var a, b := CategoryOptions(ps), CategoryOptions(qs);
    assert Elements(a[1..]) == Elements(b[1..]);
    StrictlySortedUnique(a[1..], b[1..]);
    assert a == [a[0]] + a[1..] && b == [b[0]] + b[1..];
  }

  /** Every stored category is offered, and choosing it keeps every place of that category. */
  lemma ChoosingAnOptionKeepsItsPlaces(ps: seq<Place>, c: string)
    requires exists p :: p in ps && p.row.mainCategory == Some(c)
    ensures c in CategoryOptions(ps)
    ensures forall p :: p in ps && p.row.mainCategory == Some(c) ==> p in CategoryFilter(ps, c)
  {
    var p :| p in ps && p.row.mainCategory == Some(c);
    assert CellText(p.row.mainCategory) == c;
    var opts := CategoryOptions(ps);
    assert c in opts[1..];
  }

  /**
   * A place with an empty category is listed under the option "nan", but
   * choosing "nan" does not keep it: an empty cell never equals a string.
   */
  lemma NanOptionKeepsNoEmptyCategory(ps: seq<Place>, p: Place)
    requires p in ps && p.row.mainCategory == None
    ensures "nan" in CategoryOptions(ps)
    ensures p !in CategoryFilter(ps, "nan")
  {
    var opts := CategoryOptions(ps);
    assert CellText(p.row.mainCategory) == "nan";
    assert "nan" in opts[1..];
  }
}
