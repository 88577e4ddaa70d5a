/**
 * The hours resolver: an ordered, first-match table of keyword rules that
 * maps a place's sub-category to the hours it is assumed to be open.
 */
module Hours {
  import opened Text

  /** Opening and closing hour of a place; `close < open` wraps past midnight. */
  datatype Window = Window(open: int, close: int)

  /** A rule fires when either keyword occurs in the lower-cased sub-category. */
  datatype Rule = Rule(first: string, second: string, window: Window)

  const Nightlife := Window(18, 2)
  const Cafe := Window(8, 20)
  const AllDay := Window(0, 24)
  const Shopping := Window(10, 22)
  const Office := Window(8, 17)
  const Outdoor := Window(5, 20)

  /** The window of a sub-category that no rule matches. */
  const Default := Window(9, 21)

  /** The rule table, in the order the rules are tried. */
  const Rules: seq<Rule> := [
    Rule("nightlife", "bars", Nightlife),
    Rule("cafes", "coffee", Cafe),
    Rule("fast food", "convenience", AllDay),
    Rule("shopping", "mall", Shopping),
    Rule("office", "gov", Office),
    Rule("parks", "beach", Outdoor)
  ]

  /** Every window the resolver can produce. */
  const Resolvable: set<Window> := {Nightlife, Cafe, AllDay, Shopping, Office, Outdoor, Default}

  predicate Matches(r: Rule, t: string) {
    Contains(t, r.first) || Contains(t, r.second)
  }

  /** Position of the first rule that matches `t`, or `|rules|` when none does. */
  function FirstMatchIndex(rules: seq<Rule>, t: string): (i: nat)
    ensures i <= |rules|
    ensures forall j :: 0 <= j < i ==> !Matches(rules[j], t)
    ensures i < |rules| ==> Matches(rules[i], t)
  {
    if rules == [] then 0
    else if Matches(rules[0], t) then 0
    else
      var i := FirstMatchIndex(rules[1..], t);
      assert forall j :: 0 < j <= i ==> rules[1..][j - 1] == rules[j];
      1 + i
  }

  /** Tries the rules top to bottom; the first that matches decides, else the default. */
  function FirstMatch(rules: seq<Rule>, t: string): (w: Window)
    ensures (forall j :: 0 <= j < |rules| ==> !Matches(rules[j], t)) ==> w == Default
    ensures forall i :: 0 <= i < |rules| && Matches(rules[i], t) ==>
                          (exists j :: 0 <= j < i && Matches(rules[j], t)) || w == rules[i].window
    ensures w == Default || exists i :: 0 <= i < |rules| && w == rules[i].window
  {
    var i := FirstMatchIndex(rules, t);
    if i < |rules| then rules[i].window else Default
  }

  /** `get_hours`: lower-cases the sub-category and resolves it through the table. */
  function GetHours(subCategory: string): (w: Window)
    ensures w in Resolvable
    ensures 0 <= w.open <= 24 && 0 <= w.close <= 24
  {
    assert forall i :: 0 <= i < |Rules| ==> Rules[i].window in Resolvable;
    FirstMatch(Rules, Lower(subCategory))
  }

  /** The table resolves exactly like the source's if/elif chain of substring tests. */
  lemma GetHoursByCases(subCategory: string)
    ensures var t := Lower(subCategory);
      GetHours(subCategory) ==
        if Contains(t, "nightlife") || Contains(t, "bars") then Window(18, 2)
        else if Contains(t, "cafes") || Contains(t, "coffee") then Window(8, 20)
        else if Contains(t, "fast food") || Contains(t, "convenience") then Window(0, 24)
        else if Contains(t, "shopping") || Contains(t, "mall") then Window(10, 22)
        else if Contains(t, "office") || Contains(t, "gov") then Window(8, 17)
        else if Contains(t, "parks") || Contains(t, "beach") then Window(5, 20)
        else Window(9, 21)
  {
    var t := Lower(subCategory);
    assert Rules[0] == Rule("nightlife", "bars", Nightlife);
    assert Rules[1] == Rule("cafes", "coffee", Cafe);
    assert Rules[2] == Rule("fast food", "convenience", AllDay);
    assert Rules[3] == Rule("shopping", "mall", Shopping);
    assert Rules[4] == Rule("office", "gov", Office);
    assert Rules[5] == Rule("parks", "beach", Outdoor);
  }

  /** Some keyword of some rule occurs in the lower-cased sub-category. */
  predicate AnyKeyword(subCategory: string) {
    exists i :: 0 <= i < |Rules| && Matches(Rules[i], Lower(subCategory))
  }

  /** The default window is produced exactly when no keyword occurs. */
  lemma DefaultIffNoKeyword(subCategory: string)
    ensures GetHours(subCategory) == Default <==> !AnyKeyword(subCategory)
  {
    var t := Lower(subCategory);
    var i := FirstMatchIndex(Rules, t);
    assert forall k :: 0 <= k < |Rules| ==> Rules[k].window != Default;
    if i < |Rules| {
      assert GetHours(subCategory) == Rules[i].window;
    } else {
      assert GetHours(subCategory) == Default;
    }
  }

  /** Only the nightlife/bars rule yields a window that wraps past midnight. */
  lemma WrapsIffNightlife(subCategory: string)
    ensures var w := GetHours(subCategory); var t := Lower(subCategory);
      w.open > w.close <==> Contains(t, "nightlife") || Contains(t, "bars")
  {
    GetHoursByCases(subCategory);
  }

  /** Matching ignores case: resolving the lower-cased string gives the same window. */
  lemma CaseInsensitive(subCategory: string)
    ensures GetHours(Lower(subCategory)) == GetHours(subCategory)
  {
    LowerIdempotent(subCategory);
  }

  /** A nightlife or bars keyword decides the window whatever else occurs. */
  lemma NightlifeWins(subCategory: string)
    requires Contains(Lower(subCategory), "nightlife") || Contains(Lower(subCategory), "bars")
    ensures GetHours(subCategory) == Nightlife
  {
    GetHoursByCases(subCategory);
  }

  /** First match, not most specific: a cafe in a mall gets cafe hours. */
  lemma CafesBeatMall(subCategory: string)
    requires var t := Lower(subCategory);
      Contains(t, "cafes") && Contains(t, "mall") && !Contains(t, "nightlife") && !Contains(t, "bars")
    ensures GetHours(subCategory) == Cafe
  {
    GetHoursByCases(subCategory);
  }
}
