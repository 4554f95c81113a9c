/** The base filters of the activity list (logic.py, `apply_base_filters`): availability
    on the chosen day, activity type, group size and budget, applied one after another
    as row selections. */
module BaseFilters {
  import opened Util
  import opened Activities

  /** Available on `day`: no start date or one on/before the day, and no end date or one
      on/after the day. */
  predicate AvailableOn(a: Activity, day: int)
  {
    (a.datumVon.None? || a.datumVon.value <= day) && (a.datumBis.None? || a.datumBis.value >= day)
  }

  /** "Alle" disables the type filter; otherwise the Art must be exactly the chosen type
      (an empty Art never matches). */
  predicate MatchesType(a: Activity, activityType: string)
  {
    activityType == "Alle" || (a.art.Some? && a.art.value == activityType)
  }

  /** Personen_Min with an empty cell read as 1. */
  function MinPeople(a: Activity): real
  {
    if a.personenMin.Some? then a.personenMin.value else 1.0
  }

  /** Personen_Max is at least `n`; an empty cell is unbounded. */
  predicate MaxAtLeast(a: Activity, n: real)
  {
    a.personenMax.None? || a.personenMax.value >= n
  }

  /** The group-size table. A category the table does not list (such as "Alle" or the
      LLM's "Paar") keeps every row. */
  predicate FitsGroup(a: Activity, people: string)
  {
    if people == "Alleine" then MinPeople(a) <= 1.0 && MaxAtLeast(a, 1.0)
    else if people == "Zu zweit" then MinPeople(a) <= 2.0 && MaxAtLeast(a, 2.0)
    else if people == "Bis 4 Personen" then MinPeople(a) <= 4.0 && MaxAtLeast(a, 1.0)
    else if people == "Mehr als 4 Personen" then MaxAtLeast(a, 5.0)
    else if people == "Kleingruppe" then MinPeople(a) <= 5.0 && MaxAtLeast(a, 2.0)
    else if people == "Grossgruppe" then MaxAtLeast(a, 6.0)
    else true
  }

  /** No budget keeps every row; otherwise the price must be known and at most the budget. */
  predicate WithinBudget(a: Activity, budget: Option<real>)
  {
    budget.None? || (a.price.Some? && a.price.value <= budget.value)
  }

  function ByDate(day: int): Activity -> bool { a => AvailableOn(a, day) }
  function ByType(activityType: string): Activity -> bool { a => MatchesType(a, activityType) }
  function ByGroup(people: string): Activity -> bool { a => FitsGroup(a, people) }
  function ByBudget(budget: Option<real>): Activity -> bool { a => WithinBudget(a, budget) }

  /** A row passes every active base filter. */
  predicate KeepRow(a: Activity, day: int, activityType: string, people: string, budget: Option<real>)
  {
    AvailableOn(a, day) && MatchesType(a, activityType) && FitsGroup(a, people) && WithinBudget(a, budget)
  }

  function ByAll(day: int, activityType: string, people: string, budget: Option<real>): Activity -> bool
  {
    a => KeepRow(a, day, activityType, people, budget)
  }

  /** `apply_base_filters`: an empty table or no selected day gives an empty table; otherwise
      the four selections in the order of the source. The source's early returns on an empty
      intermediate result give the same empty table, so they are not separate cases here.
      A row is kept exactly when it passes all four filters; `BaseFiltersMembership` adds
      that the kept rows keep their order. */
  function ApplyBaseFilters(t: seq<Activity>, day: Option<int>, activityType: string, people: string, budget: Option<real>): (r: seq<Activity>)
    ensures |r| <= |t|
    ensures day.None? ==> r == []
    ensures forall a :: a in r <==> a in t && day.Some? && KeepRow(a, day.value, activityType, people, budget)
  {
    if t == [] || day.None? then []
    else
      var byDate := Filter(t, ByDate(day.value));
      var byType := Filter(byDate, ByType(activityType));
      var byGroup := Filter(byType, ByGroup(people));
      Filter(byGroup, ByBudget(budget))
  }

  /** The chain of selections is one selection by the conjunction of the four filters. */
  lemma BaseFiltersAreOneSelection(t: seq<Activity>, day: int, activityType: string, people: string, budget: Option<real>)
    ensures ApplyBaseFilters(t, Some(day), activityType, people, budget)
      == Filter(t, ByAll(day, activityType, people, budget))
  {
    if t != [] {
      var dt := (a: Activity) => AvailableOn(a, day) && MatchesType(a, activityType);
      var dtg := (a: Activity) => dt(a) && FitsGroup(a, people);
      FilterFilter(t, ByDate(day), ByType(activityType), dt);
      FilterFilter(t, dt, ByGroup(people), dtg);
      FilterFilter(t, dtg, ByBudget(budget), ByAll(day, activityType, people, budget));
    }
  }

  /** The result keeps, in their original order, exactly the rows that pass every filter. */
  lemma BaseFiltersMembership(t: seq<Activity>, day: Option<int>, activityType: string, people: string, budget: Option<real>)
    ensures var r := ApplyBaseFilters(t, day, activityType, people, budget);
      IsSubsequence(r, t)
      && (day.None? ==> r == [])
      && forall a :: a in r <==> a in t && day.Some? && KeepRow(a, day.value, activityType, people, budget)
  {
    if t != [] && day.Some? {
      BaseFiltersAreOneSelection(t, day.value, activityType, people, budget);
      FilterIsSubsequence(t, ByAll(day.value, activityType, people, budget));
    }
  }

  /** A smaller budget never lets more rows through: the result for the smaller budget is a
      sub-selection of the result for the larger one. */
  lemma BudgetMonotone(t: seq<Activity>, day: Option<int>, activityType: string, people: string, low: real, high: real)
    requires low <= high
    ensures IsSubsequence(ApplyBaseFilters(t, day, activityType, people, Some(low)),
                          ApplyBaseFilters(t, day, activityType, people, Some(high)))
  {
    if t != [] && day.Some? {
      var byGroup := Filter(Filter(Filter(t, ByDate(day.value)), ByType(activityType)), ByGroup(people));
      FilterMonotone(byGroup, ByBudget(Some(low)), ByBudget(Some(high)));
    }
  }
}
