/**
 * The tipping-point detector of the panel: a fixed table of climate
 * tipping points grouped by warming threshold, and the lookup that dates
 * each group by the first simulated year whose warming reaches it.
 */
module TippingPointsPanel {
  import opened SimulationCalculator

  datatype Option<T> = None | Some(value: T)

  datatype TippingPoint = TippingPoint(id: string, name: string, icon: string)

  /** Tipping points that are expected to trigger at the same warming, in degrees C. */
  datatype TippingPointGroup = TippingPointGroup(threshold: real, tippingPoints: seq<TippingPoint>)

  /** A tipping point with the year its group's threshold is first reached, if any. */
  datatype TippingPointYear = TippingPointYear(id: string, name: string, icon: string, year: Option<int>)

  datatype TippingPointYearsGroup = TippingPointYearsGroup(threshold: real, tippingPoints: seq<TippingPointYear>)

  /** One entry of the per-year results: the year (the record's key) and that year's state. */
  datatype YearEntry = YearEntry(year: int, data: YearlyData)

  const TIPPING_POINTS_GROUPS: seq<TippingPointGroup> := [
    TippingPointGroup(1.5, [
      TippingPoint("coral", "Warm-water coral reef collapse", "\U{1FAB8}"),
      TippingPoint("greenland", "Greenland Ice Sheet instability", "\U{1F9CA}"),
      TippingPoint("west_antarctica", "West Antarctic Ice Sheet collapse", "\U{2744}\U{FE0F}")
    ]),
    TippingPointGroup(1.8, [
      TippingPoint("labrador_sea", "SPG Convection collapse", "\U{1F30A}")
    ]),
    TippingPointGroup(3.5, [
      TippingPoint("amazon", "Amazon rainforest dieback", "\U{1F333}")
    ]),
    TippingPointGroup(4.0, [
      TippingPoint("amoc", "AMOC (Atlantic circulation) collapse", "\U{1F30D}"),
      TippingPoint("permafrost", "Boreal Permafrost collapse", "\U{1F976}")
    ])
  ]

  /** The groups are listed by strictly increasing threshold, and none is empty. */
  lemma GroupsOrdered()
    ensures forall g1, g2 :: 0 <= g1 < g2 < |TIPPING_POINTS_GROUPS| ==>
              TIPPING_POINTS_GROUPS[g1].threshold < TIPPING_POINTS_GROUPS[g2].threshold
    ensures forall g :: 0 <= g < |TIPPING_POINTS_GROUPS| ==> 0 < |TIPPING_POINTS_GROUPS[g].tippingPoints|
  {
  }

  /** The year's warming has reached `threshold`. */
  predicate Reaches(entry: YearEntry, threshold: real) {
    entry.data.temperatureIncrease >= threshold
  }

  /** Years are enumerated in increasing order. */
  predicate Ascending(entries: seq<YearEntry>) {
    forall i, j :: 0 <= i < j < |entries| ==> entries[i].year < entries[j].year
  }

  /** Index of the first entry, from `from` on, whose warming reaches `threshold`. */
  function FirstReaching(entries: seq<YearEntry>, threshold: real, from: nat): (k: Option<nat>)
    requires from <= |entries|
    decreases |entries| - from
    ensures k.Some? ==> from <= k.value < |entries| && Reaches(entries[k.value], threshold)
    ensures k.Some? ==> forall j :: from <= j < k.value ==> !Reaches(entries[j], threshold)
    ensures k.None? ==> forall j :: from <= j < |entries| ==> !Reaches(entries[j], threshold)
  {
    if from == |entries| then None
    else if entries[from].data.temperatureIncrease >= threshold then Some(from)
    else FirstReaching(entries, threshold, from + 1)
  }

  /** The year of the first entry whose warming reaches `threshold`. */
  function YearReached(entries: seq<YearEntry>, threshold: real): Option<int>
  {
    match FirstReaching(entries, threshold, 0)
    case None => None
    case Some(k) => Some(entries[k].year)
  }

  function DateTippingPoint(tp: TippingPoint, year: Option<int>): TippingPointYear {
    TippingPointYear(tp.id, tp.name, tp.icon, year)
  }

  /** Dates every tipping point of `group` with the year its threshold is first reached. */
  function DateGroup(group: TippingPointGroup, entries: seq<YearEntry>): TippingPointYearsGroup
  {
    var year := YearReached(entries, group.threshold);
    TippingPointYearsGroup(group.threshold,
      seq(|group.tippingPoints|, t requires 0 <= t < |group.tippingPoints| => DateTippingPoint(group.tippingPoints[t], year)))
  }

  /** The tipping-point groups, each dated by the simulated years; none without results. */
  function GetTippingPointYearsGroups(allYearlyResults: Option<seq<YearEntry>>): (groups: seq<TippingPointYearsGroup>)
    ensures allYearlyResults.None? ==> groups == []
    ensures allYearlyResults.Some? ==> |groups| == |TIPPING_POINTS_GROUPS|
  {
    match allYearlyResults
    case None => []
    case Some(entries) =>
      seq(|TIPPING_POINTS_GROUPS|, g requires 0 <= g < |TIPPING_POINTS_GROUPS| => DateGroup(TIPPING_POINTS_GROUPS[g], entries))
  }

  /**
   * A threshold has no year exactly when no simulated year reaches it, and
   * otherwise its year is that of the first entry that reaches it.
   */
  lemma YearReachedIsFirst(entries: seq<YearEntry>, threshold: real)
    ensures YearReached(entries, threshold).None? <==> forall j :: 0 <= j < |entries| ==> !Reaches(entries[j], threshold)
    ensures YearReached(entries, threshold).Some? ==>
              exists k :: 0 <= k < |entries| && entries[k].year == YearReached(entries, threshold).value
                          && Reaches(entries[k], threshold)
                          && forall j :: 0 <= j < k ==> !Reaches(entries[j], threshold)
  {
    var k := FirstReaching(entries, threshold, 0);
    if k.Some? {
      assert !(forall j :: 0 <= j < |entries| ==> !Reaches(entries[j], threshold)) by {
        assert Reaches(entries[k.value], threshold);
      }
    }
  }

  /** With years in increasing order, the year found is the earliest year that reaches the threshold. */
  lemma YearReachedIsEarliest(entries: seq<YearEntry>, threshold: real)
    requires Ascending(entries)
    ensures YearReached(entries, threshold).Some? ==>
              forall j :: 0 <= j < |entries| && Reaches(entries[j], threshold) ==>
                YearReached(entries, threshold).value <= entries[j].year
  {
  }

  /**
   * A higher threshold is reached no earlier: if it has a year, so does
   * every lower threshold, and with years in increasing order that year is
   * no later.
   */
  lemma YearReachedMonotone(entries: seq<YearEntry>, lower: real, higher: real)
    requires lower <= higher
    ensures YearReached(entries, higher).Some? ==> YearReached(entries, lower).Some?
    ensures Ascending(entries) && YearReached(entries, higher).Some? ==>
              YearReached(entries, lower).value <= YearReached(entries, higher).value
  {
    var kh := FirstReaching(entries, higher, 0);
    if kh.Some? {
      assert Reaches(entries[kh.value], lower);
      var kl := FirstReaching(entries, lower, 0);
      assert kl.Some? && kl.value <= kh.value;
    }
  }

  /**
   * With results, every group keeps its threshold and its tipping points
   * with their names and icons, in order, and each point carries the year
   * its group's threshold is first reached.
   */
  lemma GroupsDated(entries: seq<YearEntry>)
    ensures var groups := GetTippingPointYearsGroups(Some(entries));
            forall g :: 0 <= g < |groups| ==>
              && groups[g].threshold == TIPPING_POINTS_GROUPS[g].threshold
              && |groups[g].tippingPoints| == |TIPPING_POINTS_GROUPS[g].tippingPoints|
              && forall t :: 0 <= t < |groups[g].tippingPoints| ==>
                   var tp, dated := TIPPING_POINTS_GROUPS[g].tippingPoints[t], groups[g].tippingPoints[t];
                   && dated.id == tp.id && dated.name == tp.name && dated.icon == tp.icon
                   && dated.year == YearReached(entries, groups[g].threshold)
  {
  }

  /** All tipping points of a group share the same year. */
  lemma GroupSharesYear(entries: seq<YearEntry>, g: nat, t1: nat, t2: nat)
    requires g < |TIPPING_POINTS_GROUPS|
    requires t1 < |TIPPING_POINTS_GROUPS[g].tippingPoints| && t2 < |TIPPING_POINTS_GROUPS[g].tippingPoints|
    ensures var group := GetTippingPointYearsGroups(Some(entries))[g];
            group.tippingPoints[t1].year == group.tippingPoints[t2].year
  {
    GroupsDated(entries);
  }

  /**
   * Groups listed later are dated no earlier: if a later group has a year,
   * every earlier group has one, and with years in increasing order it is
   * no later.
   */
  lemma LaterGroupsNoEarlier(entries: seq<YearEntry>, g1: nat, g2: nat, t1: nat, t2: nat)
    requires g1 < g2 < |TIPPING_POINTS_GROUPS|
    requires t1 < |TIPPING_POINTS_GROUPS[g1].tippingPoints| && t2 < |TIPPING_POINTS_GROUPS[g2].tippingPoints|
    ensures var groups := GetTippingPointYearsGroups(Some(entries));
            var early, late := groups[g1].tippingPoints[t1].year, groups[g2].tippingPoints[t2].year;
            && (late.Some? ==> early.Some?)
            && (Ascending(entries) && late.Some? ==> early.value <= late.value)
  {
    GroupsOrdered();
    GroupsDated(entries);
    YearReachedMonotone(entries, TIPPING_POINTS_GROUPS[g1].threshold, TIPPING_POINTS_GROUPS[g2].threshold);
  }
}
