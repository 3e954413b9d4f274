/** The data logic of the dashboard page over the loaded records: the list
    of platforms offered for selection (line 110), the date bounds of the
    date picker (lines 116-123), the platform and date filter (lines
    138-142) and the fill-value masks that decide what each profile chart
    plots (lines 172-199). */
module Dashboard {
  import opened Wrappers
  import opened Floats
  import Masks
  import Julian
  import Loader

  // ------------------------------------------------------------------
  // Platforms offered for selection
  // ------------------------------------------------------------------

  /** The position of the first occurrence of x in s. */
  function FirstIndex(s: seq<string>, x: string): (i: nat)
    requires x in s
    ensures i < |s| && s[i] == x && forall j :: 0 <= j < i ==> s[j] != x
  {
    if s[0] == x then 0 else 1 + FirstIndex(s[1..], x)
  }

  /** `Series.unique()`: each distinct value once, in order of first
      appearance. */
  function Unique(s: seq<string>): (u: seq<string>)
    ensures forall i, j :: 0 <= i < j < |u| ==> u[i] != u[j]
    ensures forall x :: x in u <==> x in s
  {
    if |s| == 0 then []
    else
      var u := Unique(s[..|s| - 1]);
      assert forall x :: x in s <==> x in s[..|s| - 1] || x == s[|s| - 1];
      if s[|s| - 1] in u then u else u + [s[|s| - 1]]
  }

  /** Unique lists the values in the order in which they first appear. */
  lemma {:induction false} UniqueInFirstAppearanceOrder(s: seq<string>)
    ensures forall k, l :: 0 <= k < l < |Unique(s)| ==>
      FirstIndex(s, Unique(s)[k]) < FirstIndex(s, Unique(s)[l])
  {
    if |s| > 0 {
      var n := |s| - 1;
      var p := s[..n];
      var u := Unique(p);
      UniqueInFirstAppearanceOrder(p);
      PrefixOrderCarries(s, n, u);
      if s[n] !in u {
        assert s[n] !in p;
        assert FirstIndex(s, s[n]) == n;
        assert Unique(s) == u + [s[n]];
      } else {
        assert Unique(s) == u;
      }
    }
  }

  /** Values of a prefix keep their first-appearance order in the whole
      sequence, and all first appear inside the prefix. */
  lemma PrefixOrderCarries(s: seq<string>, n: nat, u: seq<string>)
    requires n <= |s|
    requires forall k :: 0 <= k < |u| ==> u[k] in s[..n]
    requires forall k, l :: 0 <= k < l < |u| ==> FirstIndex(s[..n], u[k]) < FirstIndex(s[..n], u[l])
    ensures forall k :: 0 <= k < |u| ==> u[k] in s && FirstIndex(s, u[k]) < n
    ensures forall k, l :: 0 <= k < l < |u| ==> FirstIndex(s, u[k]) < FirstIndex(s, u[l])
  {
    forall k | 0 <= k < |u|
      ensures u[k] in s && FirstIndex(s, u[k]) == FirstIndex(s[..n], u[k]) < n
    {
      FirstIndexOfPrefix(s, n, u[k]);
    }
  }

  /** A value that occurs in a prefix first occurs where it first occurs in
      the prefix. */
  lemma {:induction false} FirstIndexOfPrefix(s: seq<string>, n: nat, x: string)
    requires n <= |s| && x in s[..n]
    ensures x in s && FirstIndex(s, x) == FirstIndex(s[..n], x)
  {
    var i := FirstIndex(s[..n], x);
    assert s[..n][i] == s[i];
  }

  /** The platform column. */
  function PlatformColumn(rs: seq<Loader.ProfileRecord>): (ps: seq<string>)
    ensures |ps| == |rs| && forall i :: 0 <= i < |rs| ==> ps[i] == rs[i].platform
  {
    seq(|rs|, i requires 0 <= i < |rs| => rs[i].platform)
  }

  /** Line 110: the platforms of the loaded records, each once. */
  function Platforms(rs: seq<Loader.ProfileRecord>): (ps: seq<string>)
    ensures forall i :: 0 <= i < |rs| ==> rs[i].platform in ps
    ensures forall k, l :: 0 <= k < l < |ps| ==> ps[k] != ps[l]
  {
    assert forall i :: 0 <= i < |rs| ==> PlatformColumn(rs)[i] == rs[i].platform;
    Unique(PlatformColumn(rs))
  }

  /** Every record's platform is offered, each platform once, and in the order
      in which the records first show it. */
  lemma PlatformsSpec(rs: seq<Loader.ProfileRecord>)
    ensures forall i :: 0 <= i < |rs| ==> rs[i].platform in Platforms(rs)
    ensures forall x :: x in Platforms(rs) ==> exists i :: 0 <= i < |rs| && rs[i].platform == x
    ensures forall k, l :: 0 <= k < l < |Platforms(rs)| ==> Platforms(rs)[k] != Platforms(rs)[l]
    ensures forall k, l :: 0 <= k < l < |Platforms(rs)| ==>
      FirstIndex(PlatformColumn(rs), Platforms(rs)[k]) < FirstIndex(PlatformColumn(rs), Platforms(rs)[l])
  {
    var ps := PlatformColumn(rs);
    UniqueInFirstAppearanceOrder(ps);
    forall x | x in Platforms(rs)
      ensures exists i :: 0 <= i < |rs| && rs[i].platform == x
    {
      var i := FirstIndex(ps, x);
      assert rs[i].platform == x;
    }
  }

  // ------------------------------------------------------------------
  // Date bounds of the date picker
  // ------------------------------------------------------------------

  /** Line 116: the times that are present, in record order. */
  function ValidTimes(rs: seq<Loader.ProfileRecord>): (ts: seq<Julian.Instant>)
    ensures forall k :: 0 <= k < |ts| ==> exists i :: 0 <= i < |rs| && rs[i].timeUtc == Some(ts[k])
    ensures forall i :: 0 <= i < |rs| && rs[i].timeUtc.Some? ==> rs[i].timeUtc.value in ts
  {
    if |rs| == 0 then []
    else
      var last := rs[|rs| - 1];
      var ts := ValidTimes(rs[..|rs| - 1]);
      assert forall i :: 0 <= i < |rs| - 1 ==> rs[..|rs| - 1][i] == rs[i];
      if last.timeUtc.Some? then ts + [last.timeUtc.value] else ts
  }

  /** `min` over a non-empty list of datetimes. */
  function MinTime(ts: seq<Julian.Instant>): (m: Julian.Instant)
    requires |ts| > 0
    ensures m in ts && forall k :: 0 <= k < |ts| ==> m.micros <= ts[k].micros
  {
    if |ts| == 1 then ts[0]
    else
      var m := MinTime(ts[1..]);
      assert forall k :: 1 <= k < |ts| ==> ts[k] == ts[1..][k - 1];
      if ts[0].micros <= m.micros then ts[0] else m
  }

  /** `max` over a non-empty list of datetimes. */
  function MaxTime(ts: seq<Julian.Instant>): (m: Julian.Instant)
    requires |ts| > 0
    ensures m in ts && forall k :: 0 <= k < |ts| ==> ts[k].micros <= m.micros
  {
    if |ts| == 1 then ts[0]
    else
      var m := MaxTime(ts[1..]);
      assert forall k :: 1 <= k < |ts| ==> ts[k] == ts[1..][k - 1];
      if m.micros < ts[0].micros then ts[0] else m
  }

  /** Lines 116-123: the dates of the earliest and the latest present time,
      or today twice when no time is present. */
  function DateBounds(rs: seq<Loader.ProfileRecord>, today: int): (b: (int, int))
    ensures b.0 <= b.1
  {
    var ts := ValidTimes(rs);
    if |ts| == 0 then (today, today)
    else
      Julian.DayMonotone(MinTime(ts), MaxTime(ts));
      (Julian.Day(MinTime(ts)), Julian.Day(MaxTime(ts)))
  }

  /** The lower bound never exceeds the upper one. When some record has a
      time, the bounds are the dates of two such records and every record's
      date lies between them; otherwise both are today. */
  lemma DateBoundsSpec(rs: seq<Loader.ProfileRecord>, today: int)
    ensures DateBounds(rs, today).0 <= DateBounds(rs, today).1
    ensures (forall i :: 0 <= i < |rs| ==> rs[i].timeUtc.None?) ==> DateBounds(rs, today) == (today, today)
    ensures forall i :: 0 <= i < |rs| && rs[i].timeUtc.Some? ==>
      DateBounds(rs, today).0 <= Julian.Day(rs[i].timeUtc.value) <= DateBounds(rs, today).1
    ensures (exists i :: 0 <= i < |rs| && rs[i].timeUtc.Some?) ==>
      (exists i :: 0 <= i < |rs| && rs[i].timeUtc.Some? && Julian.Day(rs[i].timeUtc.value) == DateBounds(rs, today).0) &&
      (exists j :: 0 <= j < |rs| && rs[j].timeUtc.Some? && Julian.Day(rs[j].timeUtc.value) == DateBounds(rs, today).1)
  {
    var ts := ValidTimes(rs);
    if |ts| > 0 {
      Julian.DayMonotone(MinTime(ts), MaxTime(ts));
    } else {
      assert forall i :: 0 <= i < |rs| ==> rs[i].timeUtc.None?;
    }
    DatedWithinBounds(rs, today);
    BoundsAttained(rs, today);
  }

  /** Every record with a time has its date within the date bounds. */
  lemma DatedWithinBounds(rs: seq<Loader.ProfileRecord>, today: int)
    ensures forall i :: 0 <= i < |rs| && rs[i].timeUtc.Some? ==>
      DateBounds(rs, today).0 <= Julian.Day(rs[i].timeUtc.value) <= DateBounds(rs, today).1
  {
    var ts := ValidTimes(rs);
    forall i | 0 <= i < |rs| && rs[i].timeUtc.Some?
      ensures DateBounds(rs, today).0 <= Julian.Day(rs[i].timeUtc.value) <= DateBounds(rs, today).1
    {
      var t := rs[i].timeUtc.value;
      var k :| 0 <= k < |ts| && ts[k] == t;
      Julian.DayMonotone(MinTime(ts), t);
      Julian.DayMonotone(t, MaxTime(ts));
    }
  }

  /** When some record has a time, each bound is the date of such a record. */
  lemma BoundsAttained(rs: seq<Loader.ProfileRecord>, today: int)
    ensures (exists i :: 0 <= i < |rs| && rs[i].timeUtc.Some?) ==>
      (exists i :: 0 <= i < |rs| && rs[i].timeUtc.Some? && Julian.Day(rs[i].timeUtc.value) == DateBounds(rs, today).0) &&
      (exists j :: 0 <= j < |rs| && rs[j].timeUtc.Some? && Julian.Day(rs[j].timeUtc.value) == DateBounds(rs, today).1)
  {
    var ts := ValidTimes(rs);
    if |ts| > 0 {
      var a :| 0 <= a < |ts| && ts[a] == MinTime(ts);
      var b :| 0 <= b < |ts| && ts[b] == MaxTime(ts);
      var i :| 0 <= i < |rs| && rs[i].timeUtc == Some(ts[a]);
      var j :| 0 <= j < |rs| && rs[j].timeUtc == Some(ts[b]);
    }
  }

  // ------------------------------------------------------------------
  // Platform and date filter
  // ------------------------------------------------------------------

  /** Lines 138-142 on one record: its platform is selected and the date of
      its time lies in [lo, hi]. A record without a time is not shown. */
  predicate Shown(r: Loader.ProfileRecord, selected: set<string>, lo: int, hi: int) {
    r.platform in selected && r.timeUtc.Some? && lo <= Julian.Day(r.timeUtc.value) <= hi
  }

  /** Lines 138-142: the boolean column the conditions combine to. */
  function ShownMask(rs: seq<Loader.ProfileRecord>, selected: set<string>, lo: int, hi: int): (mask: seq<bool>)
    ensures |mask| == |rs| && forall i :: 0 <= i < |rs| ==> mask[i] == Shown(rs[i], selected, lo, hi)
  {
    seq(|rs|, i requires 0 <= i < |rs| => Shown(rs[i], selected, lo, hi))
  }

  /** Lines 138-142: the records shown for the selected platforms and the
      picked date range; a range with fewer than two dates cannot be indexed
      at [0] and [1]. */
  function FilterProfiles(rs: seq<Loader.ProfileRecord>, selected: set<string>, dateRange: seq<int>)
    : (r: Result<seq<Loader.ProfileRecord>>)
    ensures r.Err? <==> |dateRange| < 2
    ensures r.Err? ==> r.error == IndexError
    ensures r.Ok? ==> |r.value| <= |rs|
  {
    if |dateRange| < 2 then Err(IndexError)
    else
      Masks.TrueIndicesBound(ShownMask(rs, selected, dateRange[0], dateRange[1]));
      Ok(Masks.Select(rs, ShownMask(rs, selected, dateRange[0], dateRange[1])))
  }

  /** The filter fails only on a range of fewer than two dates. Otherwise it
      keeps a subsequence of the records, in order: a record is kept exactly
      when its platform is selected and its date lies in the range, bounds
      included. */
  lemma FilterProfilesSpec(rs: seq<Loader.ProfileRecord>, selected: set<string>, dateRange: seq<int>)
    ensures FilterProfiles(rs, selected, dateRange).Err? <==> |dateRange| < 2
    ensures FilterProfiles(rs, selected, dateRange).Err? ==> FilterProfiles(rs, selected, dateRange).error == IndexError
    ensures FilterProfiles(rs, selected, dateRange).Ok? ==>
      var shown := FilterProfiles(rs, selected, dateRange).value;
      var lo, hi := dateRange[0], dateRange[1];
      var idx := Masks.TrueIndices(ShownMask(rs, selected, lo, hi));
      && |shown| == |idx| <= |rs|
      && (forall k :: 0 <= k < |idx| ==> idx[k] < |rs| && shown[k] == rs[idx[k]])
      && (forall k, l :: 0 <= k < l < |idx| ==> idx[k] < idx[l])
      && (forall i :: 0 <= i < |rs| ==>
            (i in idx <==> rs[i].platform in selected && rs[i].timeUtc.Some? &&
                           lo <= Julian.Day(rs[i].timeUtc.value) <= hi))
  {
    if |dateRange| >= 2 {
      Masks.TrueIndicesBound(ShownMask(rs, selected, dateRange[0], dateRange[1]));
    }
  }

  /** A record has a time. */
  predicate HasTime(r: Loader.ProfileRecord) {
    r.timeUtc.Some?
  }

  /** The page as first shown (lines 110-112 and 130-135): with every
      platform selected and the date range set to the date bounds, the
      filter shows exactly the records that have a time. */
  lemma DefaultViewShowsEveryDatedRecord(rs: seq<Loader.ProfileRecord>, today: int)
    ensures var b := DateBounds(rs, today);
      FilterProfiles(rs, set x | x in Platforms(rs), [b.0, b.1]) == Ok(Masks.Filter(rs, HasTime))
  {
    var b := DateBounds(rs, today);
    var selected := set x | x in Platforms(rs);
    EveryPlatformSelected(rs, selected);
    DatedWithinBounds(rs, today);
    ShownMaskOfEverything(rs, selected, b.0, b.1);
  }

  /** When every platform is selected and every date is in range, the shown
      records are those with a time. */
  lemma ShownMaskOfEverything(rs: seq<Loader.ProfileRecord>, selected: set<string>, lo: int, hi: int)
    requires forall i :: 0 <= i < |rs| ==> rs[i].platform in selected
    requires forall i :: 0 <= i < |rs| && rs[i].timeUtc.Some? ==> lo <= Julian.Day(rs[i].timeUtc.value) <= hi
    ensures ShownMask(rs, selected, lo, hi) == Masks.Where(rs, HasTime)
  {
    var mask := ShownMask(rs, selected, lo, hi);
    assert forall i :: 0 <= i < |rs| ==> mask[i] == HasTime(rs[i]);
  }

  lemma EveryPlatformSelected(rs: seq<Loader.ProfileRecord>, selected: set<string>)
    requires forall x :: x in Platforms(rs) ==> x in selected
    ensures forall i :: 0 <= i < |rs| ==> rs[i].platform in selected
  {
    forall i | 0 <= i < |rs|
      ensures rs[i].platform in selected
    {
      assert PlatformColumn(rs)[i] == rs[i].platform;
    }
  }

  // ------------------------------------------------------------------
  // Fill-value masks of the profile charts
  // ------------------------------------------------------------------

  /** `x != 99999.0`; NaN differs from every value, so it is kept. */
  predicate NotFill(x: Double) {
    !Eq(x, FillValue)
  }

  /** Lines 175-177: the element-wise mask `values != 99999.0`. */
  function FillMask(values: seq<Double>): (mask: seq<bool>)
    ensures |mask| == |values|
    ensures forall i :: 0 <= i < |values| ==> (mask[i] <==> NotFill(values[i]))
  {
    Masks.Where(values, NotFill)
  }

  /** `mask.any()`. */
  predicate Any(mask: seq<bool>) {
    exists i :: 0 <= i < |mask| && mask[i]
  }

  /** The two variables a profile chart plots against pressure. */
  datatype Variable = Temperature | Salinity

  /** One line of a chart: x values against y (pressure) values. */
  datatype Trace = Trace(variable: Variable, x: seq<Double>, y: seq<Double>)

  /** Lines 179-199 for one variable: no trace when every value is the fill
      value; otherwise the kept values against `pres[mask]`, which raises
      IndexError when the pressures are not as many as the values. The
      pressure mask of line 177 is never applied. */
  function TraceOf(variable: Variable, values: seq<Double>, pres: seq<Double>): (r: Result<Option<Trace>>)
    ensures r.Err? ==> r.error == IndexError
    ensures r.Ok? && r.value.Some? ==>
      r.value.value.variable == variable && |r.value.value.x| == |r.value.value.y| > 0
  {
    var mask := FillMask(values);
    if !Any(mask) then Ok(None)
    else if |pres| != |mask| then Err(IndexError)
    else Ok(Some(Trace(variable, Masks.Select(values, mask), Masks.Select(pres, mask))))
  }

  /** There is no trace exactly when every value is the fill value, and an
      error exactly when some value is not and pressures and values differ
      in number. A trace holds exactly the values other than 99999.0, in
      their order, each paired with the pressure at its own index. */
  lemma TraceSpec(variable: Variable, values: seq<Double>, pres: seq<Double>)
    ensures TraceOf(variable, values, pres) == Ok(None) <==>
      forall i :: 0 <= i < |values| ==> Eq(values[i], FillValue)
    ensures TraceOf(variable, values, pres).Err? <==>
      (exists i :: 0 <= i < |values| && NotFill(values[i])) && |pres| != |values|
    ensures TraceOf(variable, values, pres).Err? ==> TraceOf(variable, values, pres).error == IndexError
    ensures TraceOf(variable, values, pres).Ok? && TraceOf(variable, values, pres).value.Some? ==>
      var t := TraceOf(variable, values, pres).value.value;
      var idx := Masks.TrueIndices(FillMask(values));
      && t.variable == variable && |t.x| == |idx| && |t.y| == |idx|
      && (forall k :: 0 <= k < |idx| ==>
            idx[k] < |values| && idx[k] < |pres| && NotFill(t.x[k]) && t.x[k] == values[idx[k]] && t.y[k] == pres[idx[k]])
      && (forall k, l :: 0 <= k < l < |idx| ==> idx[k] < idx[l])
      && (forall i :: 0 <= i < |values| && NotFill(values[i]) ==> i in idx)
  {
    var mask := FillMask(values);
    if !Any(mask) {
      assert forall i :: 0 <= i < |values| ==> !mask[i];
    }
  }

  /** A fill pressure at a kept index is plotted: line 177's mask is
      unused, so a value other than 99999.0 is drawn at pressure 99999.0. */
  lemma FillPressureIsPlotted(variable: Variable, values: seq<Double>, pres: seq<Double>, i: nat)
    requires |pres| == |values| && i < |values|
    requires NotFill(values[i]) && Eq(pres[i], FillValue)
    ensures TraceOf(variable, values, pres).Ok? && TraceOf(variable, values, pres).value.Some?
    ensures var t := TraceOf(variable, values, pres).value.value;
      exists k :: 0 <= k < |t.x| && k < |t.y| && t.x[k] == values[i] && Eq(t.y[k], FillValue)
  {
    TraceSpec(variable, values, pres);
    var idx := Masks.TrueIndices(FillMask(values));
    var k :| 0 <= k < |idx| && idx[k] == i;
  }

  function OptionSeq<T>(o: Option<T>): seq<T> {
    if o.Some? then [o.value] else []
  }

  /** Lines 172-199: the traces of one profile's chart, temperature first
      and then salinity; the first mask indexing that raises aborts. */
  function Figure(r: Loader.ProfileRecord): (res: Result<seq<Trace>>)
    ensures res.Err? ==> res.error == IndexError
    ensures res.Ok? ==> |res.value| <= 2
  {
    match TraceOf(Temperature, r.temp, r.pres)
    case Err(e) => Err(e)
    case Ok(t) =>
      match TraceOf(Salinity, r.psal, r.pres)
      case Err(e) => Err(e)
      case Ok(s) => Ok(OptionSeq(t) + OptionSeq(s))
  }

  /** A profile whose three level arrays have one length always gets its
      chart: one temperature trace when some temperature is not the fill
      value, then one salinity trace when some salinity is not. */
  lemma FigureSpec(r: Loader.ProfileRecord)
    requires |r.temp| == |r.pres| == |r.psal|
    ensures Figure(r).Ok?
    ensures |Figure(r).value| ==
      (if Any(FillMask(r.temp)) then 1 else 0) + (if Any(FillMask(r.psal)) then 1 else 0)
    ensures forall k :: 0 <= k < |Figure(r).value| ==>
      (Figure(r).value[k].variable == Temperature <==> k == 0 && Any(FillMask(r.temp)))
    ensures Any(FillMask(r.temp)) ==>
      |Figure(r).value| > 0 && Figure(r).value[0] == TraceOf(Temperature, r.temp, r.pres).value.value
    ensures Any(FillMask(r.psal)) ==>
      |Figure(r).value| > 0 &&
      Figure(r).value[|Figure(r).value| - 1] == TraceOf(Salinity, r.psal, r.pres).value.value
  {
    TraceShape(Temperature, r.temp, r.pres);
    TraceShape(Salinity, r.psal, r.pres);
    var t := TraceOf(Temperature, r.temp, r.pres).value;
    var s := TraceOf(Salinity, r.psal, r.pres).value;
    assert Figure(r) == Ok(OptionSeq(t) + OptionSeq(s));
  }

  /** With as many pressures as values, a variable's trace is built, and
      it exists exactly when some value is not the fill value. */
  lemma TraceShape(variable: Variable, values: seq<Double>, pres: seq<Double>)
    requires |pres| == |values|
    ensures TraceOf(variable, values, pres).Ok?
    ensures TraceOf(variable, values, pres).value.Some? <==> Any(FillMask(values))
    ensures TraceOf(variable, values, pres).value.Some? ==>
      TraceOf(variable, values, pres).value.value.variable == variable
  {
  }
}
