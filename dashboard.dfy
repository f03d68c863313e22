/** The monitoring dashboard's mock telemetry. Five category records are
    generated from random draws when the page mounts and regenerated every
    five seconds; the same timer adds a random number of visitors to a running
    total and appends that sample to a history that keeps the last ten. The
    page's status cards are folds over the current records. */
module Dashboard {

  /** One category's telemetry snapshot. */
  datatype ExhibitData = ExhibitData(
    name: string,
    working: int,
    defective: int,
    usage: int,
    maintenanceTime: int,
    defectFrequency: int)

  /** One tick's visitor increment with the time label it was taken at. */
  datatype VisitorData = VisitorData(time: string, visitors: int)

  /** The five `Math.random()` results consumed for one category record,
      one per numeric field. */
  datatype Draws = Draws(
    working: real,
    defective: real,
    usage: real,
    maintenanceTime: real,
    defectFrequency: real)

  /** The fixed categories, in display order. */
  const Categories: seq<string> := ["Physics", "Chemistry", "Biology", "Astronomy", "Robotics"]

  /** How many visitor samples the history keeps (`slice(-10)`). */
  const HistoryLimit: nat := 10

  /** What `Math.random()` promises: a value in [0, 1). */
  predicate IsRandom(r: real)
  {
    0.0 <= r < 1.0
  }

  predicate DrawsValid(d: Draws)
  {
    IsRandom(d.working) && IsRandom(d.defective) && IsRandom(d.usage)
    && IsRandom(d.maintenanceTime) && IsRandom(d.defectFrequency)
  }

  /** `Math.floor(r * k)`: an integer below k drawn from the random value r. */
  function RandomBelow(r: real, k: nat): (v: int)
    ensures IsRandom(r) && k > 0 ==> 0 <= v < k
  {
    assert IsRandom(r) && k > 0 ==> 0.0 <= r * k as real < k as real by {
      if IsRandom(r) && k > 0 {
        assert r * k as real < 1.0 * k as real;
      }
    }
    (r * k as real).Floor
  }

  /** One record of `generateRandomData`, built from its category name and
      draws; random draws give a record in the documented ranges. */
  function GenerateRecord(name: string, d: Draws): (e: ExhibitData)
    ensures e.name == name
    ensures DrawsValid(d) ==> InRange(e)
  {
    ExhibitData(
      name,
      RandomBelow(d.working, 50) + 50,
      RandomBelow(d.defective, 10),
      RandomBelow(d.usage, 1000) + 500,
      RandomBelow(d.maintenanceTime, 60) + 30,
      RandomBelow(d.defectFrequency, 20) + 1)
  }

  /** The documented ranges of a generated record's fields. */
  predicate InRange(e: ExhibitData)
  {
    50 <= e.working <= 99
    && 0 <= e.defective <= 9
    && 500 <= e.usage <= 1499
    && 30 <= e.maintenanceTime <= 89
    && 1 <= e.defectFrequency <= 20
  }

  /** What every result of `generateRandomData` looks like: one record per
      category, in order, each field in range. */
  predicate WellFormed(data: seq<ExhibitData>)
  {
    |data| == |Categories|
    && forall i :: 0 <= i < |data| ==> data[i].name == Categories[i] && InRange(data[i])
  }

  /** `generateRandomData`: the category list mapped to fresh records, the
      i-th record built from the i-th category's draws. */
  function GenerateRandomData(draws: seq<Draws>): (data: seq<ExhibitData>)
    requires |draws| == |Categories|
    requires forall i :: 0 <= i < |draws| ==> DrawsValid(draws[i])
    ensures |data| == 5
    ensures data[0].name == "Physics" && data[1].name == "Chemistry" && data[2].name == "Biology"
    ensures data[3].name == "Astronomy" && data[4].name == "Robotics"
    ensures WellFormed(data)
  {
    seq(|Categories|, i requires 0 <= i < |Categories| => GenerateRecord(Categories[i], draws[i]))
  }

  // The status cards' aggregates. Each is a left fold (`reduce`) from 0.

  /** `totalExhibits`: the sum of working plus defective over the records;
      never negative when no count is. */
  function TotalExhibits(data: seq<ExhibitData>): (total: int)
    ensures (forall i :: 0 <= i < |data| ==> data[i].working >= 0 && data[i].defective >= 0)
      ==> total >= 0
  {
    if data == [] then 0
    else TotalExhibits(data[..|data| - 1]) + data[|data| - 1].working + data[|data| - 1].defective
  }

  /** `workingExhibits`: the sum of working over the records; never negative
      when no working count is. */
  function WorkingExhibits(data: seq<ExhibitData>): (working: int)
    ensures (forall i :: 0 <= i < |data| ==> data[i].working >= 0) ==> working >= 0
  {
    if data == [] then 0
    else WorkingExhibits(data[..|data| - 1]) + data[|data| - 1].working
  }

  /** `defectiveExhibits`, computed by the page as a difference of two folds,
      is the sum of the defective counts. */
  function DefectiveExhibits(data: seq<ExhibitData>): (defective: int)
    ensures defective == SumDefective(data)
  {
    DefectiveIsSumOfDefective(data);
    TotalExhibits(data) - WorkingExhibits(data)
  }

  /** Reference definition: the sum of the defective counts. */
  function SumDefective(data: seq<ExhibitData>): int
  {
    if data == [] then 0
    else SumDefective(data[..|data| - 1]) + data[|data| - 1].defective
  }

  /** The difference of the two folds is the sum of the defective counts. */
  lemma {:induction false} DefectiveIsSumOfDefective(data: seq<ExhibitData>)
    ensures TotalExhibits(data) - WorkingExhibits(data) == SumDefective(data)
    decreases |data|
  {
    if data != [] {
      DefectiveIsSumOfDefective(data[..|data| - 1]);
    }
  }

  /** With non-negative counts the defective card is never negative, and it
      shows 0 exactly when no record has a defective exhibit. */
  lemma {:induction false} DefectiveZeroIff(data: seq<ExhibitData>)
    requires forall i :: 0 <= i < |data| ==> data[i].defective >= 0
    ensures DefectiveExhibits(data) >= 0
    ensures DefectiveExhibits(data) == 0 <==> forall i :: 0 <= i < |data| ==> data[i].defective == 0
    decreases |data|
  {
    if data != [] {
      var init := data[..|data| - 1];
      assert forall i :: 0 <= i < |init| ==> init[i] == data[i];
      DefectiveZeroIff(init);
    }
  }

  /** Bounds that every fold over in-range records satisfies. */
  lemma {:induction false} InRangeFolds(data: seq<ExhibitData>)
    requires forall i :: 0 <= i < |data| ==> InRange(data[i])
    ensures 50 * |data| <= WorkingExhibits(data) <= TotalExhibits(data)
    ensures TotalExhibits(data) <= 108 * |data|
    decreases |data|
  {
    if data != [] {
      var init := data[..|data| - 1];
      assert forall i :: 0 <= i < |init| ==> init[i] == data[i];
      InRangeFolds(init);
    }
  }

  /** For generated records the total is at least 250, so the page's
      `workingExhibits / totalExhibits` never divides by zero, and at most
      all exhibits are working. */
  lemma GeneratedTotals(data: seq<ExhibitData>)
    requires WellFormed(data)
    ensures TotalExhibits(data) >= 250
    ensures 250 <= WorkingExhibits(data) <= TotalExhibits(data)
    ensures 0 <= DefectiveExhibits(data) <= 45
  {
    InRangeFolds(data);
    DefectiveIsSumOfDefective(data);
    SumDefectiveAtMost(data);
  }

  lemma {:induction false} SumDefectiveAtMost(data: seq<ExhibitData>)
    requires forall i :: 0 <= i < |data| ==> InRange(data[i])
    ensures 0 <= SumDefective(data) <= 9 * |data|
    decreases |data|
  {
    if data != [] {
      var init := data[..|data| - 1];
      assert forall i :: 0 <= i < |init| ==> init[i] == data[i];
      SumDefectiveAtMost(init);
    }
  }

  /** The "Exhibits Operational" percentage, before `toFixed(1)`; it lies in
      [0, 100] whenever no more exhibits work than there are. */
  function OperationalPercent(data: seq<ExhibitData>): (p: real)
    requires TotalExhibits(data) != 0
    ensures 0 <= WorkingExhibits(data) <= TotalExhibits(data) ==> 0.0 <= p <= 100.0
  {
    var w, t := WorkingExhibits(data) as real, TotalExhibits(data) as real;
    assert 0.0 <= w <= t ==> 0.0 <= w / t <= 1.0 by {
      if 0.0 <= w <= t {
        assert w / t * t == w;
      }
    }
    (w / t) * 100.0
  }

  // The "Recent Alerts" list: one line per record.

  /** The icon in front of an alert line. */
  datatype AlertIcon = Warning | Check

  /** The text after the category name: "N exhibits need attention" or
      "All exhibits operational". */
  datatype AlertText = NeedAttention(count: int) | AllOperational

  datatype Alert = Alert(name: string, icon: AlertIcon, text: AlertText)

  /** The alert line of one record: it asks for attention, with the record's
      defective count and a warning icon, exactly when that count is
      positive, and otherwise reports all exhibits operational with a check. */
  function AlertFor(item: ExhibitData): (a: Alert)
    ensures a.name == item.name
    ensures a.text.NeedAttention? <==> item.defective > 0
    ensures a.icon == Warning <==> item.defective > 0
    ensures a.text.NeedAttention? ==> a.text.count == item.defective
  {
    if item.defective > 0 then Alert(item.name, Warning, NeedAttention(item.defective))
    else Alert(item.name, Check, AllOperational)
  }

  function Alerts(data: seq<ExhibitData>): (alerts: seq<Alert>)
    ensures |alerts| == |data|
    ensures forall i :: 0 <= i < |data| ==> alerts[i].name == data[i].name
    ensures forall i :: 0 <= i < |data| ==>
      (alerts[i].icon == Warning <==> alerts[i].text.NeedAttention?)
  {
    seq(|data|, i requires 0 <= i < |data| => AlertFor(data[i]))
  }

  /** A line asks for attention, with that record's count, exactly when the
      record has a defective exhibit; every line reads "All exhibits
      operational" exactly when the defective card shows 0. */
  lemma AlertsMatchDefects(data: seq<ExhibitData>)
    requires forall i :: 0 <= i < |data| ==> data[i].defective >= 0
    ensures forall i :: 0 <= i < |data| ==>
      (Alerts(data)[i].text.NeedAttention? <==> data[i].defective > 0)
    ensures forall i :: 0 <= i < |data| && Alerts(data)[i].text.NeedAttention? ==>
      Alerts(data)[i].text.count == data[i].defective
    ensures (forall i :: 0 <= i < |data| ==> Alerts(data)[i].text == AllOperational)
        <==> DefectiveExhibits(data) == 0
  {
    DefectiveZeroIff(data);
  }

  // The visitor counter and its bounded history.

  /** `s.slice(-n)` for n > 0: the last n elements of s, or all of s when it
      is shorter. */
  function SliceLast<T>(s: seq<T>, n: nat): (r: seq<T>)
    requires n > 0
    ensures |r| == if |s| <= n then |s| else n
    ensures r == s[|s| - |r|..]
  {
    if |s| <= n then s else s[|s| - n..]
  }

  /** The history after one tick: the new sample appended, then cut to the
      last ten. Nothing is dropped while there is room; a full history loses
      exactly its oldest sample; order is kept and the new sample is last. */
  function AppendSample(history: seq<VisitorData>, sample: VisitorData): (h: seq<VisitorData>)
    ensures 0 < |h| <= HistoryLimit
    ensures h[|h| - 1] == sample
    ensures |history| < HistoryLimit ==> h == history + [sample]
    ensures |history| == HistoryLimit ==> h == history[1..] + [sample]
  {
    SliceLast(history + [sample], HistoryLimit)
  }

  /** Cutting before appending loses nothing that cutting afterwards keeps. */
  lemma SliceLastAppend<T>(s: seq<T>, x: T, n: nat)
    requires n > 0
    ensures SliceLast(SliceLast(s, n) + [x], n) == SliceLast(s + [x], n)
  {
  }

  /** The running total: the sum of all increments, oldest first. */
  function SumVisitors(samples: seq<VisitorData>): int
  {
    if samples == [] then 0
    else SumVisitors(samples[..|samples| - 1]) + samples[|samples| - 1].visitors
  }

  /** Increments in [0, 9] give a total between 0 and 9 per tick. */
  lemma {:induction false} SumVisitorsBounds(samples: seq<VisitorData>)
    requires forall k :: 0 <= k < |samples| ==> 0 <= samples[k].visitors < 10
    ensures 0 <= SumVisitors(samples) <= 9 * |samples|
    decreases |samples|
  {
    if samples != [] {
      var init := samples[..|samples| - 1];
      assert forall k :: 0 <= k < |init| ==> init[k] == samples[k];
      SumVisitorsBounds(init);
    }
  }

  /** The dashboard page's state cells. `timeRange` and `defectView` only pick
      which chart is drawn and are not part of this model. */
  class DashboardPage {
    var data: seq<ExhibitData>
    var totalVisitors: int
    var visitorHistory: seq<VisitorData>
    /** Every sample the timer has produced since the page mounted, oldest first. */
    ghost var samples: seq<VisitorData>

    /** The records are a generated set; the total is the sum of every
        increment so far; the history is the last ten samples. */
    ghost predicate Valid()
      reads this
    {
      WellFormed(data)
      && (forall k :: 0 <= k < |samples| ==> 0 <= samples[k].visitors < 10)
      && totalVisitors == SumVisitors(samples)
      && visitorHistory == SliceLast(samples, HistoryLimit)
    }

    /** Mounting: one generated data set, no visitors, empty history. */
    constructor (draws: seq<Draws>)
      requires |draws| == |Categories|
      requires forall i :: 0 <= i < |draws| ==> DrawsValid(draws[i])
      ensures Valid()
      ensures data == GenerateRandomData(draws)
      ensures totalVisitors == 0 && visitorHistory == [] && samples == []
    {
      data := GenerateRandomData(draws);
      totalVisitors := 0;
      visitorHistory := [];
      samples := [];
    }

    /** One five-second tick: regenerate every record at once, add
        `Math.floor(r * 10)` visitors to the total and record that sample,
        labelled with the current time, in the history. */
    method Tick(draws: seq<Draws>, r: real, time: string)
      requires Valid()
      requires |draws| == |Categories|
      requires forall i :: 0 <= i < |draws| ==> DrawsValid(draws[i])
      requires IsRandom(r)
      modifies this
      ensures Valid()
      ensures data == GenerateRandomData(draws)
      ensures 0 <= RandomBelow(r, 10) < 10
      ensures totalVisitors == old(totalVisitors) + RandomBelow(r, 10)
      ensures visitorHistory == AppendSample(old(visitorHistory), VisitorData(time, RandomBelow(r, 10)))
      ensures samples == old(samples) + [VisitorData(time, RandomBelow(r, 10))]
    {
      var newVisitors := RandomBelow(r, 10);
      var sample := VisitorData(time, newVisitors);
      ghost var all := samples + [sample];
      assert all[..|all| - 1] == samples;
      assert SumVisitors(all) == totalVisitors + newVisitors;
      SliceLastAppend(samples, sample, HistoryLimit);
      data := GenerateRandomData(draws);
      totalVisitors := totalVisitors + newVisitors;
      visitorHistory := AppendSample(visitorHistory, sample);
      samples := all;
    }
  }

  /** What a valid dashboard shows: at most ten history samples, which are
      the latest ones oldest first; a total that is the sum of every increment
      and so never negative; and a non-zero divisor for the percentage. */
  lemma ValidDashboard(p: DashboardPage)
    requires p.Valid()
    ensures |p.visitorHistory| <= HistoryLimit
    ensures |p.samples| >= HistoryLimit ==> p.visitorHistory == p.samples[|p.samples| - HistoryLimit..]
    ensures |p.samples| < HistoryLimit ==> p.visitorHistory == p.samples
    ensures 0 <= p.totalVisitors <= 9 * |p.samples|
    ensures TotalExhibits(p.data) >= 250
  {
    SumVisitorsBounds(p.samples);
    GeneratedTotals(p.data);
  }
}
