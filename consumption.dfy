/** `analyze_consumption_data`: per-day totals of the readings the
    meter-history endpoint returns. Values are exact (`real`), not floats. */
module Consumption {
  import opened Wrappers

  /** One reading of a day record. Each field is `None` when its key is absent. */
  datatype Reading = Reading(dc: Option<int>, t: Option<int>, v: Option<real>)

  /** One day record: its date label `d` and its readings `v`. */
  datatype DayRecord = DayRecord(d: Option<string>, v: Option<seq<Reading>>)

  const ConsumptionDirection: int := 1
  const InjectionDirection: int := 2

  /** `reading.get("dc", 0)`. */
  function Direction(r: Reading): int { r.dc.GetOr(0) }

  /** `float(reading.get("v", 0))`. */
  function Value(r: Reading): real { r.v.GetOr(0.0) }

  /** `day_data.get("v", [])`. */
  function Readings(day: DayRecord): seq<Reading> { day.v.GetOr([]) }

  /** `day_data.get("d", "Unknown date")`. */
  function DateLabel(day: DayRecord): string { day.d.GetOr("Unknown date") }

  datatype Tariff = High | Low
  datatype Flow = Consumed | Injected

  /** The tariff label printed with a reading: `t == 1` is the high tariff,
      every other value, a missing `t` included, the low one. */
  function TariffOf(r: Reading): (tariff: Tariff)
    ensures tariff == High <==> r.t == Some(1)
  {
    if r.t.GetOr(0) == 1 then High else Low
  }

  /** The sum of the values of the readings whose direction is `dir`. */
  function FlowTotal(rs: seq<Reading>, dir: int): real {
    if rs == [] then 0.0
    else
      var last := rs[|rs| - 1];
      FlowTotal(rs[..|rs| - 1], dir) + (if Direction(last) == dir then Value(last) else 0.0)
  }

  /** One printed reading line: consumption or injection, its tariff, its value. */
  datatype ReadingLine = ReadingLine(flow: Flow, tariff: Tariff, value: real)

  /** The line a reading prints, if any: directions other than 1 and 2 print nothing. */
  function LineOf(r: Reading): Option<ReadingLine> {
    if Direction(r) == ConsumptionDirection then Some(ReadingLine(Consumed, TariffOf(r), Value(r)))
    else if Direction(r) == InjectionDirection then Some(ReadingLine(Injected, TariffOf(r), Value(r)))
    else None
  }

  function Lines(rs: seq<Reading>): seq<ReadingLine> {
    if rs == [] then []
    else
      var last := rs[|rs| - 1];
      Lines(rs[..|rs| - 1]) + (match LineOf(last) case Some(l) => [l] case None => [])
  }

  /** What is reported for one day: its 1-based number, its label, the reading
      lines and the three totals. */
  datatype DayReport = DayReport(
    number: nat, date: string, lines: seq<ReadingLine>,
    consumption: real, injection: real, net: real)

  /** The report for an input: nothing to analyse, or one entry per day. */
  datatype Analysis = NoData | Report(days: seq<DayReport>)

  /** The report of day number `i` (0-based index). */
  function DaySummary(i: nat, day: DayRecord): DayReport {
    var rs := Readings(day);
    var c := FlowTotal(rs, ConsumptionDirection);
    var j := FlowTotal(rs, InjectionDirection);
    DayReport(i + 1, DateLabel(day), Lines(rs), c, j, c - j)
  }

  /** `analyze_consumption_data`: the two accumulators of each day are updated
      reading by reading, as the source's inner loop does. */
  method AnalyzeConsumption(data: seq<DayRecord>) returns (analysis: Analysis)
    ensures data == [] <==> analysis == NoData
    ensures analysis.Report? ==>
              |analysis.days| == |data| &&
              forall i :: 0 <= i < |data| ==> analysis.days[i] == DaySummary(i, data[i])
  {
    if data == [] {
      return NoData;
    }
    var days: seq<DayReport> := [];
    for dayIdx := 0 to |data|
      invariant |days| == dayIdx
      invariant forall i :: 0 <= i < dayIdx ==> days[i] == DaySummary(i, data[i])
    {
      var dayData := data[dayIdx];
      var values := Readings(dayData);
      var dayConsumption: real := 0.0;
      var dayInjection: real := 0.0;
      var lines: seq<ReadingLine> := [];
      for k := 0 to |values|
        invariant dayConsumption == FlowTotal(values[..k], ConsumptionDirection)
        invariant dayInjection == FlowTotal(values[..k], InjectionDirection)
        invariant lines == Lines(values[..k])
      {
        var reading := values[k];
        assert values[..k + 1][..k] == values[..k];
        var direction := Direction(reading);
        var value := Value(reading);
        var tariff := TariffOf(reading);
        if direction == ConsumptionDirection {
          dayConsumption := dayConsumption + value;
          lines := lines + [ReadingLine(Consumed, tariff, value)];
        } else if direction == InjectionDirection {
          dayInjection := dayInjection + value;
          lines := lines + [ReadingLine(Injected, tariff, value)];
        }
      }
      assert values[..|values|] == values;
      var net := dayConsumption - dayInjection;
      days := days + [DayReport(dayIdx + 1, DateLabel(dayData), lines, dayConsumption, dayInjection, net)];
    }
    analysis := Report(days);
  }

  /** Totals split over concatenation. */
  lemma {:induction false} FlowTotalAppend(a: seq<Reading>, b: seq<Reading>, dir: int)
    ensures FlowTotal(a + b, dir) == FlowTotal(a, dir) + FlowTotal(b, dir)
    decreases |b|
  {
    if b == [] {
      assert a + b == a;
    } else {
      var b' := b[..|b| - 1];
      assert (a + b)[..|a + b| - 1] == a + b';
      FlowTotalAppend(a, b', dir);
    }
  }

  /** The signed contribution of a reading to the net figure. */
  function Signed(r: Reading): real {
    if Direction(r) == ConsumptionDirection then Value(r)
    else if Direction(r) == InjectionDirection then -Value(r)
    else 0.0
  }

  /** Net consumption, summed reading by reading from the front. */
  function NetTotal(rs: seq<Reading>): real {
    if rs == [] then 0.0 else Signed(rs[0]) + NetTotal(rs[1..])
  }

  /** The net figure is the signed sum of the readings: consumption counts
      positive, injection negative, other directions not at all. */
  lemma {:induction false} NetIsSignedSum(rs: seq<Reading>)
    ensures FlowTotal(rs, ConsumptionDirection) - FlowTotal(rs, InjectionDirection) == NetTotal(rs)
  {
    if rs != [] {
      NetIsSignedSum(rs[1..]);
      assert rs == [rs[0]] + rs[1..];
      FlowTotalAppend([rs[0]], rs[1..], ConsumptionDirection);
      FlowTotalAppend([rs[0]], rs[1..], InjectionDirection);
      assert [rs[0]][..0] == [];
    }
  }

  /** Readings in any other direction (or with none, read as 0) add to
      neither total. */
  lemma OtherDirectionIgnored(rs: seq<Reading>, r: Reading)
    requires Direction(r) != ConsumptionDirection && Direction(r) != InjectionDirection
    ensures FlowTotal(rs + [r], ConsumptionDirection) == FlowTotal(rs, ConsumptionDirection)
    ensures FlowTotal(rs + [r], InjectionDirection) == FlowTotal(rs, InjectionDirection)
    ensures Lines(rs + [r]) == Lines(rs)
  {
    assert (rs + [r])[..|rs|] == rs;
  }

  /** The sum of the printed line values of one flow. */
  function LineTotal(ls: seq<ReadingLine>, flow: Flow): real {
    if ls == [] then 0.0
    else LineTotal(ls[..|ls| - 1], flow) + (if ls[|ls| - 1].flow == flow then ls[|ls| - 1].value else 0.0)
  }

  /** The printed totals are the sums of the printed reading lines. */
  lemma {:induction false} TotalsMatchLines(rs: seq<Reading>)
    ensures FlowTotal(rs, ConsumptionDirection) == LineTotal(Lines(rs), Consumed)
    ensures FlowTotal(rs, InjectionDirection) == LineTotal(Lines(rs), Injected)
  {
    if rs != [] {
      var init := rs[..|rs| - 1];
      TotalsMatchLines(init);
      var ls := Lines(init);
      match LineOf(rs[|rs| - 1])
      case None =>
        assert Lines(rs) == ls + [] == ls;
      case Some(l) =>
        assert (ls + [l])[..|ls|] == ls;
    }
  }

  /** With non-negative values, both totals are non-negative. */
  lemma {:induction false} TotalsNonNegative(rs: seq<Reading>, dir: int)
    requires forall i :: 0 <= i < |rs| ==> Value(rs[i]) >= 0.0
    ensures FlowTotal(rs, dir) >= 0.0
  {
    if rs != [] {
      TotalsNonNegative(rs[..|rs| - 1], dir);
    }
  }

  /** A day record without readings reports zero for all three figures and
      no reading lines. */
  lemma DayWithoutReadings(i: nat, dateKey: Option<string>)
    ensures var s := DaySummary(i, DayRecord(dateKey, None));
            s.consumption == 0.0 && s.injection == 0.0 && s.net == 0.0 && s.lines == []
  {
  }

  /** A day with one high-tariff consumption reading of 9.133 kWh and one
      high-tariff injection reading of 12.421 kWh nets -3.288 kWh. */
  lemma MixedDayExample()
    ensures var day := DayRecord(Some("2024-01-01"),
                                 Some([Reading(Some(1), Some(1), Some(9.133)),
                                       Reading(Some(2), Some(1), Some(12.421))]));
            var s := DaySummary(0, day);
            s.consumption == 9.133 && s.injection == 12.421 && s.net == -3.288
            && s.lines == [ReadingLine(Consumed, High, 9.133), ReadingLine(Injected, High, 12.421)]
  {
    var c := Reading(Some(1), Some(1), Some(9.133));
    var j := Reading(Some(2), Some(1), Some(12.421));
    var rs := [c, j];
    assert rs[..1] == [c] && [c][..0] == [];
    assert FlowTotal([c], ConsumptionDirection) == 9.133;
    assert FlowTotal([c], InjectionDirection) == 0.0;
    assert FlowTotal(rs, ConsumptionDirection) == 9.133;
    assert FlowTotal(rs, InjectionDirection) == 12.421;
    assert Lines([c]) == [ReadingLine(Consumed, High, 9.133)];
    assert Lines(rs) == [ReadingLine(Consumed, High, 9.133), ReadingLine(Injected, High, 12.421)];
  }
}
