/** The reports page: four report types; clicking one opens a panel titled
    with its name over the same fixed monthly chart. No control closes the
    panel again. */
module Reports {
  import opened Selection

  /** A report type; its icon is presentation only and not modelled. */
  datatype ReportType = ReportType(name: string)

  /** One bar group of the chart. */
  datatype ChartRow = ChartRow(period: string, visitors: int, revenue: int)

  /** The `reportTypes` catalogue, in grid order. */
  const ReportTypes: seq<ReportType> := [
    ReportType("Visitor Statistics"), ReportType("Exhibit Performance"),
    ReportType("Maintenance Logs"), ReportType("Financial Summary")]

  /** The `dummyData` every report charts. */
  const ChartData: seq<ChartRow> := [
    ChartRow("Jan", 4000, 2400), ChartRow("Feb", 3000, 1398), ChartRow("Mar", 2000, 9800),
    ChartRow("Apr", 2780, 3908), ChartRow("May", 1890, 4800), ChartRow("Jun", 2390, 3800)]

  /** What the report panel shows. */
  datatype Panel = Panel(title: string, rows: seq<ChartRow>)

  class ReportsPage {
    var selectedReport: Option<ReportType>

    constructor ()
      ensures selectedReport == None
    {
      selectedReport := None;
    }

    /** Clicking the card of `ReportTypes[i]` selects that report, replacing
        any earlier selection. This is the only way the selection changes. */
    method Select(i: nat)
      requires i < |ReportTypes|
      modifies this
      // One `Selection.Step`, so a run of clicks on this page is a
      // `Selection.Replay` session and the lemmas there apply to it.
      ensures selectedReport == Step(old(selectedReport), Pick(ReportTypes[i]))
      ensures selectedReport == Some(ReportTypes[i])
    {
      selectedReport := Step(selectedReport, Pick(ReportTypes[i]));
    }

    /** The report panel is rendered exactly while a report is selected; it
        carries the report's name and the same six chart rows whichever
        report that is. */
    function ReportPanel(): (panel: Option<Panel>)
      reads this
      ensures panel.Some? <==> selectedReport.Some?
      ensures panel.Some? ==> panel.value.title == selectedReport.value.name
      ensures panel.Some? ==> panel.value.rows == ChartData && |panel.value.rows| == 6
    {
      match selectedReport
      case None => None
      case Some(r) => Some(Panel(r.name, ChartData))
    }
  }
}
