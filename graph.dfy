// The ProgressGraph component's state (chartData, loading, timeRange), the
// effect that recomputes the chart, and what the screen then shows.

module Graph {
  import opened Wrappers
  import opened Calendar
  import opened Progress
  import opened Stats

  /** What the modal shows below the range buttons. */
  datatype View =
    | LoadingView
    | EmptyView
    | StatsView(currentMonth: int, average: int, trend: Trend)

  /** The loading ? ... : chartData.length > 0 ? ... : ... ternary with its stats grid and trend. */
  function ViewOf(loading: bool, chartData: seq<int>): (v: View)
    ensures loading ==> v == LoadingView
    ensures !loading && chartData == [] ==> v == EmptyView
    ensures !loading && chartData != [] ==>
      v == StatsView(CurrentMonthValue(chartData), AverageValue(chartData), TrendOf(chartData))
  {
    if loading then LoadingView
    else if |chartData| > 0 then StatsView(CurrentMonthValue(chartData), AverageValue(chartData), TrendOf(chartData))
    else EmptyView
  }

  /**
   * Once the series is computed from a range starting on or before today,
   * the screen shows statistics: the current-month figure is today's
   * month's value and the average lies in 0..100.
   */
  lemma ComputedView(c: Completions, t: Option<seq<int>>, timeRange: string, today: Date)
    requires ValidDate(today)
    requires RangeStart(timeRange, c, today).Some?
    requires DateLe(RangeStart(timeRange, c, today).value, today)
    ensures ViewOf(false, ChartSeries(c, t, timeRange, today)).StatsView?
    ensures ViewOf(false, ChartSeries(c, t, timeRange, today)).currentMonth == MonthPercent(c, t, MonthOf(today), today)
    ensures 0 <= ViewOf(false, ChartSeries(c, t, timeRange, today)).average <= 100
  {
    var data := ChartSeries(c, t, timeRange, today);
    LastValueIsTodaysMonth(c, t, timeRange, today);
    AverageWithin(data, 0, 100);
  }

  class ProgressGraph {
    var chartData: seq<int>
    var loading: bool
    var timeRange: string

    /** useState([]), useState(true), useState('6months') */
    constructor ()
      ensures chartData == [] && loading && timeRange == "6months"
    {
      chartData := [];
      loading := true;
      timeRange := "6months";
    }

    /** A press on one of the range buttons: setTimeRange(val). */
    method SelectTimeRange(range: string)
      modifies this
      ensures timeRange == range
      ensures chartData == old(chartData) && loading == old(loading)
    {
      timeRange := range;
    }

    /** processHabitData: recompute the series for the habit, then clear loading. */
    method ProcessHabitData(habitData: map<string, Completions>, habit: Habit, today: Date)
      requires ValidDate(today)
      modifies this
      ensures chartData == ChartSeries(CompletionsOf(habitData, habit.id), habit.trackingDays, timeRange, today)
      ensures !loading && timeRange == old(timeRange)
    {
      loading := true;
      var completions := CompletionsOf(habitData, habit.id);
      var start := RangeStart(timeRange, completions, today);
      var months := MonthsOfInterval(start, today);
      var data := MonthlyData(completions, habit.trackingDays, months, today);
      chartData := data;
      loading := false;
    }

    /**
     * The effect on [visible, selectedHabit, timeRange, habitData]: it
     * recomputes only when the modal is visible, a habit is selected and
     * that habit has a completion record.
     */
    method Refresh(visible: bool, selectedHabit: Option<Habit>, habitData: map<string, Completions>, today: Date)
      requires ValidDate(today)
      modifies this
      ensures timeRange == old(timeRange)
      ensures visible && selectedHabit.Some? && selectedHabit.value.id in habitData ==>
        !loading &&
        chartData == ChartSeries(habitData[selectedHabit.value.id], selectedHabit.value.trackingDays, timeRange, today)
      ensures !(visible && selectedHabit.Some? && selectedHabit.value.id in habitData) ==>
        chartData == old(chartData) && loading == old(loading)
    {
      if visible && selectedHabit.Some? && selectedHabit.value.id in habitData {
        ProcessHabitData(habitData, selectedHabit.value, today);
      }
    }
  }
}
