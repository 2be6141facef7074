/** The adherence heatmap: the colour band of a day's rate, and the
    grouping of consecutive days into calendar rows of seven cells, Sunday
    first, with blank cells before the first day and after the last. */
module CalendarHeatmap {
  import opened MedTypes
  import Statistics

  const NoData := "#f3f4f6"
  const MissedAll := "#fecaca"
  const Low := "#fca5a5"
  const Partial := "#fde68a"
  const High := "#86efac"
  const Perfect := "#22c55e"

  /** The colour of a day: grey without data; otherwise red for 0, light
      red below 50, yellow below 80, light green below 100 and green from
      100 on. */
  function GetHeatColor(rate: nat, hasData: bool): (r: string)
    ensures r == NoData <==> !hasData
    ensures r == MissedAll <==> hasData && rate == 0
    ensures r == Low <==> hasData && 0 < rate < 50
    ensures r == Partial <==> hasData && 50 <= rate < 80
    ensures r == High <==> hasData && 80 <= rate < 100
    ensures r == Perfect <==> hasData && rate >= 100
  {
    if !hasData then NoData
    else if rate == 0 then MissedAll
    else if rate < 50 then Low
    else if rate < 80 then Partial
    else if rate < 100 then High
    else Perfect
  }

  /** The colour of a data cell. */
  function CellColor(day: DailyStats): string {
    GetHeatColor(day.adherenceRate, day.total > 0)
  }

  /** On the days the statistics compute, a cell is green exactly when the
      day counts toward a streak, and grey exactly when it had no doses. */
  lemma CellColorMatchesStreak(day: DailyStats)
    requires Statistics.WellFormed(day)
    ensures CellColor(day) == Perfect <==> Statistics.Qualifies(day)
    ensures CellColor(day) == NoData <==> day.total == 0
    ensures CellColor(day) != Perfect && CellColor(day) != NoData <==> Statistics.Misses(day)
  {
  }

  /** The four legend entries, 0, 50, 80 and 100 percent, show four
      different colours. */
  lemma LegendDistinct()
    ensures GetHeatColor(0, true) == MissedAll && GetHeatColor(50, true) == Partial
    ensures GetHeatColor(80, true) == High && GetHeatColor(100, true) == Perfect
    ensures MissedAll != Partial && MissedAll != High && MissedAll != Perfect
    ensures Partial != High && Partial != Perfect && High != Perfect
  {
  }

  /** A grid cell: a day, or a blank. */
  type Cell = Option<DailyStats>

  function Blanks(n: nat): (r: seq<Cell>)
    ensures |r| == n && forall i :: 0 <= i < n ==> r[i] == None
  {
    seq(n, i => None)
  }

  function Days(stats: seq<DailyStats>): (r: seq<Cell>)
    ensures |r| == |stats| && forall i :: 0 <= i < |stats| ==> r[i] == Some(stats[i])
  {
    seq(|stats|, i requires 0 <= i < |stats| => Some(stats[i]))
  }

  /** The rows read one after the other. */
  function Flatten(rows: seq<seq<Cell>>): seq<Cell> {
    if rows == [] then [] else Flatten(rows[..|rows| - 1]) + rows[|rows| - 1]
  }

  lemma FlattenSnoc(rows: seq<seq<Cell>>, row: seq<Cell>)
    ensures Flatten(rows + [row]) == Flatten(rows) + row
  {
    assert (rows + [row])[..|rows|] == rows;
  }

  /** In rows of seven, cell `7 * r + c` of the flattened grid is cell `c`
      of row `r`. */
  lemma {:induction false} FlattenIndex(rows: seq<seq<Cell>>, r: nat, c: nat)
    requires forall w :: w in rows ==> |w| == 7
    requires r < |rows| && c < 7
    ensures |Flatten(rows)| == 7 * |rows|
    ensures Flatten(rows)[7 * r + c] == rows[r][c]
  {
    var init := rows[..|rows| - 1];
    assert forall w :: w in init ==> w in rows;
    if r < |rows| - 1 {
      FlattenIndex(init, r, c);
    } else if init != [] {
      FlattenIndex(init, 0, 0);
    }
    assert rows[|rows| - 1] in rows;
  }

  /** The blanks before the first day: its weekday, Sunday = 0. An
      unreadable first date has no weekday and gets none. */
  function LeadingBlanks(stats: seq<DailyStats>, weekdayOf: string -> Option<Weekday>): (r: nat)
    ensures r < 7
  {
    if stats == [] then 0
    else match weekdayOf(stats[0].date)
      case Some(d) => d
      case None => 0
  }

  /** Groups the days into rows of seven, padding the first row so that
      each day sits in the column of its weekday and the last row with
      blanks. */
  method GroupWeeks(stats: seq<DailyStats>, weekdayOf: string -> Option<Weekday>) returns (weeks: seq<seq<Cell>>)
    ensures forall w :: w in weeks ==> |w| == 7
    ensures exists k :: 0 <= k < 7 && Flatten(weeks) == Blanks(LeadingBlanks(stats, weekdayOf)) + Days(stats) + Blanks(k)
    ensures |weeks| == (LeadingBlanks(stats, weekdayOf) + |stats| + 6) / 7
    ensures stats == [] ==> weeks == []
  {
    weeks := [];
    var currentWeek: seq<Cell> := [];
    if |stats| > 0 {
      var dayOfWeek := match weekdayOf(stats[0].date) case Some(d) => d case None => 0;
      for i := 0 to dayOfWeek
        invariant currentWeek == Blanks(i)
      {
        currentWeek := currentWeek + [None];
      }
    }
    ghost var pad := |currentWeek|;
    assert currentWeek == Blanks(pad) && pad == LeadingBlanks(stats, weekdayOf);
    for i := 0 to |stats|
      invariant forall w :: w in weeks ==> |w| == 7
      invariant |currentWeek| < 7
      invariant |Flatten(weeks)| == 7 * |weeks|
      invariant Flatten(weeks) + currentWeek == Blanks(pad) + Days(stats[..i])
    {
      ChunkStep(weeks, currentWeek, pad, stats, i);
      currentWeek := currentWeek + [Some(stats[i])];
      if |currentWeek| == 7 {
        weeks := weeks + [currentWeek];
        currentWeek := [];
      }
    }
    assert stats[..|stats|] == stats;
    weeks := FillLastWeek(weeks, currentWeek, Blanks(pad) + Days(stats));
  }

  /** Pads the unfinished last row with blanks up to seven cells and
      appends it; an empty last row is dropped. */
  method FillLastWeek(weeks: seq<seq<Cell>>, row: seq<Cell>, ghost cells: seq<Cell>) returns (rows: seq<seq<Cell>>)
    requires forall w :: w in weeks ==> |w| == 7
    requires |row| < 7 && |Flatten(weeks)| == 7 * |weeks|
    requires Flatten(weeks) + row == cells
    ensures forall w :: w in rows ==> |w| == 7
    ensures exists k :: 0 <= k < 7 && Flatten(rows) == cells + Blanks(k)
    ensures |rows| == (|cells| + 6) / 7
    ensures row == [] ==> rows == weeks
  {
    var currentWeek := row;
    ghost var extra := 0;
    assert cells + Blanks(0) == cells;
    while |currentWeek| > 0 && |currentWeek| < 7
      invariant |currentWeek| <= 7 && extra < 7
      invariant |currentWeek| == 0 ==> extra == 0 && currentWeek == row
      invariant |currentWeek| > 0 ==> extra < |currentWeek|
      invariant Flatten(weeks) + currentWeek == cells + Blanks(extra)
      decreases 7 - |currentWeek|
    {
      FillStep(Flatten(weeks), currentWeek, cells, extra);
      currentWeek := currentWeek + [None];
      extra := extra + 1;
    }
    rows := weeks;
    if |currentWeek| == 7 {
      FlattenSnoc(weeks, currentWeek);
      rows := weeks + [currentWeek];
    } else {
      assert currentWeek == [];
    }
    RowCount(rows, cells, extra);
  }

  /** Day `i` of a grid laid out as `GroupWeeks` lays it out sits in row
      `(pad + i) / 7` at column `(pad + i) % 7`: consecutive days fill the
      columns Sunday to Saturday, starting at the first day's weekday. */
  lemma DayPosition(weeks: seq<seq<Cell>>, pad: nat, stats: seq<DailyStats>, k: nat, i: nat)
    requires forall w :: w in weeks ==> |w| == 7
    requires Flatten(weeks) == Blanks(pad) + Days(stats) + Blanks(k)
    requires i < |stats|
    ensures (pad + i) / 7 < |weeks|
    ensures weeks[(pad + i) / 7][(pad + i) % 7] == Some(stats[i])
  {
    var n := pad + i;
    assert weeks != [];
    FlattenIndex(weeks, 0, 0);
    FlattenIndex(weeks, n / 7, n % 7);
  }

  /** One day placed in the row being filled keeps the rows, followed by
      that row, equal to the padding and the days placed so far; a full row
      moves to the finished rows. */
  lemma ChunkStep(weeks: seq<seq<Cell>>, row: seq<Cell>, pad: nat, stats: seq<DailyStats>, i: nat)
    requires i < |stats| && |Flatten(weeks)| == 7 * |weeks| && |row| < 7
    requires Flatten(weeks) + row == Blanks(pad) + Days(stats[..i])
    ensures Flatten(weeks) + (row + [Some(stats[i])]) == Blanks(pad) + Days(stats[..i + 1])
    ensures |row| == 6 ==>
      && |Flatten(weeks + [row + [Some(stats[i])]])| == 7 * (|weeks| + 1)
      && Flatten(weeks + [row + [Some(stats[i])]]) + [] == Blanks(pad) + Days(stats[..i + 1])
  {
    assert Days(stats[..i + 1]) == Days(stats[..i]) + [Some(stats[i])];
    AppendAssoc(Flatten(weeks), row, Some(stats[i]));
    AppendAssoc(Blanks(pad), Days(stats[..i]), Some(stats[i]));
    FlattenSnoc(weeks, row + [Some(stats[i])]);
  }

  /** One blank appended to the last row is one more trailing blank. */
  lemma FillStep(done: seq<Cell>, row: seq<Cell>, cells: seq<Cell>, extra: nat)
    requires done + row == cells + Blanks(extra)
    ensures done + (row + [None]) == cells + Blanks(extra + 1)
  {
    assert Blanks(extra + 1) == Blanks(extra) + [None];
    AppendAssoc(done, row, None);
    AppendAssoc(cells, Blanks(extra), None);
  }

  lemma AppendAssoc(a: seq<Cell>, b: seq<Cell>, x: Cell)
    ensures a + (b + [x]) == (a + b) + [x]
  {
  }

  /** Rows of seven holding `cells` and then fewer than seven blanks
      number `|cells| / 7` rounded up. */
  lemma RowCount(rows: seq<seq<Cell>>, cells: seq<Cell>, extra: nat)
    requires extra < 7 && |Flatten(rows)| == 7 * |rows|
    requires Flatten(rows) == cells + Blanks(extra)
    ensures |rows| == (|cells| + 6) / 7
  {
  }
}
