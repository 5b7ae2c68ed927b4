/** The recency filter `filter_atd` (script.py:46-62): keep the rows whose
    actual arrival (or departure) time lies within the last `hrs` hours of
    `now`, and every row whose time cannot be read. */
module RecencyFilter {
  import opened Frames
  import opened ClockTime

  /** The largest number of whole days, in either direction, that Python's
      `timedelta` can hold. */
  const MAX_DELTA_DAYS: nat := 999_999_999

  /** `timedelta(hours=hrs)` exists: its whole days, `hrs` divided by 24 and
      rounded down, are within MAX_DELTA_DAYS. Otherwise building it raises
      OverflowError. (Dafny's `/` by a positive divisor rounds down.) */
  predicate WindowRepresentable(hrs: int)
  {
    -(MAX_DELTA_DAYS as int) <= hrs / 24 <= MAX_DELTA_DAYS
  }

  /** The inner `check`: an empty cell, or one strptime rejects, keeps its
      row; a time of day keeps it when it was at most `hrs` hours before
      `now`, reading a time later than `now` as yesterday's. A window that
      `timedelta` cannot represent raises inside the `try`, and the bare
      `except` keeps the row. */
  function Check(cell: string, now: nat, hrs: int): (keep: bool)
    requires now < DAY
    ensures cell == "" ==> keep
    ensures ParseClock(cell).None? ==> keep
    ensures ParseClock(cell).Some? && !WindowRepresentable(hrs) ==> keep
    ensures ParseClock(cell).Some? && WindowRepresentable(hrs) ==>
      (keep <==> Elapsed(now, ParseClock(cell).value) <= hrs * HOUR)
  {
    if cell == "" then true
    else
      match ParseClock(cell)
      case None => true
      case Some(t) => !WindowRepresentable(hrs) || Elapsed(now, t) <= hrs * HOUR
  }

  /** The column `check` is applied to: `ATA` whenever there is one, even
      next to an `ATD`; otherwise `ATD`. */
  function InspectedColumn(headers: seq<string>): (name: string)
    requires "ATA" in headers || "ATD" in headers
    ensures name in headers
    ensures "ATA" in headers ==> name == "ATA"
    ensures "ATA" !in headers ==> name == "ATD"
  {
    if "ATA" in headers then "ATA" else "ATD"
  }

  /** `df[col].apply(check)`: the verdict of `check` on each row's inspected cell. */
  function RecencyMask(t: Table, hrs: int, now: nat): (mask: seq<bool>)
    requires WellFormed(t) && now < DAY
    requires "ATA" in t.headers || "ATD" in t.headers
    ensures |mask| == |t.rows|
    ensures forall k :: 0 <= k < |t.rows| ==>
      (mask[k] <==> Check(Column(t, InspectedColumn(t.headers))[k], now, hrs))
  {
    var col := Column(t, InspectedColumn(t.headers));
    seq(|t.rows|, k requires 0 <= k < |t.rows| => Check(col[k], now, hrs))
  }

  /** The cell `check` reads in row i. */
  function InspectedCell(t: Table, i: nat): (cell: string)
    requires WellFormed(t) && i < |t.rows|
    requires "ATA" in t.headers || "ATD" in t.headers
    ensures cell == Column(t, InspectedColumn(t.headers))[i]
  {
    t.rows[i][Position(t.headers, InspectedColumn(t.headers))]
  }

  /** `filter_atd(df, hrs)` with the clock read passed in as `now`. Without
      an `ATA` or `ATD` column the table comes back as it is. Otherwise the
      columns stay and the rows are those at the positions `check` accepts,
      in their original order. */
  function FilterRecent(t: Table, hrs: int, now: nat): (r: Table)
    requires WellFormed(t) && now < DAY
    ensures WellFormed(r) && r.headers == t.headers
    ensures "ATD" !in t.headers && "ATA" !in t.headers ==> r == t
    ensures "ATD" in t.headers || "ATA" in t.headers ==>
      var ps := Selected(RecencyMask(t, hrs, now));
      && |r.rows| == |ps|
      && (forall k :: 0 <= k < |r.rows| ==> r.rows[k] == t.rows[ps[k]])
      && (forall i :: 0 <= i < |t.rows| ==> (i in ps <==> Check(InspectedCell(t, i), now, hrs)))
  {
    if "ATD" !in t.headers && "ATA" !in t.headers then t
    else Table(t.headers, Select(t.rows, RecencyMask(t, hrs, now)))
  }

  /** Filtering only removes rows: every output row is an input row. */
  lemma {:induction false} FilteredRowsFromInput(t: Table, hrs: int, now: nat)
    requires WellFormed(t) && now < DAY
    ensures forall k :: 0 <= k < |FilterRecent(t, hrs, now).rows| ==> FilterRecent(t, hrs, now).rows[k] in t.rows
  {
    var r := FilterRecent(t, hrs, now);
    if "ATD" in t.headers || "ATA" in t.headers {
      var ps := Selected(RecencyMask(t, hrs, now));
      forall k | 0 <= k < |r.rows| ensures r.rows[k] in t.rows {
        assert r.rows[k] == t.rows[ps[k]];
      }
    }
  }

  /** Fail-open: a row whose inspected cell is empty or not a time of day is
      always in the output. */
  lemma {:induction false} UnreadableTimeKept(t: Table, hrs: int, now: nat, i: nat)
    requires WellFormed(t) && now < DAY && i < |t.rows|
    requires "ATA" in t.headers || "ATD" in t.headers
    requires ParseClock(InspectedCell(t, i)).None?
    ensures t.rows[i] in FilterRecent(t, hrs, now).rows
  {
    var ps := Selected(RecencyMask(t, hrs, now));
    assert i in ps;
    var k :| 0 <= k < |ps| && ps[k] == i;
    assert FilterRecent(t, hrs, now).rows[k] == t.rows[i];
  }

  /** A row with a readable time is kept exactly when the elapsed time,
      which is always under a day and never negative, is at most `hrs` hours,
      or when the window is too large for `timedelta`. */
  lemma ReadableTimeKeptIffRecent(t: Table, hrs: int, now: nat, i: nat)
    requires WellFormed(t) && now < DAY && i < |t.rows|
    requires "ATA" in t.headers || "ATD" in t.headers
    requires ParseClock(InspectedCell(t, i)).Some?
    ensures var e := Elapsed(now, ParseClock(InspectedCell(t, i)).value);
      && 0 <= e < DAY
      && (i in Selected(RecencyMask(t, hrs, now)) <==> !WindowRepresentable(hrs) || e <= hrs * HOUR)
  {
  }

  /** Filtering twice is filtering once: every row that survives passes
      `check` again. */
  lemma {:induction false} FilterRecentIdempotent(t: Table, hrs: int, now: nat)
    requires WellFormed(t) && now < DAY
    ensures FilterRecent(FilterRecent(t, hrs, now), hrs, now) == FilterRecent(t, hrs, now)
  {
    var r := FilterRecent(t, hrs, now);
    if "ATD" in t.headers || "ATA" in t.headers {
      var ps := Selected(RecencyMask(t, hrs, now));
      var mask := RecencyMask(r, hrs, now);
      forall k | 0 <= k < |mask| ensures mask[k] {
        assert InspectedCell(r, k) == InspectedCell(t, ps[k]);
      }
      SelectAll(r.rows, mask);
    }
  }

  /** A wider window keeps every row a narrower one keeps, as long as the
      narrower window is one `timedelta` can hold (see
      OverflowingWindowKeeps for what happens otherwise). */
  lemma {:induction false} WiderWindowKeepsMore(t: Table, narrow: int, wide: int, now: nat, i: nat)
    requires WellFormed(t) && now < DAY && narrow <= wide && i < |t.rows|
    requires WindowRepresentable(narrow)
    requires "ATA" in t.headers || "ATD" in t.headers
    requires i in Selected(RecencyMask(t, narrow, now))
    ensures i in Selected(RecencyMask(t, wide, now))
  {
    var ps := Selected(RecencyMask(t, narrow, now));
    var k :| 0 <= k < |ps| && ps[k] == i;
    var cell := InspectedCell(t, i);
    assert RecencyMask(t, narrow, now)[i];
    assert Check(cell, now, narrow);
    assert HOUR == 3_600_000_000;
    assert narrow * HOUR <= wide * HOUR;
    assert Check(cell, now, wide);
    assert RecencyMask(t, wide, now)[i];
  }

  /** Seen at 00:10, an arrival at 23:50 was twenty minutes ago, yesterday,
      and stays within a two-hour window. */
  lemma MidnightRolloverKept()
    ensures Elapsed(10 * MINUTE, 23 * HOUR + 50 * MINUTE) == 20 * MINUTE
    ensures var t := Table(["Voo", "ATA"], [["UA 123", "23:50"]]);
      FilterRecent(t, 2, 10 * MINUTE) == t
  {
    var t := Table(["Voo", "ATA"], [["UA 123", "23:50"]]);
    ParseAcceptsSpellings(23, 50, true, true);
    assert Spelling(23, 50, true, true) == "23:50";
    assert Column(t, "ATA") == ["23:50"];
    SelectAll(t.rows, RecencyMask(t, 2, 10 * MINUTE));
  }

  /** Seen at 12:00, an arrival at 09:00 was three hours ago and leaves a
      two-hour window. */
  lemma ThreeHoursAgoDropped()
    ensures var t := Table(["Voo", "ATA"], [["EK 191", "09:00"]]);
      FilterRecent(t, 2, 12 * HOUR).rows == []
  {
    var t := Table(["Voo", "ATA"], [["EK 191", "09:00"]]);
    ParseAcceptsSpellings(9, 0, true, true);
    assert Spelling(9, 0, true, true) == "09:00";
    assert Column(t, "ATA") == ["09:00"];
    assert !RecencyMask(t, 2, 12 * HOUR)[0];
  }

  /** With both columns present, `ATA` decides: the departure three hours
      ago does not drop a row whose arrival was half an hour ago. */
  lemma ArrivalTimeTakesPrecedence()
    ensures var t := Table(["Voo", "ATD", "ATA"], [["AA 204", "09:00", "11:30"]]);
      FilterRecent(t, 2, 12 * HOUR) == t
  {
    var t := Table(["Voo", "ATD", "ATA"], [["AA 204", "09:00", "11:30"]]);
    ParseAcceptsSpellings(11, 30, true, true);
    assert Spelling(11, 30, true, true) == "11:30";
    assert Column(t, "ATA") == ["11:30"];
    SelectAll(t.rows, RecencyMask(t, 2, 12 * HOUR));
  }

  /** Empty and placeholder cells keep their rows, whatever the window. */
  lemma PlaceholdersKept(hrs: int, now: nat)
    requires now < DAY
    ensures var t := Table(["Voo", "ATA"], [["TS 9", "N/A"], ["JJ 8", ""]]);
      FilterRecent(t, hrs, now) == t
  {
    var t := Table(["Voo", "ATA"], [["TS 9", "N/A"], ["JJ 8", ""]]);
    RejectedTexts();
    assert Column(t, "ATA") == ["N/A", ""];
    SelectAll(t.rows, RecencyMask(t, hrs, now));
  }

  /** A window too far in the past for `timedelta` keeps every row, so the
      filter is not monotone in `hrs` there: at 12:00 an arrival at 09:00
      stays with `hrs = -10^11` but leaves with the wider `hrs = -10^10`. */
  lemma OverflowingWindowKeeps()
    ensures !WindowRepresentable(-100_000_000_000) && WindowRepresentable(-10_000_000_000)
    ensures var t := Table(["Voo", "ATA"], [["EK 191", "09:00"]]);
      && FilterRecent(t, -100_000_000_000, 12 * HOUR) == t
      && FilterRecent(t, -10_000_000_000, 12 * HOUR).rows == []
  {
    var t := Table(["Voo", "ATA"], [["EK 191", "09:00"]]);
    ParseAcceptsSpellings(9, 0, true, true);
    assert Spelling(9, 0, true, true) == "09:00";
    assert Column(t, "ATA") == ["09:00"];
    SelectAll(t.rows, RecencyMask(t, -100_000_000_000, 12 * HOUR));
    assert !RecencyMask(t, -10_000_000_000, 12 * HOUR)[0];
  }
}
