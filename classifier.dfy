/** The row classifier of `scrape` (script.py:30-44): which scraped rows make
    up the frame, the guaranteed `STD` column, and the removal of empty
    columns. */
module Classifier {
  import opened Strings
  import opened Frames
  import opened Carriers

  /** What pandas needs of the scraped cells to build the frame: distinct
      header names, and one cell per header in every row that reaches it
      (rows that the filter drops are never seen by pandas). */
  predicate RawWellFormed(headers: seq<string>, rows: seq<seq<string>>)
  {
    && Distinct(headers)
    && forall k :: 0 <= k < |rows| && Relevant(rows[k]) ==> |rows[k]| == |headers|
  }

  /** The condition of the list comprehension, row by row. */
  function RelevanceMask(rows: seq<seq<string>>): (mask: seq<bool>)
    ensures |mask| == |rows|
    ensures forall k :: 0 <= k < |rows| ==> (mask[k] <==> Relevant(rows[k]))
  {
    seq(|rows|, k requires 0 <= k < |rows| => Relevant(rows[k]))
  }

  /** `pd.DataFrame([r for r in rows if ...], columns=headers)`: the frame
      holds exactly the relevant rows, in their scraped order. Row k of the
      frame is scraped row Selected(RelevanceMask(rows))[k], and those
      positions increase with k. */
  function KeepRelevant(headers: seq<string>, rows: seq<seq<string>>): (t: Table)
    requires RawWellFormed(headers, rows)
    ensures WellFormed(t) && t.headers == headers
    ensures forall k :: 0 <= k < |t.rows| ==> Relevant(t.rows[k])
    ensures forall i :: 0 <= i < |rows| ==> (i in Selected(RelevanceMask(rows)) <==> Relevant(rows[i]))
    ensures |t.rows| == |Selected(RelevanceMask(rows))|
    ensures forall k :: 0 <= k < |t.rows| ==> t.rows[k] == rows[Selected(RelevanceMask(rows))[k]]
  {
    Table(headers, Select(rows, RelevanceMask(rows)))
  }

  /** Appending a name that is not yet there leaves every old name where it was. */
  lemma PositionAfterAppend(hs: seq<string>, name: string, n: string)
    requires n in hs
    ensures Position(hs + [name], n) == Position(hs, n)
  {
    var i, j := Position(hs + [name], n), Position(hs, n);
    assert (hs + [name])[j] == n;
  }

  /** `df[name] = values` for a column the frame does not have yet: the new
      column comes last and holds `values`; every other column is untouched. */
  function AddColumn(t: Table, name: string, values: seq<string>): (r: Table)
    requires WellFormed(t) && name !in t.headers && |values| == |t.rows|
    ensures WellFormed(r) && r.headers == t.headers + [name] && |r.rows| == |t.rows|
    ensures Column(r, name) == values
    ensures forall n :: n in t.headers ==> Column(r, n) == Column(t, n)
  {
    var r := Table(t.headers + [name],
      seq(|t.rows|, k requires 0 <= k < |t.rows| => t.rows[k] + [values[k]]));
    assert Position(r.headers, name) == |t.headers|;
    assert forall n :: n in t.headers ==> Column(r, n) == Column(t, n) by {
      forall n | n in t.headers ensures Column(r, n) == Column(t, n) {
        PositionAfterAppend(t.headers, name, n);
      }
    }
    r
  }

  /** The `STD` fallback chain: a frame without `STD` gets one, copied from
      `STA`, else `ETA`, else `ATA`, else filled with "". An existing `STD`
      and every other existing column keep their values. */
  function EnsureStd(t: Table): (r: Table)
    requires WellFormed(t)
    ensures WellFormed(r) && |r.rows| == |t.rows| && "STD" in r.headers
    ensures "STD" in t.headers ==> r == t
    ensures "STD" !in t.headers ==> r.headers == t.headers + ["STD"]
    ensures forall n :: n in t.headers ==> Column(r, n) == Column(t, n)
    ensures "STD" !in t.headers && "STA" in t.headers ==> Column(r, "STD") == Column(t, "STA")
    ensures "STD" !in t.headers && "STA" !in t.headers && "ETA" in t.headers ==>
      Column(r, "STD") == Column(t, "ETA")
    ensures "STD" !in t.headers && "STA" !in t.headers && "ETA" !in t.headers && "ATA" in t.headers ==>
      Column(r, "STD") == Column(t, "ATA")
    ensures "STD" !in t.headers && "STA" !in t.headers && "ETA" !in t.headers && "ATA" !in t.headers ==>
      forall k :: 0 <= k < |r.rows| ==> Column(r, "STD")[k] == ""
  {
    if "STD" in t.headers then t
    else if "STA" in t.headers then AddColumn(t, "STD", Column(t, "STA"))
    else if "ETA" in t.headers then AddColumn(t, "STD", Column(t, "ETA"))
    else if "ATA" in t.headers then AddColumn(t, "STD", Column(t, "ATA"))
    else AddColumn(t, "STD", seq(|t.rows|, k => ""))
  }

  /** Every cell of the column is blank after strip(). */
  predicate AllBlank(col: seq<string>)
  {
    forall k :: 0 <= k < |col| ==> Blank(col[k])
  }

  /** The column mask of the pruning step: true for the columns to keep. */
  function NonBlankMask(t: Table): (mask: seq<bool>)
    requires WellFormed(t)
    ensures |mask| == |t.headers|
    ensures forall j :: 0 <= j < |t.headers| ==> (mask[j] <==> !AllBlank(Column(t, t.headers[j])))
  {
    seq(|t.headers|, j requires 0 <= j < |t.headers| => !AllBlank(Column(t, t.headers[j])))
  }

  /** `df.loc[:, mask]`: the same columns taken out of the headers and out of
      every row. */
  function SelectColumns(t: Table, mask: seq<bool>): (r: Table)
    requires WellFormed(t) && |mask| == |t.headers|
    ensures WellFormed(r) && |r.rows| == |t.rows|
    ensures forall name :: name in r.headers <==> name in t.headers && mask[Position(t.headers, name)]
    ensures forall name :: name in r.headers ==> name in t.headers && Column(r, name) == Column(t, name)
    ensures forall i, j :: 0 <= i < j < |r.headers| ==>
      Position(t.headers, r.headers[i]) < Position(t.headers, r.headers[j])
  {
    var r := Table(Select(t.headers, mask),
      seq(|t.rows|, k requires 0 <= k < |t.rows| => Select(t.rows[k], mask)));
    SelectedColumnsWellFormed(t, mask, r);
    SelectedColumnPositions(t, mask, r);
    SelectedColumnNames(t, mask, r);
    SelectedColumnValues(t, mask, r);
    r
  }

  /* The facts SelectColumns promises, one lemma each. Throughout, the k-th
     kept column is column Selected(mask)[k] of the input. */

  lemma SelectedColumnsWellFormed(t: Table, mask: seq<bool>, r: Table)
    requires WellFormed(t) && |mask| == |t.headers| && r.headers == Select(t.headers, mask)
    requires |r.rows| == |t.rows| && forall k :: 0 <= k < |t.rows| ==> r.rows[k] == Select(t.rows[k], mask)
    ensures WellFormed(r)
  {
    SelectDistinct(t.headers, mask);
  }

  lemma SelectedColumnPositions(t: Table, mask: seq<bool>, r: Table)
    requires WellFormed(t) && |mask| == |t.headers| && r.headers == Select(t.headers, mask)
    ensures forall k :: 0 <= k < |r.headers| ==>
      r.headers[k] in t.headers && Position(t.headers, r.headers[k]) == Selected(mask)[k]
  {
    var ps := Selected(mask);
    forall k | 0 <= k < |r.headers|
      ensures r.headers[k] in t.headers && Position(t.headers, r.headers[k]) == ps[k]
    {
      PositionOfDistinct(t.headers, ps[k]);
    }
  }

  lemma SelectedColumnNames(t: Table, mask: seq<bool>, r: Table)
    requires WellFormed(t) && |mask| == |t.headers| && r.headers == Select(t.headers, mask)
    ensures forall name :: name in r.headers <==> name in t.headers && mask[Position(t.headers, name)]
  {
    SelectedColumnPositions(t, mask, r);
    SelectedColumnsKept(t, mask, r);
  }

  lemma SelectedColumnsKept(t: Table, mask: seq<bool>, r: Table)
    requires WellFormed(t) && |mask| == |t.headers| && r.headers == Select(t.headers, mask)
    ensures forall j :: 0 <= j < |t.headers| && mask[j] ==> t.headers[j] in r.headers
  {
    var ps := Selected(mask);
    forall j | 0 <= j < |t.headers| && mask[j] ensures t.headers[j] in r.headers {
      var k :| 0 <= k < |ps| && ps[k] == j;
      assert r.headers[k] == t.headers[j];
    }
  }

  lemma SelectedColumnValues(t: Table, mask: seq<bool>, r: Table)
    requires WellFormed(t) && |mask| == |t.headers| && WellFormed(r)
    requires r.headers == Select(t.headers, mask)
    requires |r.rows| == |t.rows| && forall k :: 0 <= k < |t.rows| ==> r.rows[k] == Select(t.rows[k], mask)
    ensures forall name :: name in r.headers ==> name in t.headers && Column(r, name) == Column(t, name)
  {
    SelectedColumnPositions(t, mask, r);
    forall name | name in r.headers ensures name in t.headers && Column(r, name) == Column(t, name) {
      var k := Position(r.headers, name);
      assert Position(t.headers, name) == Selected(mask)[k];
    }
  }

  /** The pruning step: a column is dropped exactly when every one of its
      cells is blank after strip(); the columns that stay keep their values
      and their relative order. */
  function PruneBlankColumns(t: Table): (r: Table)
    requires WellFormed(t)
    ensures WellFormed(r) && |r.rows| == |t.rows|
    ensures forall name :: name in r.headers <==> name in t.headers && !AllBlank(Column(t, name))
    ensures forall name :: name in r.headers ==> Column(r, name) == Column(t, name)
    ensures forall i, j :: 0 <= i < j < |r.headers| ==>
      Position(t.headers, r.headers[i]) < Position(t.headers, r.headers[j])
  {
    SelectColumns(t, NonBlankMask(t))
  }

  /** The whole classifier, as `scrape` applies it to the scraped cells: the
      relevant rows, with the columns of the frame with `STD` ensured that
      are not entirely blank; only scraped names and `STD` can appear. */
  function Classify(headers: seq<string>, rows: seq<seq<string>>): (t: Table)
    requires RawWellFormed(headers, rows)
    ensures WellFormed(t)
    ensures |t.rows| == |Selected(RelevanceMask(rows))|
    ensures var s := EnsureStd(KeepRelevant(headers, rows));
      forall name :: name in t.headers <==> name in s.headers && !AllBlank(Column(s, name))
    ensures forall name :: name in t.headers ==> name in headers || name == "STD"
  {
    PruneBlankColumns(EnsureStd(KeepRelevant(headers, rows)))
  }

  /** The flight column survives classification: when any row is kept, the
      first output column is the first scraped column, and each output row's
      first cell is the first cell of the scraped row it comes from. */
  lemma {:induction false} ClassifiedFirstColumn(headers: seq<string>, rows: seq<seq<string>>)
    requires RawWellFormed(headers, rows)
    ensures var t := Classify(headers, rows);
      && (|t.rows| > 0 ==> |headers| > 0 && |t.headers| > 0 && t.headers[0] == headers[0])
      && (forall k :: 0 <= k < |t.rows| ==> t.rows[k][0] == rows[Selected(RelevanceMask(rows))[k]][0])
  {
    var a := KeepRelevant(headers, rows);
    var b := EnsureStd(a);
    var c := PruneBlankColumns(b);
    var ps := Selected(RelevanceMask(rows));
    if |c.rows| > 0 {
      assert Relevant(a.rows[0]) && |a.rows[0]| == |headers|;
      var f := headers[0];
      assert b.headers[0] == f;
      PositionOfDistinct(b.headers, 0);
      RelevantFirstCellNotBlank(a.rows[0]);
      assert Column(a, f)[0] == a.rows[0][0];
      assert f in c.headers;
      assert c.headers[0] == f;
      forall k | 0 <= k < |c.rows| ensures c.rows[k][0] == rows[ps[k]][0] {
        assert c.rows[k][0] == Column(c, f)[k] == Column(b, f)[k] == Column(a, f)[k] == a.rows[k][0];
      }
    }
  }

  /** Every classified row still names an accepted carrier in its first cell. */
  lemma {:induction false} ClassifiedRowsRelevant(headers: seq<string>, rows: seq<seq<string>>)
    requires RawWellFormed(headers, rows)
    ensures forall k :: 0 <= k < |Classify(headers, rows).rows| ==> Relevant(Classify(headers, rows).rows[k])
  {
    var t := Classify(headers, rows);
    var ps := Selected(RelevanceMask(rows));
    ClassifiedFirstColumn(headers, rows);
    forall k | 0 <= k < |t.rows| ensures Relevant(t.rows[k]) {
      assert Relevant(rows[ps[k]]);
      assert t.rows[k][0] == rows[ps[k]][0];
    }
  }

  /** The classified table need not have `STD`: a frame with none of `STD`,
      `STA`, `ETA`, `ATA` gets an `STD` column of empty strings (line 41),
      which the pruning step (line 44) then removes. */
  lemma FallbackStdIsPruned(headers: seq<string>, rows: seq<seq<string>>)
    requires RawWellFormed(headers, rows)
    requires "STD" !in headers && "STA" !in headers && "ETA" !in headers && "ATA" !in headers
    ensures "STD" !in Classify(headers, rows).headers
  {
    var b := EnsureStd(KeepRelevant(headers, rows));
    assert AllBlank(Column(b, "STD"));
  }

  /** When the scraped table already has an `STD` column with some non-blank
      cell among the kept rows, the classified table has it with the very
      same cells. */
  lemma ExistingStdKept(headers: seq<string>, rows: seq<seq<string>>)
    requires RawWellFormed(headers, rows) && "STD" in headers
    requires !AllBlank(Column(KeepRelevant(headers, rows), "STD"))
    ensures "STD" in Classify(headers, rows).headers
    ensures Column(Classify(headers, rows), "STD") == Column(KeepRelevant(headers, rows), "STD")
  {
  }
}
