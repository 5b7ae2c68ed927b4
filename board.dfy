/** The board as `main` assembles it: the classified scrape, then the
    recency filter. */
module Board {
  import opened Frames
  import opened Carriers
  import opened Classifier
  import opened RecencyFilter
  import ClockTime

  /** Every row that reaches the report names an accepted carrier in its
      first cell, whatever the recency filter drops. */
  lemma {:induction false} BoardRowsRelevant(headers: seq<string>, rows: seq<seq<string>>, hrs: int, now: nat)
    requires RawWellFormed(headers, rows) && now < ClockTime.DAY
    ensures forall k :: 0 <= k < |FilterRecent(Classify(headers, rows), hrs, now).rows| ==>
      Relevant(FilterRecent(Classify(headers, rows), hrs, now).rows[k])
  {
    var c := Classify(headers, rows);
    ClassifiedRowsRelevant(headers, rows);
    var r := FilterRecent(c, hrs, now);
    FilteredRowsFromInput(c, hrs, now);
    forall k | 0 <= k < |r.rows| ensures Relevant(r.rows[k]) {
      var j :| 0 <= j < |c.rows| && c.rows[j] == r.rows[k];
    }
  }
}
