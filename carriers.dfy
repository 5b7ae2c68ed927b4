/** The carrier codes of the Lisbon arrivals board: those whose rows are
    highlighted in the report, and those whose rows are kept at all. */
module Carriers {
  import opened Strings

  /** Carriers whose rows the report paints yellow. */
  const HIGHLIGHTS: set<string> := {"EY", "JD", "JJ", "TS", "UA", "3P", "6O", "AA", "EK"}

  /** Carriers whose rows are kept: the highlighted ones plus "EC". */
  const VALID: set<string> := HIGHLIGHTS + {"EC"}

  /** The upper-cased flight cell contains one of `codes` as a substring. */
  predicate MentionsCode(cell: string, codes: set<string>)
  {
    exists c :: c in codes && Contains(Upper(cell), c)
  }

  /** The scraper's row test: the row has cells and its first cell names a
      carrier in VALID. */
  predicate Relevant(row: seq<string>)
  {
    |row| > 0 && MentionsCode(row[0], VALID)
  }

  /** The report's highlight test on a rendered row's first cell. */
  predicate Highlighted(firstCell: string)
  {
    MentionsCode(firstCell, HIGHLIGHTS)
  }

  /** Every highlighted carrier is accepted, and "EC" is the only carrier
      accepted without being highlighted. */
  lemma HighlightsWithinValid()
    ensures HIGHLIGHTS <= VALID
    ensures VALID - HIGHLIGHTS == {"EC"}
  {
  }

  /** Any row the report would highlight is a row the scraper keeps. */
  lemma HighlightedRowIsRelevant(row: seq<string>)
    requires |row| > 0 && Highlighted(row[0])
    ensures Relevant(row)
  {
    var c :| c in HIGHLIGHTS && Contains(Upper(row[0]), c);
    assert c in VALID;
  }

  /** A first cell naming an accepted carrier is never blank, so the flight
      column of a table of relevant rows survives the blank-column pruning. */
  lemma {:induction false} RelevantFirstCellNotBlank(row: seq<string>)
    requires Relevant(row)
    ensures !Blank(row[0])
  {
    var c :| c in VALID && Contains(Upper(row[0]), c);
    assert |c| == 2 && !IsSpace(c[0]);
    var i :| OccursAt(Upper(row[0]), c, i);
    assert Upper(row[0])[i] == c[0];
    NotBlankWhenSomeNonSpace(row[0], i);
  }

  /** An "EC" flight is kept but not highlighted. */
  lemma EcFlightKeptNotHighlighted()
    ensures Relevant(["EC1234", "09:00"])
    ensures !Highlighted("EC1234")
  {
    var u := Upper("EC1234");
    assert u == "EC1234";
    assert OccursAt(u, "EC", 0);
    forall c | c in HIGHLIGHTS ensures !Contains(u, c) {
      forall i ensures !OccursAt(u, c, i) {
        if 0 <= i <= 4 {
          assert u[i..i + 2] == [u[i], u[i + 1]];
        }
      }
    }
  }

  /** The row test ignores case: a flight cell written in lower case, such as
      "ec 123", is upper-cased before the codes are looked for. */
  lemma LowerCaseFlightRelevant()
    ensures Upper("ec 123") == "EC 123"
    ensures Relevant(["ec 123"])
  {
    var u := Upper("ec 123");
    assert u == "EC 123";
    assert OccursAt(u, "EC", 0);
  }
}
