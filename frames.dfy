/** A data frame of text cells: named columns and rows of cells aligned to
    them, with the two pandas operations the flight board uses: reading a
    column by name and selecting rows or columns with a boolean mask. */
module Frames {

  datatype Table = Table(headers: seq<string>, rows: seq<seq<string>>)

  predicate Distinct(hs: seq<string>)
  {
    forall i, j :: 0 <= i < j < |hs| ==> hs[i] != hs[j]
  }

  /** Column names are distinct and every row has one cell per column. */
  predicate WellFormed(t: Table)
  {
    && Distinct(t.headers)
    && forall k :: 0 <= k < |t.rows| ==> |t.rows[k]| == |t.headers|
  }

  /** Where column `name` stands among the headers. */
  function Position(hs: seq<string>, name: string): (i: nat)
    requires name in hs
    ensures i < |hs| && hs[i] == name
    ensures forall j :: 0 <= j < i ==> hs[j] != name
  {
    if hs[0] == name then 0 else 1 + Position(hs[1..], name)
  }

  /** In a list of distinct names, a name's position is the one index that holds it. */
  lemma PositionOfDistinct(hs: seq<string>, i: int)
    requires Distinct(hs) && 0 <= i < |hs|
    ensures Position(hs, hs[i]) == i
  {
  }

  /** `df[name]`: the cells of column `name`, top to bottom. */
  function Column(t: Table, name: string): (col: seq<string>)
    requires WellFormed(t) && name in t.headers
    ensures |col| == |t.rows|
    ensures forall k :: 0 <= k < |t.rows| ==> col[k] == t.rows[k][Position(t.headers, name)]
  {
    seq(|t.rows|, k requires 0 <= k < |t.rows| => t.rows[k][Position(t.headers, name)])
  }

  /** Every position moved one place to the right. */
  function Shift(ps: seq<nat>): (qs: seq<nat>)
    ensures |qs| == |ps| && forall k :: 0 <= k < |ps| ==> qs[k] == ps[k] + 1
  {
    seq(|ps|, k requires 0 <= k < |ps| => ps[k] + 1)
  }

  /** The positions at which `mask` is true, in increasing order. */
  function Selected(mask: seq<bool>): (ps: seq<nat>)
    ensures forall k :: 0 <= k < |ps| ==> ps[k] < |mask| && mask[ps[k]]
    ensures forall k, l :: 0 <= k < l < |ps| ==> ps[k] < ps[l]
    ensures forall i :: 0 <= i < |mask| && mask[i] ==> i in ps
  {
    if mask == [] then []
    else
      var tail := Selected(mask[1..]);
      SelectedStepSound(mask, tail);
      SelectedStepOrdered(mask, tail);
      SelectedStepComplete(mask, tail);
      (if mask[0] then [0] else []) + Shift(tail)
  }

  /* The induction step of Selected, one fact at a time: putting the first
     position in front of the tail's positions, each moved one place right,
     keeps what Selected promises. */

  lemma SelectedStepSound(mask: seq<bool>, tail: seq<nat>)
    requires mask != []
    requires forall k :: 0 <= k < |tail| ==> tail[k] < |mask| - 1 && mask[1..][tail[k]]
    ensures var ps := (if mask[0] then [0] else []) + Shift(tail);
      forall k :: 0 <= k < |ps| ==> ps[k] < |mask| && mask[ps[k]]
  {
    var shifted := Shift(tail);
    var head: seq<nat> := if mask[0] then [0] else [];
    var ps := head + shifted;
    forall k | 0 <= k < |ps| ensures ps[k] < |mask| && mask[ps[k]] {
      if k >= |head| {
        assert ps[k] == shifted[k - |head|] == tail[k - |head|] + 1;
        assert mask[1..][tail[k - |head|]];
      }
    }
  }

  lemma SelectedStepOrdered(mask: seq<bool>, tail: seq<nat>)
    requires mask != []
    requires forall k, l :: 0 <= k < l < |tail| ==> tail[k] < tail[l]
    ensures var ps := (if mask[0] then [0] else []) + Shift(tail);
      forall k, l :: 0 <= k < l < |ps| ==> ps[k] < ps[l]
  {
    var shifted := Shift(tail);
    var head: seq<nat> := if mask[0] then [0] else [];
    var ps := head + shifted;
    forall k, l | 0 <= k < l < |ps| ensures ps[k] < ps[l] {
      if k >= |head| {
        assert ps[k] == shifted[k - |head|] && ps[l] == shifted[l - |head|];
      } else {
        assert ps[l] == shifted[l - 1];
      }
    }
  }

  lemma SelectedStepComplete(mask: seq<bool>, tail: seq<nat>)
    requires mask != []
    requires forall i :: 0 <= i < |mask| - 1 && mask[1..][i] ==> i in tail
    ensures var ps := (if mask[0] then [0] else []) + Shift(tail);
      forall i :: 0 <= i < |mask| && mask[i] ==> i in ps
  {
    var shifted := Shift(tail);
    var head: seq<nat> := if mask[0] then [0] else [];
    var ps := head + shifted;
    forall i | 0 <= i < |mask| && mask[i] ensures i in ps {
      if i == 0 {
        assert ps[0] == 0;
      } else {
        assert mask[1..][i - 1];
        var k :| 0 <= k < |tail| && tail[k] == i - 1;
        assert ps[|head| + k] == i;
      }
    }
  }

  /** Boolean-mask selection (`df[mask]`, `df.loc[:, mask]`, a filtering list
      comprehension): the elements at the selected positions, in their
      original order. */
  function Select<T>(xs: seq<T>, mask: seq<bool>): (r: seq<T>)
    requires |mask| == |xs|
    ensures |r| == |Selected(mask)|
    ensures forall k :: 0 <= k < |r| ==> r[k] == xs[Selected(mask)[k]]
  {
    if xs == [] then []
    else
      var rest := Select(xs[1..], mask[1..]);
      var tail := Selected(mask[1..]);
      assert forall k :: 0 <= k < |rest| ==> tail[k] < |xs| - 1 && rest[k] == xs[tail[k] + 1];
      SelectStep(xs, mask[0], rest, tail);
      (if mask[0] then [xs[0]] else []) + rest
  }

  /** The induction step of Select: the first element, if kept, goes in
      front of the elements the tail positions, moved one place right,
      pick out. */
  lemma SelectStep<T>(xs: seq<T>, keepFirst: bool, rest: seq<T>, tail: seq<nat>)
    requires xs != []
    requires |rest| == |tail|
    requires forall k :: 0 <= k < |rest| ==> tail[k] < |xs| - 1 && rest[k] == xs[tail[k] + 1]
    ensures var r := (if keepFirst then [xs[0]] else []) + rest;
      var ps := (if keepFirst then [0] else []) + Shift(tail);
      && |r| == |ps|
      && forall k :: 0 <= k < |r| ==> ps[k] < |xs| && r[k] == xs[ps[k]]
  {
    var head := if keepFirst then [xs[0]] else [];
    var r := head + rest;
    var ps: seq<nat> := (if keepFirst then [0] else []) + Shift(tail);
    forall k | 0 <= k < |r| ensures ps[k] < |xs| && r[k] == xs[ps[k]] {
      if k >= |head| {
        var j := k - |head|;
        assert r[k] == rest[j] && ps[k] == tail[j] + 1;
      }
    }
  }

  /** A mask that keeps everything selects the whole sequence. */
  lemma {:induction false} SelectAll<T>(xs: seq<T>, mask: seq<bool>)
    requires |mask| == |xs| && forall i :: 0 <= i < |mask| ==> mask[i]
    ensures Select(xs, mask) == xs
  {
    if xs != [] {
      SelectAll(xs[1..], mask[1..]);
    }
  }

  /** Selecting from distinct names gives distinct names. */
  lemma SelectDistinct(hs: seq<string>, mask: seq<bool>)
    requires |mask| == |hs| && Distinct(hs)
    ensures Distinct(Select(hs, mask))
  {
  }
}
