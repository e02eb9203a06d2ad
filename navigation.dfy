/**
 * Index paths, the toolbar's text-field registry, and the two recursive
 * searches the toolbar runs to find the text field before or after the
 * focused one.
 *
 * A search never changes the registry.  Its one side effect is to make the
 * field it finds first responder, so each search is a function returning
 * both the row it activated and the index path it returned: the two differ
 * because the recursive calls' results are dropped.
 */
module Navigation {

  datatype Option<T> = None | Some(value: T)

  /** An index path.  Both coordinates are signed: the backward search builds
      the path (s, -1) when it passes over a section without rows. */
  datatype RowId = RowId(section: int, row: int)

  /** Identity of a text field; the model never looks inside one. */
  type FieldId = nat

  /** `tableTextFields`: the text field shown in each registered row. */
  type Registry = map<RowId, FieldId>

  /** Strict lexicographic order on index paths. */
  predicate Precedes(a: RowId, b: RowId) {
    a.section < b.section || (a.section == b.section && a.row < b.row)
  }

  /** The table view's `numberOfRowsInSection`: a table with |counts|
      sections, and no rows in any section outside them. */
  function RowCount(counts: seq<nat>, section: int): nat {
    if 0 <= section < |counts| then counts[section] else 0
  }

  /** An index path naming a row that the table actually has. */
  predicate InTable(counts: seq<nat>, p: RowId) {
    0 <= p.section < |counts| && 0 <= p.row < RowCount(counts, p.section)
  }

  /** What one search did: the row whose field became first responder, and
      the index path the search returned to its caller. */
  datatype Search = Search(activated: Option<RowId>, returned: Option<RowId>)

  // ---------------------------------------------------------------------
  // Backward search
  // ---------------------------------------------------------------------

  /** `findPreviousValidIndexPath`: step to the row above; at the top of a
      section, step to the last row of the section before (row -1 when it
      has none).  The first registered row reached is activated; the path
      is returned only when that row is the first one looked at. */
  function FindPrevious(reg: Registry, counts: seq<nat>, at: RowId): (res: Search)
    ensures res.activated.Some? ==> res.activated.value in reg && Precedes(res.activated.value, at)
    ensures res.returned.Some? ==> res.returned == res.activated
    decreases at.section, at.row
  {
    if at.row > 0 then
      var prev := RowId(at.section, at.row - 1);
      if prev in reg then Search(Some(prev), Some(prev))
      else Search(FindPrevious(reg, counts, prev).activated, None)
    else if at.section > 0 then
      var rows: int := RowCount(counts, at.section - 1);
      var prev := RowId(at.section - 1, rows - 1);
      if rows > 0 && prev in reg then Search(Some(prev), Some(prev))
      else Search(FindPrevious(reg, counts, prev).activated, None)
    else
      Search(None, None)
  }

  /** The rows whose registration the backward search from `at` inspects:
      the rows above `at` in its own section, then every row of every
      earlier section. */
  predicate CheckedByPrevious(counts: seq<nat>, at: RowId, q: RowId) {
    || (q.section == at.section && 0 <= q.row < at.row)
    || (0 <= q.section < at.section && 0 <= q.row < RowCount(counts, q.section))
  }

  /** `found` is the last registered row among those checked, or None when
      none of them is registered. */
  ghost predicate IsPreviousTarget(reg: Registry, counts: seq<nat>, at: RowId, found: Option<RowId>) {
    match found
    case Some(p) =>
      && p in reg && CheckedByPrevious(counts, at, p)
      && forall q :: q in reg && CheckedByPrevious(counts, at, q) ==> q == p || Precedes(q, p)
    case None =>
      forall q :: q in reg ==> !CheckedByPrevious(counts, at, q)
  }

  lemma {:induction false} FindPreviousActivatesNearest(reg: Registry, counts: seq<nat>, at: RowId)
    ensures IsPreviousTarget(reg, counts, at, FindPrevious(reg, counts, at).activated)
    decreases at.section, at.row
  {
    if at.row > 0 {
      var prev := RowId(at.section, at.row - 1);
      assert forall q :: CheckedByPrevious(counts, at, q) <==> q == prev || CheckedByPrevious(counts, prev, q);
      if prev !in reg {
        FindPreviousActivatesNearest(reg, counts, prev);
      }
    } else if at.section > 0 {
      var rows: int := RowCount(counts, at.section - 1);
      var prev := RowId(at.section - 1, rows - 1);
      assert forall q :: CheckedByPrevious(counts, at, q) <==> (rows > 0 && q == prev) || CheckedByPrevious(counts, prev, q);
      if !(rows > 0 && prev in reg) {
        FindPreviousActivatesNearest(reg, counts, prev);
      }
    }
  }

  // ---------------------------------------------------------------------
  // Forward search
  // ---------------------------------------------------------------------

  /** `findNextValidIndexPath`: step to the row below while there is one in
      the section; at the bottom of a section, move to row 0 of the next
      section, but only when that section's index is below
      `numberOfSections - 1`; a section without rows is passed over
      without a registry lookup. */
  function FindNext(reg: Registry, counts: seq<nat>, at: RowId): (res: Search)
    ensures res.activated.Some? ==> res.activated.value in reg && Precedes(at, res.activated.value)
    ensures res.returned.Some? ==> res.returned == res.activated
    decreases |counts| - at.section, RowCount(counts, at.section) - at.row
  {
    var rows: int := RowCount(counts, at.section);
    if at.row < rows - 1 then
      var next := RowId(at.section, at.row + 1);
      if next in reg then Search(Some(next), Some(next))
      else Search(FindNext(reg, counts, next).activated, None)
    else if at.section + 1 < |counts| - 1 then
      var next := RowId(at.section + 1, 0);
      if RowCount(counts, at.section + 1) > 0 && next in reg then Search(Some(next), Some(next))
      else Search(FindNext(reg, counts, next).activated, None)
    else
      Search(None, None)
  }

  /** The rows whose registration a forward search from `at` inspects when
      it may enter sections below `bound`: the rows below `at` in its own
      section, then every row of the later sections below `bound`.
      `FindNext` runs with bound |counts| - 1. */
  predicate CheckedByNext(counts: seq<nat>, bound: int, at: RowId, q: RowId) {
    || (q.section == at.section && at.row < q.row < RowCount(counts, at.section))
    || (at.section < q.section < bound && 0 <= q.row < RowCount(counts, q.section))
  }

  /** `found` is the first registered row among those checked, or None when
      none of them is registered. */
  ghost predicate IsNextTarget(reg: Registry, counts: seq<nat>, bound: int, at: RowId, found: Option<RowId>) {
    match found
    case Some(p) =>
      && p in reg && CheckedByNext(counts, bound, at, p)
      && forall q :: q in reg && CheckedByNext(counts, bound, at, q) ==> q == p || Precedes(p, q)
    case None =>
      forall q :: q in reg ==> !CheckedByNext(counts, bound, at, q)
  }

  lemma {:induction false} FindNextActivatesNearest(reg: Registry, counts: seq<nat>, at: RowId)
    ensures IsNextTarget(reg, counts, |counts| - 1, at, FindNext(reg, counts, at).activated)
    decreases |counts| - at.section, RowCount(counts, at.section) - at.row
  {
    var bound := |counts| - 1;
    var rows: int := RowCount(counts, at.section);
    if at.row < rows - 1 {
      var next := RowId(at.section, at.row + 1);
      assert forall q :: CheckedByNext(counts, bound, at, q) <==> q == next || CheckedByNext(counts, bound, next, q);
      if next !in reg {
        FindNextActivatesNearest(reg, counts, next);
      }
    } else if at.section + 1 < bound {
      var next := RowId(at.section + 1, 0);
      var nextRows := RowCount(counts, at.section + 1);
      assert forall q :: CheckedByNext(counts, bound, at, q) <==> (nextRows > 0 && q == next) || CheckedByNext(counts, bound, next, q);
      if !(nextRows > 0 && next in reg) {
        FindNextActivatesNearest(reg, counts, next);
      }
    }
  }

  /** Started outside the final section, the forward search never activates
      a field in the final section. */
  lemma FindNextAvoidsFinalSection(reg: Registry, counts: seq<nat>, at: RowId)
    requires at.section < |counts| - 1
    ensures FindNext(reg, counts, at).activated.Some? ==> FindNext(reg, counts, at).activated.value.section < |counts| - 1
  {
    FindNextActivatesNearest(reg, counts, at);
  }

  // ---------------------------------------------------------------------
  // What each search returns
  // ---------------------------------------------------------------------

  /** The one row the top-level backward call looks up itself: the row
      above, or the last row of the section before when it has rows. */
  function PreviousProbe(counts: seq<nat>, at: RowId): (probe: Option<RowId>)
    ensures probe.Some? ==> CheckedByPrevious(counts, at, probe.value)
  {
    if at.row > 0 then Some(RowId(at.section, at.row - 1))
    else if at.section > 0 && RowCount(counts, at.section - 1) > 0 then
      Some(RowId(at.section - 1, RowCount(counts, at.section - 1) - 1))
    else None
  }

  /** The backward search returns an index path only when the first row it
      looks up is registered; a match found deeper is activated but not
      returned. */
  lemma FindPreviousReturnsOnlyProbe(reg: Registry, counts: seq<nat>, at: RowId)
    ensures FindPrevious(reg, counts, at).returned.Some?
        <==> PreviousProbe(counts, at).Some? && PreviousProbe(counts, at).value in reg
    ensures FindPrevious(reg, counts, at).returned.Some? ==> FindPrevious(reg, counts, at).returned == PreviousProbe(counts, at)
  {
  }

  /** The one row the top-level forward call looks up itself. */
  function NextProbe(counts: seq<nat>, at: RowId): (probe: Option<RowId>)
    ensures probe.Some? ==> CheckedByNext(counts, |counts| - 1, at, probe.value)
  {
    if at.row < RowCount(counts, at.section) - 1 then Some(RowId(at.section, at.row + 1))
    else if at.section + 1 < |counts| - 1 && RowCount(counts, at.section + 1) > 0 then
      Some(RowId(at.section + 1, 0))
    else None
  }

  /** The forward search returns an index path only when the first row it
      looks up is registered. */
  lemma FindNextReturnsOnlyProbe(reg: Registry, counts: seq<nat>, at: RowId)
    ensures FindNext(reg, counts, at).returned.Some?
        <==> NextProbe(counts, at).Some? && NextProbe(counts, at).value in reg
    ensures FindNext(reg, counts, at).returned.Some? ==> FindNext(reg, counts, at).returned == NextProbe(counts, at)
  {
  }

  // ---------------------------------------------------------------------
  // Searches started from a row of the table
  // ---------------------------------------------------------------------

  lemma CheckedByPreviousInTable(counts: seq<nat>, at: RowId, q: RowId)
    requires InTable(counts, at)
    ensures CheckedByPrevious(counts, at, q) <==> InTable(counts, q) && Precedes(q, at)
  {
  }

  lemma CheckedByNextInTable(counts: seq<nat>, bound: int, at: RowId, q: RowId)
    requires InTable(counts, at) && bound <= |counts|
    ensures CheckedByNext(counts, bound, at, q)
        <==> InTable(counts, q) && Precedes(at, q) && (q.section == at.section || q.section < bound)
  {
  }

  /** Previous, then Next, comes back to a registered row, unless the row
      is in the final section and Previous left that section. */
  lemma PreviousThenNext(reg: Registry, counts: seq<nat>, x: RowId)
    requires x in reg && InTable(counts, x)
    requires FindPrevious(reg, counts, x).activated.Some?
    requires x.section < |counts| - 1 || FindPrevious(reg, counts, x).activated.value.section == x.section
    ensures FindNext(reg, counts, FindPrevious(reg, counts, x).activated.value).activated == Some(x)
  {
    var y := FindPrevious(reg, counts, x).activated.value;
    FindPreviousActivatesNearest(reg, counts, x);
    CheckedByPreviousInTable(counts, x, y);
    FindNextActivatesNearest(reg, counts, y);
    CheckedByNextInTable(counts, |counts| - 1, y, x);
    var p := FindNext(reg, counts, y).activated.value;
    if p != x {
      CheckedByNextInTable(counts, |counts| - 1, y, p);
      CheckedByPreviousInTable(counts, x, p);
      assert false;
    }
  }

  /** Next, then Previous, comes back to a registered row. */
  lemma NextThenPrevious(reg: Registry, counts: seq<nat>, x: RowId)
    requires x in reg && InTable(counts, x)
    requires FindNext(reg, counts, x).activated.Some?
    ensures FindPrevious(reg, counts, FindNext(reg, counts, x).activated.value).activated == Some(x)
  {
    var y := FindNext(reg, counts, x).activated.value;
    FindNextActivatesNearest(reg, counts, x);
    CheckedByNextInTable(counts, |counts| - 1, x, y);
    FindPreviousActivatesNearest(reg, counts, y);
    CheckedByPreviousInTable(counts, y, x);
    var p := FindPrevious(reg, counts, y).activated.value;
    if p != x {
      CheckedByPreviousInTable(counts, y, p);
      CheckedByNextInTable(counts, |counts| - 1, x, p);
      assert false;
    }
  }

  // ---------------------------------------------------------------------
  // Corrected searches
  // ---------------------------------------------------------------------

  /** The backward search as its documentation describes it: the index
      path it activates is also the one it returns. */
  function PreviousValidIndexPath(reg: Registry, counts: seq<nat>, at: RowId): (found: Option<RowId>)
    ensures found.Some? ==> found.value in reg && Precedes(found.value, at)
    decreases at.section, at.row
  {
    if at.row > 0 then
      var prev := RowId(at.section, at.row - 1);
      if prev in reg then Some(prev) else PreviousValidIndexPath(reg, counts, prev)
    else if at.section > 0 then
      var rows: int := RowCount(counts, at.section - 1);
      var prev := RowId(at.section - 1, rows - 1);
      if rows > 0 && prev in reg then Some(prev) else PreviousValidIndexPath(reg, counts, prev)
    else
      None
  }

  lemma {:induction false} PreviousValidIndexPathIsNearest(reg: Registry, counts: seq<nat>, at: RowId)
    ensures PreviousValidIndexPath(reg, counts, at) == FindPrevious(reg, counts, at).activated
    ensures IsPreviousTarget(reg, counts, at, PreviousValidIndexPath(reg, counts, at))
    decreases at.section, at.row
  {
    FindPreviousActivatesNearest(reg, counts, at);
    if at.row > 0 {
      PreviousValidIndexPathIsNearest(reg, counts, RowId(at.section, at.row - 1));
    } else if at.section > 0 {
      PreviousValidIndexPathIsNearest(reg, counts, RowId(at.section - 1, RowCount(counts, at.section - 1) - 1));
    }
  }

  /** The forward search as its documentation describes it: it may enter
      every later section, the final one included, and it returns the
      index path it activates. */
  function NextValidIndexPath(reg: Registry, counts: seq<nat>, at: RowId): (found: Option<RowId>)
    ensures found.Some? ==> found.value in reg && Precedes(at, found.value)
    decreases |counts| - at.section, RowCount(counts, at.section) - at.row
  {
    var rows: int := RowCount(counts, at.section);
    if at.row < rows - 1 then
      var next := RowId(at.section, at.row + 1);
      if next in reg then Some(next) else NextValidIndexPath(reg, counts, next)
    else if at.section + 1 < |counts| then
      var next := RowId(at.section + 1, 0);
      if RowCount(counts, at.section + 1) > 0 && next in reg then Some(next)
      else NextValidIndexPath(reg, counts, next)
    else
      None
  }

  lemma {:induction false} NextValidIndexPathIsNearest(reg: Registry, counts: seq<nat>, at: RowId)
    ensures IsNextTarget(reg, counts, |counts|, at, NextValidIndexPath(reg, counts, at))
    decreases |counts| - at.section, RowCount(counts, at.section) - at.row
  {
    var bound := |counts|;
    var rows: int := RowCount(counts, at.section);
    if at.row < rows - 1 {
      var next := RowId(at.section, at.row + 1);
      assert forall q :: CheckedByNext(counts, bound, at, q) <==> q == next || CheckedByNext(counts, bound, next, q);
      if next !in reg {
        NextValidIndexPathIsNearest(reg, counts, next);
      }
    } else if at.section + 1 < bound {
      var next := RowId(at.section + 1, 0);
      var nextRows := RowCount(counts, at.section + 1);
      assert forall q :: CheckedByNext(counts, bound, at, q) <==> (nextRows > 0 && q == next) || CheckedByNext(counts, bound, next, q);
      if !(nextRows > 0 && next in reg) {
        NextValidIndexPathIsNearest(reg, counts, next);
      }
    }
  }

  /** With the corrected searches, Previous then Next comes back to every
      registered row of the table, the final section included. */
  lemma ValidPreviousThenNext(reg: Registry, counts: seq<nat>, x: RowId)
    requires x in reg && InTable(counts, x)
    requires PreviousValidIndexPath(reg, counts, x).Some?
    ensures NextValidIndexPath(reg, counts, PreviousValidIndexPath(reg, counts, x).value) == Some(x)
  {
    var y := PreviousValidIndexPath(reg, counts, x).value;
    PreviousValidIndexPathIsNearest(reg, counts, x);
    CheckedByPreviousInTable(counts, x, y);
    NextValidIndexPathIsNearest(reg, counts, y);
    CheckedByNextInTable(counts, |counts|, y, x);
    var p := NextValidIndexPath(reg, counts, y).value;
    if p != x {
      CheckedByNextInTable(counts, |counts|, y, p);
      CheckedByPreviousInTable(counts, x, p);
      assert false;
    }
  }

  /** With the corrected searches, Next then Previous comes back to every
      registered row of the table. */
  lemma ValidNextThenPrevious(reg: Registry, counts: seq<nat>, x: RowId)
    requires x in reg && InTable(counts, x)
    requires NextValidIndexPath(reg, counts, x).Some?
    ensures PreviousValidIndexPath(reg, counts, NextValidIndexPath(reg, counts, x).value) == Some(x)
  {
    var y := NextValidIndexPath(reg, counts, x).value;
    NextValidIndexPathIsNearest(reg, counts, x);
    CheckedByNextInTable(counts, |counts|, x, y);
    PreviousValidIndexPathIsNearest(reg, counts, y);
    CheckedByPreviousInTable(counts, y, x);
    var p := PreviousValidIndexPath(reg, counts, y).value;
    if p != x {
      CheckedByPreviousInTable(counts, y, p);
      CheckedByNextInTable(counts, |counts|, x, p);
      assert false;
    }
  }

  // ---------------------------------------------------------------------
  // The two discrepancies, on concrete tables
  // ---------------------------------------------------------------------

  /** Sections of 3 and 2 rows with fields at (0,0), (0,2) and (1,1): the
      forward search from (0,2) stops, because section 1 is the final one,
      while the corrected search reaches (1,1). */
  lemma NextSkipsFinalSection()
    ensures var reg := map[RowId(0, 0) := 0, RowId(0, 2) := 1, RowId(1, 1) := 2];
            && FindNext(reg, [3, 2], RowId(0, 2)).activated == None
            && NextValidIndexPath(reg, [3, 2], RowId(0, 2)) == Some(RowId(1, 1))
  {
    var reg := map[RowId(0, 0) := 0, RowId(0, 2) := 1, RowId(1, 1) := 2];
    assert RowId(1, 0) !in reg;
    assert NextValidIndexPath(reg, [3, 2], RowId(1, 0)) == Some(RowId(1, 1));
  }

  /** One section of 3 rows with a field at (0,0) only: the backward search
      from (0,2) activates (0,0) but returns nil. */
  lemma PreviousDropsDeeperMatch()
    ensures var reg := map[RowId(0, 0) := 0];
            && FindPrevious(reg, [3], RowId(0, 2)) == Search(Some(RowId(0, 0)), None)
            && PreviousValidIndexPath(reg, [3], RowId(0, 2)) == Some(RowId(0, 0))
  {
    var reg := map[RowId(0, 0) := 0];
    assert RowId(0, 1) !in reg;
  }
}
