/**
 * The data-entry toolbar: its traversal direction, its registry of text
 * fields, and the Previous, Next and Done button handlers.
 *
 * UIKit's first responder is modelled as the field `firstResponder` of the
 * toolbar: `becomeFirstResponder` sets it, `resignFirstResponder` clears it.
 * A tap reports which of the toolbar's closures it fires.
 */
module Toolbar {
  import opened Navigation

  /** `ToolbarTraversalDirection`. */
  datatype Direction = Next | Previous | Done

  /** The toolbar's delegate closures; a tap fires exactly one of them. */
  datatype Callback =
    | DidTapPreviousButton
    | DidTapPreviousButtonFromTextField(field: FieldId)
    | DidTapNextButton
    | DidTapNextButtonFromTextField(field: FieldId)
    | DidTapDoneButton
    | DidTapDoneButtonFromTextField(field: FieldId)

  /** The field registered at `p` is the first responder. */
  predicate ActiveAt(fields: Registry, responder: Option<FieldId>, p: RowId) {
    p in fields && responder == Some(fields[p])
  }

  /** No registered field is the first responder. */
  predicate NoneActive(fields: Registry, responder: Option<FieldId>) {
    forall p :: p in fields ==> !ActiveAt(fields, responder, p)
  }

  /** The loop each handler runs over `tableTextFields` to find the active
      field.  Dictionary order is unspecified, so the entry looked at next is
      an arbitrary one not yet looked at; the loop stops at the first match. */
  method ScanForActive(fields: Registry, responder: Option<FieldId>) returns (found: Option<RowId>)
    ensures found.Some? ==> ActiveAt(fields, responder, found.value)
    ensures found.None? ==> NoneActive(fields, responder)
  {
    found := None;
    var unvisited := fields.Keys;
    while unvisited != {}
      invariant unvisited <= fields.Keys
      invariant found == None
      invariant forall p :: p in fields.Keys - unvisited ==> !ActiveAt(fields, responder, p)
      decreases unvisited
    {
      var p :| p in unvisited;
      if ActiveAt(fields, responder, p) {
        found := Some(p);
        break;
      }
      unvisited := unvisited - {p};
    }
  }

  /** The first responder after a search: the field of the row it activated,
      or none. */
  function Focus(fields: Registry, target: Option<RowId>): Option<FieldId>
    requires target.Some? ==> target.value in fields
  {
    match target
    case Some(p) => Some(fields[p])
    case None => None
  }

  class DataEntryToolbar {
    /** `toolbarTraversalDirection`: nil until the first tap. */
    var toolbarTraversalDirection: Option<Direction>
    /** `tableTextFields`, filled by the table's data source. */
    var tableTextFields: Registry
    /** The text field that is first responder, if any. */
    var firstResponder: Option<FieldId>

    constructor ()
      ensures toolbarTraversalDirection == None && tableTextFields == map[] && firstResponder == None
    {
      toolbarTraversalDirection := None;
      tableTextFields := map[];
      firstResponder := None;
    }

    /** `previousButtonTapped`: record the direction; resign the active
        field and focus the previous one, if a registered field is active;
        fire the Previous closure, with the resigned field when there was
        one.  `counts` are the table view's row counts at tap time. */
    method PreviousButtonTapped(counts: seq<nat>) returns (fired: Callback)
      modifies this
      ensures toolbarTraversalDirection == Some(Previous)
      ensures tableTextFields == old(tableTextFields)
      ensures NoneActive(tableTextFields, old(firstResponder)) ==>
        firstResponder == old(firstResponder) && fired == DidTapPreviousButton
      ensures !NoneActive(tableTextFields, old(firstResponder)) ==>
        && fired == DidTapPreviousButtonFromTextField(old(firstResponder).value)
        && exists p :: ActiveAt(tableTextFields, old(firstResponder), p)
                    && firstResponder == Focus(tableTextFields, FindPrevious(tableTextFields, counts, p).activated)
    {
      toolbarTraversalDirection := Some(Previous);
      var lastActive: Option<FieldId> := None;
      var active := ScanForActive(tableTextFields, firstResponder);
      if active.Some? {
        lastActive := firstResponder;
        firstResponder := None;
        var search := FindPrevious(tableTextFields, counts, active.value);
        firstResponder := Focus(tableTextFields, search.activated);
      }
      fired := if lastActive.Some? then DidTapPreviousButtonFromTextField(lastActive.value) else DidTapPreviousButton;
    }

    /** `nextButtonTapped`: the same with the forward search and the Next
        closure. */
    method NextButtonTapped(counts: seq<nat>) returns (fired: Callback)
      modifies this
      ensures toolbarTraversalDirection == Some(Next)
      ensures tableTextFields == old(tableTextFields)
      ensures NoneActive(tableTextFields, old(firstResponder)) ==>
        firstResponder == old(firstResponder) && fired == DidTapNextButton
      ensures !NoneActive(tableTextFields, old(firstResponder)) ==>
        && fired == DidTapNextButtonFromTextField(old(firstResponder).value)
        && exists p :: ActiveAt(tableTextFields, old(firstResponder), p)
                    && firstResponder == Focus(tableTextFields, FindNext(tableTextFields, counts, p).activated)
    {
      toolbarTraversalDirection := Some(Next);
      var lastActive: Option<FieldId> := None;
      var active := ScanForActive(tableTextFields, firstResponder);
      if active.Some? {
        lastActive := firstResponder;
        firstResponder := None;
        var search := FindNext(tableTextFields, counts, active.value);
        firstResponder := Focus(tableTextFields, search.activated);
      }
      fired := if lastActive.Some? then DidTapNextButtonFromTextField(lastActive.value) else DidTapNextButton;
    }

    /** `doneButtonTapped`: record the direction and resign the active field.
        As written it fires the Next closures, not the Done ones. */
    method DoneButtonTapped() returns (fired: Callback)
      modifies this
      ensures toolbarTraversalDirection == Some(Done)
      ensures tableTextFields == old(tableTextFields)
      ensures NoneActive(tableTextFields, firstResponder)
      ensures NoneActive(tableTextFields, old(firstResponder)) ==>
        firstResponder == old(firstResponder) && fired == DidTapNextButton
      ensures !NoneActive(tableTextFields, old(firstResponder)) ==>
        firstResponder == None && fired == DidTapNextButtonFromTextField(old(firstResponder).value)
    {
      toolbarTraversalDirection := Some(Done);
      var lastActive: Option<FieldId> := None;
      var active := ScanForActive(tableTextFields, firstResponder);
      if active.Some? {
        lastActive := firstResponder;
        firstResponder := None;
      }
      fired := if lastActive.Some? then DidTapNextButtonFromTextField(lastActive.value) else DidTapNextButton;
    }
  }
}
