/**
 * The demo form that drives the toolbar: five table sections, the list of
 * user-added items, the text entered per row, and the save button's
 * enabled state.
 */
module Demo {
  import opened Navigation
  import opened Toolbar

  // `TableSections` raw values.
  const BasicInfo := 0
  const LabelAndDate := 1
  const MoreOptions := 2
  const Items := 3
  const AddNewItemSection := 4

  /** `numberOfSectionsInTableView`. */
  const NumberOfSections := 5

  /** `tableView(_:numberOfRowsInSection:)`. */
  function NumberOfRowsInSection(items: seq<string>, section: int): (rows: nat)
    ensures !(0 <= section < NumberOfSections) ==> rows == 0
    ensures section == Items ==> rows == |items|
  {
    if section == BasicInfo then 3
    else if section == LabelAndDate then 2
    else if section == MoreOptions then 3
    else if section == Items then |items|
    else if section == AddNewItemSection then 1
    else 0
  }

  /** The row counts the toolbar's searches read from the demo table. */
  function TableCounts(items: seq<string>): (counts: seq<nat>)
    ensures |counts| == NumberOfSections
    ensures forall s :: RowCount(counts, s) == NumberOfRowsInSection(items, s)
  {
    [3, 2, 3, |items|, 1]
  }

  /** Whether `cellForRowAtIndexPath` registers the cell's text field with
      the toolbar: rows 0 and 1 of the first and third sections, every row
      of the second section and of the items section. */
  predicate RegistersField(p: RowId): (registers: bool)
    ensures registers ==> BasicInfo <= p.section <= Items
    ensures registers && (p.section == BasicInfo || p.section == MoreOptions) ==> 0 <= p.row < 2
  {
    if p.section == BasicInfo then p.row == 0 || p.row == 1
    else if p.section == LabelAndDate then true
    else if p.section == MoreOptions then p.row == 0 || p.row == 1
    else p.section == Items
  }

  /** The rows of the demo table that hold a text field. */
  function FieldRows(itemCount: nat): set<RowId> {
    {RowId(BasicInfo, 0), RowId(BasicInfo, 1), RowId(LabelAndDate, 0), RowId(LabelAndDate, 1),
     RowId(MoreOptions, 0), RowId(MoreOptions, 1)}
    + set j | 0 <= j < itemCount :: RowId(Items, j)
  }

  /** Of the table's rows, exactly the field rows register a text field:
      the options rows (0,2) and (2,2) and the add-item row never do. */
  lemma RegisteredRowsOfTable(items: seq<string>, p: RowId)
    requires InTable(TableCounts(items), p)
    ensures RegistersField(p) <==> p in FieldRows(|items|)
  {
  }

  /** `canEditRowAtIndexPath`. */
  function CanEditRow(p: RowId): (editable: bool)
    ensures editable <==> p.section == Items || p.section == AddNewItemSection || p.section >= NumberOfSections
  {
    p.section >= Items
  }

  datatype EditingStyle = NoEditing | Delete | Insert

  /** `editingStyleForRowAtIndexPath`. */
  function EditingStyleForRow(p: RowId): (style: EditingStyle)
    ensures style != NoEditing ==> CanEditRow(p)
    ensures style == NoEditing <==> p.section < Items || p.section >= NumberOfSections
  {
    if p.section == Items then Delete
    else if p.section == AddNewItemSection then Insert
    else NoEditing
  }

  /** A row with an editing style is editable, and every editable row of
      the table has one: Delete for items, Insert for the add-item row. */
  lemma EditingRules(items: seq<string>, p: RowId)
    ensures EditingStyleForRow(p) != NoEditing ==> CanEditRow(p)
    ensures InTable(TableCounts(items), p) ==> (CanEditRow(p) <==> EditingStyleForRow(p) != NoEditing)
    ensures EditingStyleForRow(p) == Delete <==> p.section == Items
    ensures EditingStyleForRow(p) == Insert <==> p.section == AddNewItemSection
  {
  }

  /** A text field's current text; UIKit reports an empty string for a field
      whose text was never set. */
  function TextOf(texts: map<FieldId, string>, field: FieldId): string {
    if field in texts then texts[field] else ""
  }

  predicate AllFieldsFilled(fields: Registry, texts: map<FieldId, string>) {
    forall p :: p in fields ==> TextOf(texts, fields[p]) != ""
  }

  /** The loop of `textFieldShouldReturn` that looks for an empty field;
      it visits every registered field, in an unspecified order. */
  method HasIncompleteData(fields: Registry, texts: map<FieldId, string>) returns (incomplete: bool)
    ensures incomplete <==> !AllFieldsFilled(fields, texts)
  {
    incomplete := false;
    var unvisited := fields.Keys;
    while unvisited != {}
      invariant unvisited <= fields.Keys
      invariant incomplete <==> exists p :: p in fields.Keys - unvisited && TextOf(texts, fields[p]) == ""
      decreases unvisited
    {
      var p :| p in unvisited;
      if TextOf(texts, fields[p]) == "" {
        incomplete := true;
      }
      unvisited := unvisited - {p};
    }
  }

  /** In the demo form with every field row registered, Next passes over the
      options row (0,2) and Previous comes back over it; Next from the last
      item, or from (2,1) when there are no items, stops because the
      add-item section is the final one. */
  lemma DemoTraversal(reg: Registry, items: seq<string>)
    requires reg.Keys == FieldRows(|items|)
    ensures FindNext(reg, TableCounts(items), RowId(0, 1)).activated == Some(RowId(1, 0))
    ensures FindPrevious(reg, TableCounts(items), RowId(1, 0)).activated == Some(RowId(0, 1))
    ensures FindNext(reg, TableCounts(items), RowId(2, 1)).activated
            == if |items| > 0 then Some(RowId(3, 0)) else None
    ensures |items| > 0 ==> FindPrevious(reg, TableCounts(items), RowId(3, 0)).activated == Some(RowId(2, 1))
    ensures |items| > 0 ==> FindNext(reg, TableCounts(items), RowId(3, |items| - 1)).activated == None
  {
  }

  class DemoTableViewController {
    /** The user-added items, one row each in the items section. */
    var items: seq<string>
    /** The text entered in each row, saved when a field returns. */
    var textFieldData: map<RowId, string>
    /** `saveButton.enabled`. */
    var saveEnabled: bool
    /** The toolbar attached to every text field of the form. */
    const toolbar: DataEntryToolbar

    constructor (toolbar: DataEntryToolbar, saveEnabled: bool)
      ensures this.toolbar == toolbar && this.saveEnabled == saveEnabled
      ensures items == [] && textFieldData == map[]
    {
      this.toolbar := toolbar;
      this.saveEnabled := saveEnabled;
      items := [];
      textFieldData := map[];
    }

    /** `addNewItem`: append an empty item and return the new count. */
    method AddNewItem() returns (count: nat)
      modifies this
      ensures items == old(items) + [""]
      ensures count == |old(items)| + 1 == |items|
      ensures textFieldData == old(textFieldData) && saveEnabled == old(saveEnabled)
    {
      items := items + [""];
      count := |items|;
    }

    /** `deleteItem`: remove the item of the row and forget the text saved
        for that index path only; no other index path is re-keyed.  Removing
        an index outside `items` traps, so the caller must not ask for it. */
    method DeleteItem(p: RowId)
      requires 0 <= p.row < |items|
      modifies this
      ensures items == old(items)[..p.row] + old(items)[p.row + 1..]
      ensures textFieldData == old(textFieldData) - {p}
      ensures saveEnabled == old(saveEnabled)
    {
      items := items[..p.row] + items[p.row + 1..];
      textFieldData := textFieldData - {p};
    }

    /** `clearTextFieldData`: disable save, forget all text and all items.
        The toolbar's registry is left as it is. */
    method ClearTextFieldData()
      modifies this
      ensures !saveEnabled && textFieldData == map[] && items == []
      ensures unchanged(toolbar)
    {
      saveEnabled := false;
      textFieldData := map[];
      items := [];
    }

    /** The registration part of `cellForRowAtIndexPath` for a cell whose
        text field is `field`: field rows register it under `p` and get the
        saved text (nil when none was saved), other rows have no text field. */
    method CellForRowAt(p: RowId, field: FieldId) returns (text: Option<Option<string>>)
      modifies toolbar
      ensures toolbar.tableTextFields
              == if RegistersField(p) then old(toolbar.tableTextFields)[p := field] else old(toolbar.tableTextFields)
      ensures toolbar.firstResponder == old(toolbar.firstResponder)
      ensures toolbar.toolbarTraversalDirection == old(toolbar.toolbarTraversalDirection)
      ensures text.Some? <==> RegistersField(p)
      ensures text.Some? ==> text.value == if p in textFieldData then Some(textFieldData[p]) else None
    {
      if RegistersField(p) {
        toolbar.tableTextFields := toolbar.tableTextFields[p := field];
        text := Some(if p in textFieldData then Some(textFieldData[p]) else None);
      } else {
        text := None;
      }
    }

    /** `commitEditingStyle`: Delete removes an item only in the items
        section; Insert adds one only from the add-item section. */
    method CommitEditingStyle(style: EditingStyle, p: RowId)
      requires style == Delete && p.section == Items ==> 0 <= p.row < |items|
      modifies this
      ensures style == Delete && p.section == Items ==>
        items == old(items)[..p.row] + old(items)[p.row + 1..] && textFieldData == old(textFieldData) - {p}
      ensures style == Insert && p.section == AddNewItemSection ==>
        items == old(items) + [""] && textFieldData == old(textFieldData)
      ensures !(style == Delete && p.section == Items) && !(style == Insert && p.section == AddNewItemSection) ==>
        items == old(items) && textFieldData == old(textFieldData)
      ensures saveEnabled == old(saveEnabled)
    {
      if style == Delete {
        if p.section == Items {
          DeleteItem(p);
        }
      } else if style == Insert {
        if p.section == AddNewItemSection {
          var _ := AddNewItem();
        }
      }
    }

    /** `textFieldShouldReturn`: resign `field`, save its text under `at`
        (the index path of the row it sits in, when the table finds one),
        then enable save exactly when no registered field is empty.
        `texts` holds the fields' current texts. */
    method TextFieldShouldReturn(field: FieldId, at: Option<RowId>, texts: map<FieldId, string>) returns (handled: bool)
      modifies this, toolbar
      ensures handled
      ensures toolbar.firstResponder
              == if old(toolbar.firstResponder) == Some(field) then None else old(toolbar.firstResponder)
      ensures toolbar.tableTextFields == old(toolbar.tableTextFields)
      ensures toolbar.toolbarTraversalDirection == old(toolbar.toolbarTraversalDirection)
      ensures items == old(items)
      ensures textFieldData == match at
                               case Some(p) => old(textFieldData)[p := TextOf(texts, field)]
                               case None => old(textFieldData)
      ensures saveEnabled <==> AllFieldsFilled(toolbar.tableTextFields, texts)
    {
      if toolbar.firstResponder == Some(field) {
        toolbar.firstResponder := None;
      }
      if at.Some? {
        textFieldData := textFieldData[at.value := TextOf(texts, field)];
      }
      var incomplete := HasIncompleteData(toolbar.tableTextFields, texts);
      saveEnabled := !incomplete;
      handled := true;
    }
  }
}
