# DataEntryToolbar in Dafny

A model of the keyboard accessory toolbar from DataEntryToolbar and of the demo form that uses it.
The toolbar has Previous, Next and Done buttons and moves the focus between the text fields of a
sectioned table.

- `navigation.dfy`, module `Navigation`: index paths `RowId(section, row)`, lexicographic order
  (`Precedes`), the table's row counts (`seq<nat>`, one entry per section), and the toolbar's
  registry `tableTextFields : map<RowId, FieldId>`. The two recursive searches are pure functions.
  Each returns a `Search`: the row whose field it made first responder, and the index path it
  returned. The two can differ because the source drops the results of its recursive calls.
  The lemmas describe the rows each search inspects, prove which row it activates (the nearest
  registered row in that range), and prove the Previous/Next round trips.
- `toolbar.dfy`, module `Toolbar`: class `DataEntryToolbar` with fields `toolbarTraversalDirection`,
  `tableTextFields` and `firstResponder`. The last one stands for UIKit's first-responder state.
  The three button handlers are methods. `ScanForActive` is the handlers' loop over the
  registry. It visits entries in an arbitrary order and stops at the first active one.
- `demo.dfy`, module `Demo`: the demo form's five sections and row counts, which rows register a
  field, the editing rules, and class `DemoTableViewController` with `items`, `textFieldData` and
  `saveEnabled`. Its methods are the add, delete, clear, registration, commit and return
  operations.

Where the code differs from what the component is documented or described to do, the model
follows the code:

- `doneButtonTapped` fires the Next closures, never the Done ones.
- Next never crosses into the table's final section (see Findings).
- `clearTextFieldData` does not clear the toolbar's registry.
- `deleteItem` does not unregister the deleted row's field and does not re-key later rows.
- When several registry entries hold the active field, they all hold the same field, so the
  handlers resign that field whichever entry dictionary iteration meets first. Iteration order
  decides only which index path the search starts from. The model leaves that entry arbitrary:
  the handlers' contracts say the search starts from some entry that holds the active field.

## Model

| member | source | states |
|---|---|---|
| Navigation.FindPrevious | Source/DataEntryToolbar.swift:119-158 | the activated row is registered and strictly before the start; a returned path equals the activated row |
| Navigation.FindPreviousActivatesNearest | Source/DataEntryToolbar.swift:119-158 | Previous activates the greatest registered row among the rows above the start in its section and all rows of earlier sections (empty sections passed over); it activates nothing iff none of them is registered, e.g. from (0,0) |
| Navigation.FindPreviousReturnsOnlyProbe | Source/DataEntryToolbar.swift:122-157 | Previous returns a path iff the first row it looks up itself is registered, and then returns that row; deeper matches are activated but not returned |
| Navigation.PreviousProbe | Source/DataEntryToolbar.swift:122-144 | the first row Previous looks up is one of the rows it inspects |
| Navigation.FindNext | Source/DataEntryToolbar.swift:169-210 | the activated row is registered and strictly after the start; a returned path equals the activated row |
| Navigation.FindNextActivatesNearest | Source/DataEntryToolbar.swift:169-210 | Next activates the least registered row among the rows below the start in its section and the rows of later sections with index below sectionCount - 1 |
| Navigation.FindNextAvoidsFinalSection | Source/DataEntryToolbar.swift:186-190 | started outside the final section, Next never activates a field in the final section |
| Navigation.FindNextReturnsOnlyProbe | Source/DataEntryToolbar.swift:172-209 | Next returns a path iff the first row it looks up itself is registered, and then returns that row |
| Navigation.NextProbe | Source/DataEntryToolbar.swift:173-195 | the first row Next looks up is one of the rows it inspects |
| Navigation.PreviousThenNext | Source/DataEntryToolbar.swift:119-210 | from a registered table row, Previous then Next comes back to it, unless the row is in the final section and Previous left that section |
| Navigation.NextThenPrevious | Source/DataEntryToolbar.swift:119-210 | from a registered table row, Next then Previous comes back to it |
| Navigation.PreviousValidIndexPath | Source/DataEntryToolbar.swift:110-158 | corrected Previous, which returns what it finds: a registered row strictly before the start |
| Navigation.PreviousValidIndexPathIsNearest | Source/DataEntryToolbar.swift:110-158 | the corrected Previous returns exactly the row the original activates, the greatest registered inspected row |
| Navigation.NextValidIndexPath | Source/DataEntryToolbar.swift:160-210 | corrected Next, which returns what it finds: a registered row strictly after the start |
| Navigation.NextValidIndexPathIsNearest | Source/DataEntryToolbar.swift:160-210 | the corrected Next returns the least registered row after the start, with the final section included |
| Navigation.ValidPreviousThenNext | Source/DataEntryToolbar.swift:110-210 | with the corrected searches, Previous then Next comes back to every registered table row |
| Navigation.ValidNextThenPrevious | Source/DataEntryToolbar.swift:110-210 | with the corrected searches, Next then Previous comes back to every registered table row |
| Navigation.NextSkipsFinalSection | Source/DataEntryToolbar.swift:186-190 | sections of 3 and 2 rows with fields at (0,0), (0,2), (1,1): Next from (0,2) activates nothing, and the corrected Next finds (1,1) |
| Navigation.PreviousDropsDeeperMatch | Source/DataEntryToolbar.swift:126-131 | with a field at (0,0) only, Previous from (0,2) activates (0,0) but returns nil |
| Toolbar.ScanForActive | Source/DataEntryToolbar.swift:219-230 | finds a registered row whose field is first responder, or reports that no registered field is |
| Toolbar.DataEntryToolbar.constructor | Source/DataEntryToolbar.swift:66-69 | a new toolbar has no direction, an empty registry and no focused field |
| Toolbar.DataEntryToolbar.PreviousButtonTapped | Source/DataEntryToolbar.swift:213-238 | sets direction Previous and leaves the registry unchanged; with an active field, resigns it, focuses the field FindPrevious activates from its row (or none) and fires the from-text-field closure with it; otherwise changes no focus and fires the plain closure |
| Toolbar.DataEntryToolbar.NextButtonTapped | Source/DataEntryToolbar.swift:241-266 | the same with direction Next, FindNext and the Next closures |
| Toolbar.DataEntryToolbar.DoneButtonTapped | Source/DataEntryToolbar.swift:269-292 | sets direction Done, resigns the active field without focusing another, leaves no registered field active, and fires the Next closures |
| Demo.NumberOfRowsInSection | Example/DataEntryToolbar/Controllers/JDDemoTableViewController.swift:169-178 | a section outside 0..4 has no rows, and the items section has one row per item; the full switch is checked against the table by `Demo.TableCounts` |
| Demo.TableCounts | Example/DataEntryToolbar/Controllers/JDDemoTableViewController.swift:165-178 | the table has 5 sections (`numberOfSectionsInTableView`), and its row counts agree with numberOfRowsInSection everywhere: 3, 2, 3, items.count, 1, and 0 elsewhere |
| Demo.RegistersField | Example/DataEntryToolbar/Controllers/JDDemoTableViewController.swift:185-261 | only rows of the first four sections register a field, and in the first and third sections only rows 0 and 1; the exact set of rows is checked by `Demo.RegisteredRowsOfTable` |
| Demo.RegisteredRowsOfTable | Example/DataEntryToolbar/Controllers/JDDemoTableViewController.swift:180-262 | a table row registers a field iff it is (0,0), (0,1), (1,0), (1,1), (2,0), (2,1) or an item row |
| Demo.CanEditRow | Example/DataEntryToolbar/Controllers/JDDemoTableViewController.swift:265-268 | a row is editable iff it is in the items section, the add-item section or a section past the table; `Demo.EditingRules` relates it to the editing style |
| Demo.EditingStyleForRow | Example/DataEntryToolbar/Controllers/JDDemoTableViewController.swift:270-279 | a row with Delete or Insert style is editable, and a row has no style iff it is in the first three sections or past the table; `Demo.EditingRules` pins which style each section gets |
| Demo.EditingRules | Example/DataEntryToolbar/Controllers/JDDemoTableViewController.swift:265-279 | a row with an editing style is editable; within the table, editable iff it has a style; Delete iff items section, Insert iff add-item section |
| Demo.HasIncompleteData | Example/DataEntryToolbar/Controllers/JDDemoTableViewController.swift:335-345 | reports incomplete data iff some registered field's text is empty |
| Demo.DemoTraversal | Source/DataEntryToolbar.swift:119-210 | in the demo form, Next from (0,1) skips the options row to (1,0) and Previous comes back; (2,1) moves to the first item; Next from the last item, or from (2,1) with no items, stops |
| Demo.DemoTableViewController.constructor | Example/DataEntryToolbar/Controllers/JDDemoTableViewController.swift:30-33 | a new form has no items and no saved text |
| Demo.DemoTableViewController.AddNewItem | Example/DataEntryToolbar/Controllers/JDDemoTableViewController.swift:109-116 | appends "" to items and returns the old count plus 1; saved text and save state unchanged |
| Demo.DemoTableViewController.DeleteItem | Example/DataEntryToolbar/Controllers/JDDemoTableViewController.swift:119-124 | removes items[row] and the saved text of that index path only; other keys are kept, not re-keyed |
| Demo.DemoTableViewController.ClearTextFieldData | Example/DataEntryToolbar/Controllers/JDDemoTableViewController.swift:127-141 | saved text and items become empty and save is disabled; the toolbar's registry is untouched |
| Demo.DemoTableViewController.CellForRowAt | Example/DataEntryToolbar/Controllers/JDDemoTableViewController.swift:180-262 | registers the cell's field under its index path exactly for field rows and gives it the saved text; other rows change nothing |
| Demo.DemoTableViewController.CommitEditingStyle | Example/DataEntryToolbar/Controllers/JDDemoTableViewController.swift:281-300 | Delete changes data only in the items section, Insert adds an item only from the add-item section, anything else changes nothing |
| Demo.DemoTableViewController.TextFieldShouldReturn | Example/DataEntryToolbar/Controllers/JDDemoTableViewController.swift:324-354 | resigns the field, saves its text under its index path, and afterwards save is enabled iff no registered field is empty; returns true |

## Left out

- The toolbar's appearance and button set-up (`setup`) and its initializers. These are UIKit
  calls. The model assumes the table view is attached. `init(coder:)` leaves the table view nil,
  and this model does not cover that case. There Previous still walks up its own section and
  stops at row 0 (`Source/DataEntryToolbar.swift:122-131`, `139`), while Next looks up no row
  at all and activates nothing (`Source/DataEntryToolbar.swift:172`).
- UIKit's own `numberOfRowsInSection` for a section index outside the table. The model gives
  such a section zero rows.
- Cell dequeueing and reuse, `reloadData`, `scrollToRowAtIndexPath`, `deleteRowsAtIndexPaths`,
  header heights, `didSelectRowAtIndexPath` and `viewDidLoad`. These are view-layer calls.
  Because `reloadData` is left out, adding an item registers nothing until `CellForRowAt` runs
  for the new row.
- The date picker, `updateDate` and date formatting. These are library calls.
- Finding a text field's index path from its on-screen position. `TextFieldShouldReturn` takes
  the result as its `at` parameter.
- The fields' current texts. These are UI state, so `TextFieldShouldReturn` takes them as a map.
  A field missing from the map reads as "".
- The segmented-control reads (`optionAChanged`, `optionBChanged`, and the option values set in
  `cellForRowAtIndexPath`). These are UI reads.
- `save` and `trash` only call `clearTextFieldData` (and print). The demo's three toolbar
  delegate methods only call `textFieldShouldReturn`. Neither is modelled separately.
- Whether a closure is set. A tap reports which closure it fires; firing an unset closure does
  nothing.
- `JDCustomTextFieldCell.swift`. Its `prepareForReuse` only resets UIKit properties.
- Dictionary iteration order. Both scans over the registry pick their next entry arbitrarily.
- Toolbar.DataEntryToolbar.PreviousButtonTapped: assumes `becomeFirstResponder` always succeeds.
  In UIKit a field that is not in a window refuses, for example the field of an off-screen or
  reused cell still in the registry; the tap then leaves no field focused, which the model does
  not capture.
- Toolbar.DataEntryToolbar.NextButtonTapped: assumes `becomeFirstResponder` always succeeds, for
  the same reason as `PreviousButtonTapped`.
- Demo.DemoTableViewController.DeleteItem: `items.removeAtIndex` traps on a row outside `items`
  (Example/DataEntryToolbar/Controllers/JDDemoTableViewController.swift:122). The model does not model the trap; its precondition excludes that row.
- Demo.DemoTableViewController.CommitEditingStyle: a Delete in the items section on a row
  outside `items` reaches the same trap; the precondition excludes it.

## Findings

| source | as written | input that shows it | evidently intended | confidence | as-written member | corrected member |
|---|---|---|---|---|---|---|
| Source/DataEntryToolbar.swift:190 | moves to section s+1 only when `s + 1 < numberOfSections - 1` | sections of 3 and 2 rows, fields at (0,0), (0,2), (1,1): Next from (0,2) activates nothing | `s + 1 < numberOfSections`, so the final section is reachable | high, not executed | Navigation.NextSkipsFinalSection | Navigation.NextValidIndexPathIsNearest |
| Source/DataEntryToolbar.swift:130 | the recursive call's result is dropped and the function returns nil | one section of 3 rows, a field at (0,0): Previous from (0,2) activates (0,0) and returns nil | return the recursive result (also lines 148, 151, 181, 199, 202), as the documentation comment says | high, not executed | Navigation.PreviousDropsDeeperMatch | Navigation.PreviousValidIndexPathIsNearest |

The toolbar's handlers discard the searches' return values. The second finding therefore changes
nothing they do. The handlers keep the search as written (`FindNext`), because they model the
code as shipped. In the demo form the first finding is not observable either. Its final section
is the add-item row, which registers no field.
