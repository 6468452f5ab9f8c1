# myAdmin Center main window, modelled in Dafny

`mainapplication_TN.py` is the main window of a small tool for managing Active
Directory user accounts. It has two pieces of decision logic, and this project
models and proves both:

- **The command catalog.** Three dict literals drive it:
  - `mainmenue`, the menus;
  - `menueoptions`, the actions;
  - `toolbarbuttons`, the toolbar buttons.

  From them, `initUI` builds the menu bar and the toolbar. An action goes into
  menu `m` when `id // 10 == m`. Id 0 adds a separator to every menu. Every menu
  entry and toolbar button calls `menue_clicked`, which `match`es the id
  against nine handlers.
- **The user table.** This is the `aduser` table behind the session
  (`db_handler`).
  - `menue_csv_import` derives each row's user name and e-mail address. It
    parses the two integer codes. Then it either updates the record that has
    that user name or inserts a new one.
  - The whole loop sits in one `try`, so the first row that raises ends the
    import. Rows written before it stay written.
  - `delete_ad_user` removes the selected record.
  - `deactivate_ad_user` sets the selected record's status to 2.
  - Login sets the session and logout clears it. The import and the transfer
    refuse to run without a session.

Files:

- `common.dfy`: `Option` and `Result`.
- `text.dfy` (module `Text`): `str.lower()` on ASCII, and `int()` in base 10.
  - `int()` skips surrounding ASCII white space: tab, line feed, vertical tab,
    form feed, carriage return and space. The separators 28-31, which
    `str.isspace()` counts as white space, make it raise.
  - More than 4300 digits (underscores not counted) make it raise: the default
    of `sys.set_int_max_str_digits`.
  - It accepts an optional sign.
  - Digits may have single underscores between them.
- `catalog.dfy` (module `Catalog`):
  - the dict literals, with Python's semantics for a repeated key: the first
    position is kept and the last value wins;
  - the menu and toolbar construction loops, and the functions that specify
    them;
  - the dispatch table.
- `directory.dfy` (module `Directory`):
  - records and row parsing;
  - the update-or-insert step and the import loop, specified by `ImportAll`;
  - delete and deactivate;
  - the `UserTable` class, whose methods mutate the table in place.
- `window.dfy` (module `Window`):
  - the window state between clicks, with `db_handler` as a three-valued
    `Session`: never assigned, `None`, or connected;
  - `Step`, the effect of each handler;
  - the `MainWindow` class, whose `MenueClicked` is proved to follow `Step`.

Some behaviours of the code are easy to overlook, and the model keeps them as
written:

- **A bad row aborts the import.** The whole loop sits in one `try`, so the
  import ends at the first row that raises, and the rows already written stay
  written (mainapplication_TN.py:321-373).
- **An unknown id does nothing.** An id with no `case` in `menue_clicked`, such
  as 19 "Beenden" or 0, falls through the `match` and does nothing at all
  (mainapplication_TN.py:249-258).
- **A repeated key is collapsed.** The toolbar literal repeats key 0, and Python
  keeps one entry for it, at its first position. So the toolbar has exactly one
  separator, after "Transfer nach AD" (mainapplication_TN.py:31-35).
- **No import summary.** The import shows one message box, success or the
  error, and counts nothing; the model's outcome is `Completed` or
  `Aborted(row, error)` (mainapplication_TN.py:366-373).
- **Delete and deactivate have no session check of their own.** They ask for
  confirmation first; without a session the store call then raises inside
  their `try`, so the table is not changed (mainapplication_TN.py:153-215).

## Model

| member | source | states |
|---|---|---|
| `Text.Lower` | mainapplication_TN.py:330-331 | `lower()` keeps the length and lowers each character, position by position |
| `Text.LowerIdempotent` | mainapplication_TN.py:330-331 | lowering twice is lowering once, and a lowered string holds no capital letter |
| `Text.LowerTo` | mainapplication_TN.py:330-331 | a string is the lowering of another when it is so character by character |
| `Text.LowerAppend` | mainapplication_TN.py:330-331 | lowering distributes over concatenation, as `(firstname[0] + lastname).lower()` relies on |
| `Text.TrimStart` | mainapplication_TN.py:332-333 | the result is a suffix of the input that does not start with white space, and everything dropped was white space |
| `Text.TrimEnd` | mainapplication_TN.py:332-333 | the result is a prefix of the input that does not end with white space, and everything dropped was white space |
| `Text.NatToDecimal` | mainapplication_TN.py:332-333 | `str(n)` for a natural number is a nonempty run of decimal digits |
| `Text.DigitsValueOfDecimal` | mainapplication_TN.py:332-333 | the digit string of `n` has value `n` |
| `Text.ParseIntOfDecimal` | mainapplication_TN.py:332-333 | `int(str(n)) == n` for every integer, negative ones included, whose decimal form is within the 4300-digit limit (beyond it `str(n)` raises too) |
| `Text.DigitCount` | mainapplication_TN.py:332-333 | the digits `int()` counts against its limit: never more than the string's length, underscores excluded |
| `Text.ParseIntRejectsTooManyDigits` | mainapplication_TN.py:332-333 | a cell with more than 4300 digits raises the `ValueError`, whatever else it holds |
| `Text.ParseIntIgnoresPadding` | mainapplication_TN.py:332-333 | white space around a cell does not change what `int()` reads from it |
| `Text.ParseIntRejectsBlank` | mainapplication_TN.py:332-333 | an empty or blank cell raises the `ValueError` |
| `Text.ParseIntRejectsLetter` | mainapplication_TN.py:332-333 | a cell containing an ASCII letter, small or capital, raises the `ValueError` |
| `Text.Strip` | mainapplication_TN.py:332-333 | the white space `int()` skips is removed from both ends; `TrimStart`, `TrimEnd` and `ParseIntIgnoresPadding` state what is kept |
| `Text.ParseInt` | mainapplication_TN.py:332-333 | `int()` of a cell: an optional sign and well-formed digits, at most 4300 of them, after stripping, else the `ValueError`; `ParseIntOfDecimal`, `ParseIntRejectsBlank`, `ParseIntRejectsLetter` and `ParseIntRejectsTooManyDigits` state its properties |
| `Catalog.DictSet` | mainapplication_TN.py:31-35 | storing a key in a dict literal keeps the keys distinct and adds exactly that key |
| `Catalog.DictSetOverwrites` | mainapplication_TN.py:31-35 | storing a key already present overwrites its pair in the key's first position and nowhere else |
| `Catalog.DictSetAppends` | mainapplication_TN.py:31-35 | storing a new key appends its pair at the end |
| `Catalog.StoreAll` | mainapplication_TN.py:31-35 | evaluating a literal's pairs into a dict gives distinct keys, exactly the keys written |
| `Catalog.DictFromLiteral` | mainapplication_TN.py:23-35 | a dict literal has distinct keys, exactly those written |
| `Catalog.GetAfterSet` | mainapplication_TN.py:31-35 | after storing `k`, looking up `k` gives the new value and every other key is unaffected |
| `Catalog.StoreAllGet` | mainapplication_TN.py:31-35 | a key's value after evaluating pairs is the last value written for it, or its earlier value |
| `Catalog.DictFromLiteralGet` | mainapplication_TN.py:31-35 | a dict literal maps each key to the LAST value written for it |
| `Catalog.StoreAllDistinct` | mainapplication_TN.py:23-27 | pairs with distinct keys are stored in order, unchanged |
| `Catalog.DictFromDistinctLiteral` | mainapplication_TN.py:23-27 | a literal without a repeated key evaluates to its own pairs in written order |
| `Catalog.StoreAllAppend` | mainapplication_TN.py:31-35 | evaluating a literal in two parts gives the same dict as evaluating it in one |
| `Catalog.MainMenus` | mainapplication_TN.py:19 | `mainmenue` as Python evaluates it; `MainMenusAsWritten` states its value |
| `Catalog.MenuOptions` | mainapplication_TN.py:23-27 | `menueoptions` as Python evaluates it; `MenuOptionsAsWritten` states its value |
| `Catalog.ToolbarButtons` | mainapplication_TN.py:31-35 | `toolbarbuttons` as Python evaluates it; `ToolbarButtonsAsEvaluated` states its value |
| `Catalog.EntriesFor` | mainapplication_TN.py:52-61 | what one option adds to menu `m`: a separator for id 0, an action when `id // 10 == m`, nothing otherwise; `MenuMembership` and `MenuSeparators` state the effect over all options |
| `Catalog.MenuEntries` | mainapplication_TN.py:51-61 | the items of menu `m`, option by option in dict order; `BuildMenuBar` is proved to produce it, `MenuMembership` characterises it |
| `Catalog.MenuEntriesAppend` | mainapplication_TN.py:51-61 | a menu's entries from two runs of options are the entries of each run, in order |
| `Catalog.BuildMenuBar` | mainapplication_TN.py:48-61 | the nested loops of `initUI` build one menu per main-menu entry, in order, with that menu's title and exactly the entries `MenuEntries` gives |
| `Catalog.ButtonFor` | mainapplication_TN.py:68-85 | what one toolbar entry adds: a separator for id 0, otherwise a button with the id and caption |
| `Catalog.ToolbarEntries` | mainapplication_TN.py:67-85 | the toolbar items, one per entry in dict order; `BuildToolbar` is proved to produce it, `Toolbar` states its value |
| `Catalog.BuildToolbar` | mainapplication_TN.py:65-85 | the toolbar loop adds one item per dict entry, in dict order: a separator for id 0, otherwise a button carrying the id and caption |
| `Catalog.MenuMembership` | mainapplication_TN.py:51-61 | a nonzero action is in menu `m` if and only if it is in the options and `id // 10 == m` |
| `Catalog.CountSeparatorsAppend` | mainapplication_TN.py:52-53 | separators of two runs of entries add up |
| `Catalog.MenuSeparators` | mainapplication_TN.py:52-53 | every menu holds as many separators as the options hold entries with id 0 |
| `Catalog.CountKeyInDict` | mainapplication_TN.py:23-35 | in a dict, a key occurs once or not at all |
| `Catalog.OneSeparatorIn` | mainapplication_TN.py:51-61 | options holding key 0 give every menu exactly one separator |
| `Catalog.OneSeparatorPerMenu` | mainapplication_TN.py:23-27 | every menu built from `menueoptions`, whatever its id, holds exactly one separator |
| `Catalog.MenuOptionsDistinct` | mainapplication_TN.py:23-27 | `menueoptions` repeats no key; its fifth pair is the separator |
| `Catalog.MenuOptionsByGroup` | mainapplication_TN.py:23-27 | `menueoptions` is the File options (ids below 20), then the Active Directory options (20s), then the Help options (40s), each group with distinct keys |
| `Catalog.DistinctAppend` | mainapplication_TN.py:23-27 | two dicts whose keys lie on either side of a bound join into one without a repeated key |
| `Catalog.MenuOptionsAsWritten` | mainapplication_TN.py:23-27 | `menueoptions` evaluates to its literal, all eleven entries in written order |
| `Catalog.MainMenusAsWritten` | mainapplication_TN.py:19 | `mainmenue` evaluates to menus 1, 2 and 4 in written order |
| `Catalog.ToolbarLiteralSplit` | mainapplication_TN.py:31-35 | the toolbar literal is seven pairs with distinct keys (a separator at position 3), then a repeated key 0, then 42 |
| `Catalog.StoreRepeatThenNew` | mainapplication_TN.py:31-35 | storing a pair already present and then a pair with a new key only appends the new pair |
| `Catalog.ToolbarCollapse` | mainapplication_TN.py:31-35 | the repeated key 0 collapses into its first position, so the evaluated toolbar has eight entries |
| `Catalog.ToolbarButtonsAsEvaluated` | mainapplication_TN.py:31-35 | `toolbarbuttons` as Python evaluates it: 13, 11, 12, 0, 21, 22, 23, 42 |
| `Catalog.MenuOfGroups` | mainapplication_TN.py:51-61 | each menu takes its entries from the File, Active Directory and Help options in turn |
| `Catalog.FileMenuOfGroups` | mainapplication_TN.py:48-61 | the File menu is 11, 12, 13, 14, separator, 19 |
| `Catalog.ActiveDirectoryMenuOfGroups` | mainapplication_TN.py:48-61 | the Active Directory menu is separator, 21, 22, 23: the File group's separator comes first |
| `Catalog.HelpMenuOfGroups` | mainapplication_TN.py:48-61 | the Help menu is separator, 41, 42 |
| `Catalog.Menus` | mainapplication_TN.py:23-27 | the three menus built from the evaluated `menueoptions`: File with one separator before "Beenden", Active Directory and Help each starting with one |
| `Catalog.ToolbarOf` | mainapplication_TN.py:65-85 | the items the toolbar loop makes from the collapsed dict |
| `Catalog.Toolbar` | mainapplication_TN.py:31-35 | the toolbar is seven buttons with exactly one separator, after "Transfer nach AD" |
| `Catalog.Dispatch` | mainapplication_TN.py:249-258 | the `match` of `menue_clicked`: the handler for each of the nine `case` ids, `NoOp` for any other; `DispatchIsBijective` states it |
| `Catalog.DispatchIsBijective` | mainapplication_TN.py:249-258 | exactly the nine ids 11, 12, 13, 14, 21, 22, 23, 41, 42 reach a handler, each a different one, and every handler is reached by its own id |
| `Catalog.CatalogDispatch` | mainapplication_TN.py:245-258 | every toolbar button and every menu item reaches a handler, except File's "Beenden" (19), which does nothing |
| `Directory.Username` | mainapplication_TN.py:330 | `(firstname[0] + lastname).lower()`; `UsernameShape` and `DerivationIgnoresCase` state its properties |
| `Directory.Email` | mainapplication_TN.py:331 | the lowered first and last names joined by a dot, then the mail domain; `DerivationIgnoresCase` and `AnnaMusterEmail` state its properties |
| `Directory.UsernameShape` | mainapplication_TN.py:330 | the user name is the lowered initial followed by the lowered last name, with no capital letter |
| `Directory.DerivationIgnoresCase` | mainapplication_TN.py:330-331 | names that differ only in ASCII case give the same user name and e-mail address |
| `Directory.AnnaMusterUsername` | mainapplication_TN.py:330 | "Anna"/"Muster" gives "amuster" |
| `Directory.AnnaMusterUsernameUpper` | mainapplication_TN.py:330 | "ANNA"/"MUSTER" gives "amuster" too |
| `Directory.AnnaMusterEmail` | mainapplication_TN.py:331 | "Anna"/"Muster" gives "anna.muster@M-zukunftsmotor.local" |
| `Directory.IntColumn` | mainapplication_TN.py:332-333 | `int(row[name])` succeeds exactly when the column is there and its cell is an integer, with that value; otherwise the `KeyError` or the `ValueError` |
| `Directory.ParseRest` | mainapplication_TN.py:332-349 | after the names, the row reads without raising exactly when the other eight columns are there and both codes are integers; the user name, e-mail address and codes are those derived and parsed |
| `Directory.ParseRow` | mainapplication_TN.py:326-365 | a row is read without raising exactly when it has all ten columns, a nonempty first name and integer `kurs` and `status_id_fk`; its values are the derived user name and e-mail address and the two parsed codes; a missing first name or an empty one is the error reported |
| `Directory.ParseRowValues` | mainapplication_TN.py:326-365 | for a well-formed row, the values written are its cells as they are (the department from column `abteilung`), the derived user name and e-mail address, and the parsed `status_id_fk` and `kurs` |
| `Directory.UpdateWhere` | mainapplication_TN.py:339-352 | the UPDATE: every record with the row's user name gets the row's values in the SET list; `UpsertUpdates` states its effect |
| `Directory.Upsert` | mainapplication_TN.py:336-365 | the lookup, then the UPDATE on a known user name or the INSERT under the next key; `UpsertEffect` states its effect |
| `Directory.UpsertEffect` | mainapplication_TN.py:336-365 | one row's write keeps the table valid and adds at most one record. A record with the row's user name then holds the row's values, and every other record is unchanged. On a known name: no key added, `id_pk` and user names kept. On a new name: exactly one record is added under the next key |
| `Directory.UpsertUpdates` | mainapplication_TN.py:339-352 | on a user name already present, the write adds no key, keeps every `id_pk` and user name, and puts the row's values into that record |
| `Directory.UpsertInserts` | mainapplication_TN.py:353-365 | on a new user name, the write adds exactly one record, under the next key, and keeps every other record |
| `Directory.Apply` | mainapplication_TN.py:326-373 | the loop over rows already read: each is written on top of the earlier ones until the first that raised; `ApplyOutcome`, `ApplyKeepsValid` and `ApplyFrame` state its properties |
| `Directory.ImportAll` | mainapplication_TN.py:322-373 | the import of a file: every row read, then the loop; `ImportOutcome`, `ImportKeepsValid`, `ImportFrame` and `ReplayIsIdempotent` state its properties |
| `Directory.ApplyKeepsValid` | mainapplication_TN.py:322-365 | the write loop keeps the table valid, adds at most one record per row, never removes a key and never lowers the next key |
| `Directory.ImportKeepsValid` | mainapplication_TN.py:322-365 | the import keeps `username` unique and every record under its own key, grows the table by at most one record per row, and deletes nothing |
| `Directory.ApplyOutcome` | mainapplication_TN.py:322-373 | the loop completes if and only if every row reads without error; when it stops, the reported row is the first that failed and the table is what the rows before it left |
| `Directory.ImportOutcome` | mainapplication_TN.py:322-373 | the import completes if and only if every row is well formed. When it aborts at row k, row k is the first bad row and raised the reported error, rows before it stay applied, and no later row is read |
| `Directory.ApplyStep` | mainapplication_TN.py:326-365 | each pass of the loop either writes the row on top of the earlier rows' effect or ends the loop at that row |
| `Directory.AbortedStays` | mainapplication_TN.py:371-373 | once a row has raised, rows after it change nothing |
| `Directory.ApplyFrame` | mainapplication_TN.py:339-365 | a record whose user name no row carries comes through the loop unchanged |
| `Directory.ImportFrame` | mainapplication_TN.py:339-365 | a record whose user name no imported row derives is left exactly as it was |
| `Directory.OverlayKeepsUsernames` | mainapplication_TN.py:341-345 | overwriting records with rows' values never changes a user name, since `username` is not in the SET list |
| `Directory.UpdateOnlyApply` | mainapplication_TN.py:339-352 | when every row's user name is already present, the import inserts nothing and leaves each record with the values of the last row naming it |
| `Directory.UpsertAddsUsername` | mainapplication_TN.py:336-365 | after a write, the user names in the table are the earlier ones plus the row's |
| `Directory.UpsertSettles` | mainapplication_TN.py:336-365 | one more write keeps every record holding the values of the last row naming it |
| `Directory.ApplySettles` | mainapplication_TN.py:322-365 | after a completed loop, every row's user name is in the table and each record holds the last values written for it |
| `Directory.ReplayCompleted` | mainapplication_TN.py:322-365 | re-running a completed import on its own result changes nothing |
| `Directory.ReplayAborted` | mainapplication_TN.py:322-373 | re-running an aborted import on its own result changes nothing and aborts at the same row with the same error |
| `Directory.ReplayIsIdempotent` | mainapplication_TN.py:322-373 | importing the same file right after importing it leaves the table and the outcome as they were, so nothing is inserted twice |
| `Directory.Deleted` | mainapplication_TN.py:175-176 | the table after `DELETE ... WHERE id_pk = id`; `DeleteEffect` states its effect |
| `Directory.Deactivated` | mainapplication_TN.py:207-208 | the table after the status UPDATE for one `id_pk`; `DeactivateEffect` states its effect |
| `Directory.DeleteEffect` | mainapplication_TN.py:175-176 | delete removes only the record with the given `id_pk`, keeps the table valid, and leaves every other record as it was |
| `Directory.DeactivateEffect` | mainapplication_TN.py:207-208 | deactivate sets only that record's status to 2, and every other field and record is unchanged; doing it twice is doing it once |
| `Directory.UserTable.HasUsername` | mainapplication_TN.py:336-339 | the lookup finds a row exactly when some record has that user name |
| `Directory.UserTable.Insert` | mainapplication_TN.py:353-365 | the INSERT adds the row's record under the next key and advances the key |
| `Directory.UserTable.UpdateByUsername` | mainapplication_TN.py:339-352 | the UPDATE overwrites the mutable fields of the records with that user name |
| `Directory.UserTable.Store` | mainapplication_TN.py:336-365 | one row's lookup and UPDATE or INSERT leaves the table as `Upsert` specifies, still valid |
| `Directory.UserTable.DeleteById` | mainapplication_TN.py:175-176 | the DELETE leaves the table as `Deleted` specifies, still valid |
| `Directory.UserTable.SetInactive` | mainapplication_TN.py:207-208 | the status UPDATE leaves the table as `Deactivated` specifies, still valid |
| `Directory.UserTable.ImportRows` | mainapplication_TN.py:322-373 | the import loop leaves the table and returns the outcome `ImportAll` specifies, keeping the table valid |
| `Window.Step` | mainapplication_TN.py:245-381 | the effect of each handler on the window state and the table; `SessionGate`, `OnlyLoginConnects`, `LogoutCloses`, `NothingSelected`, `StepKeepsValid` and `ImportClick` state its properties |
| `Window.SessionGate` | mainapplication_TN.py:312-315 | without a session, no handler changes the table |
| `Window.OnlyLoginConnects` | mainapplication_TN.py:260-281 | without a session, a handler opens one if and only if it is an accepted login |
| `Window.LogoutCloses` | mainapplication_TN.py:271-281 | a logout after a login clears the session, shows "Ausgeloggt" and changes nothing else |
| `Window.UnknownIdIsNoOp` | mainapplication_TN.py:249-258 | an id without a `case` changes nothing |
| `Window.NothingSelected` | mainapplication_TN.py:153-215 | with no selection, edit, delete and deactivate change nothing, and neither do delete and deactivate when the confirmation is declined |
| `Window.StepKeepsValid` | mainapplication_TN.py:245-373 | every handler keeps the table valid |
| `Window.ImportClick` | mainapplication_TN.py:310-373 | with a session and a chosen file, clicking id 11 imports the file and changes nothing but the table |
| `Window.NoLoginNoChange` | mainapplication_TN.py:260-315 | over any series of clicks without an accepted login, the session stays closed and the table is untouched |
| `Window.MainWindow.constructor` | mainapplication_TN.py:88-115 | a new window has no session, shows "Ausgeloggt" and hides the help dock |
| `Window.MainWindow.MenuLogin` | mainapplication_TN.py:260-269 | an accepted login sets the session and shows "Eingeloggt"; a cancelled one changes nothing |
| `Window.MainWindow.LogoutDatabase` | mainapplication_TN.py:271-281 | logout raises exactly when no login ever assigned `db_handler`; otherwise the session is cleared and "Ausgeloggt" is shown |
| `Window.MainWindow.MenueHelpHelp` | mainapplication_TN.py:379-381 | the help dock becomes visible and nothing else changes |
| `Window.MainWindow.EditAdUser` | mainapplication_TN.py:137-151 | with a selection, opens the editor for that id, or raises when no login ever assigned `db_handler`; without one, nothing happens |
| `Window.MainWindow.DeleteAdUser` | mainapplication_TN.py:153-183 | deletes the selected record exactly when a row is selected, the user confirms and a session exists; otherwise the table is unchanged |
| `Window.MainWindow.DeactivateAdUser` | mainapplication_TN.py:185-215 | deactivates the selected record exactly when a row is selected, the user confirms and a session exists; otherwise the table is unchanged |
| `Window.MainWindow.MenueCsvImport` | mainapplication_TN.py:310-373 | with no session or a cancelled file dialog the table is untouched; otherwise the table and the outcome are those of `ImportAll` |
| `Window.MainWindow.MenueClicked` | mainapplication_TN.py:245-258 | a click leaves the window as `Step` specifies for the handler `Dispatch` selects |

## Left out

- Qt plumbing is not modelled: widgets, icons and the dock's HTML text. Message boxes are left out except for the answers they return. Confirmation is a boolean input. The selection is an optional id. The file dialog gives the rows of the chosen file, or nothing when cancelled.
- File reading is not modelled. `csv.DictReader` and the file's encoding are outside the model. A row is a map from column name to text. A short row, where `DictReader` puts `None` into the missing cells, is not represented. With `None` in `firstname`, `lastname`, `kurs` or `status_id_fk` the source raises a `TypeError` and the import aborts; with `None` in `phone`, `abteilung`, `street`, `city`, `city_code` or `postalcode` the source writes SQL NULL and goes on. The model has neither.
- `load_ad_users` is not modelled. It only redraws the table view from a database view that is not part of this model, so what the window displays is not modelled.
- `transfer_to_ad`: the CSV export and the copy to the network share are file and network I/O. Only its session gate is defined (`Window.MainWindow.TransferToAd`), and nothing is proved about it beyond what `Step` and `SessionGate` say: a transfer click changes neither the window state nor the table.
- `EditADUserWindow`, `LoginDialog` and `DatabaseHandler` are not part of this model.
  - The store is an in-memory table whose calls always succeed.
  - A login dialog whose handler turns out `None` is not represented.
  - The edit window's own behaviour is not modelled.
- SQL is not modelled: the statement text, the string-interpolated user-name lookup (a quote in a name changes the query), and the `modified=NOW()` time stamp.
- Text handling is ASCII only:
  - `lower()` lowers only ASCII capitals.
  - `int()` accepts only ASCII digits, and treats only ASCII characters as white space. Its digit limit is the default one; a program that changes it with `sys.set_int_max_str_digits` is not modelled.
  - Python's Unicode case mapping, Unicode digits and Unicode white space are not modelled.
- An exception that escapes a handler's `try` (logout or edit before any login) leaves the state unchanged in the model. What PyQt then does with the exception is not modelled.
- `menue_help_about` only prints to the console. Its click is a no-op on the state.
- Menu 19 "Beenden" has no `case` in `menue_clicked`, so it does nothing, as written.
