/**
 * The main window's state between two clicks, and the handlers that
 * `menue_clicked` runs: the session (`db_handler`) that login sets and logout
 * clears, the CSV import behind the session gate, and delete and deactivate
 * of the selected record.
 */
module Window {
  import opened Common
  import opened Catalog
  import opened Directory

  /** `db_handler`: never assigned (no login yet), set to `None` by a logout, or a live connection. */
  datatype Session = Unassigned | Cleared | Connected

  /** What the user answers in the dialogs a handler opens. */
  datatype Interaction = Interaction(
    loginAccepted: bool,            // the login dialog's `exec()`
    selection: Option<int>,         // the id in the selected table row, if any
    confirmed: bool,                // "Yes" in the confirmation box
    csvFile: Option<seq<Row>>)      // the rows of the chosen file, `None` when the file dialog is cancelled

  /** What the window holds between two clicks. */
  datatype Screen = Screen(
    session: Session,
    helpVisible: bool,              // the help dock
    status: string,                 // the status bar text
    editing: Option<int>,           // the id an edit window was opened for
    db: Db)

  const LoggedIn: string := "Eingeloggt"
  const LoggedOut: string := "Ausgeloggt"

  /** The window as `initUI` leaves it. */
  function Initial(db: Db): Screen
  {
    Screen(Unassigned, false, LoggedOut, None, db)
  }

  /** The gate of `menue_csv_import` and `transfer_to_ad`: `hasattr(self, 'db_handler')` and not `None`. */
  predicate HasSession(s: Screen)
  {
    s.session == Connected
  }

  /**
   * What one handler does to the window. A handler that raises outside a
   * `try` (logout or edit before any login) changes nothing before it raises.
   */
  function Step(s: Screen, h: Handler, ui: Interaction): Screen
  {
    match h
    case CsvImport =>
      if !HasSession(s) || ui.csvFile.None? then s
      else s.(db := ImportAll(s.db, ui.csvFile.value).db)
    case Transfer => s
    case Login =>
      if ui.loginAccepted then s.(session := Connected, status := LoggedIn) else s
    case Logout =>
      if s.session == Unassigned then s
      else s.(session := Cleared, status := LoggedOut)
    case EditUser =>
      if ui.selection.None? || s.session == Unassigned then s
      else s.(editing := ui.selection)
    case DeleteUser =>
      if ui.selection.Some? && ui.confirmed && HasSession(s) then s.(db := Deleted(s.db, ui.selection.value))
      else s
    case DeactivateUser =>
      if ui.selection.Some? && ui.confirmed && HasSession(s) then s.(db := Deactivated(s.db, ui.selection.value))
      else s
    case About => s
    case Help => s.(helpVisible := true)
    case NoOp => s
  }

  /** Without a session no handler changes the table. */
  lemma SessionGate(s: Screen, h: Handler, ui: Interaction)
    requires !HasSession(s)
    ensures Step(s, h, ui).db == s.db
  {
  }

  /** Only an accepted login opens a session. */
  lemma OnlyLoginConnects(s: Screen, h: Handler, ui: Interaction)
    requires !HasSession(s)
    ensures HasSession(Step(s, h, ui)) <==> h == Login && ui.loginAccepted
  {
  }

  /** After a logout that did not raise, there is no session, and the table is as it was. */
  lemma LogoutCloses(s: Screen, ui: Interaction)
    requires s.session != Unassigned
    ensures Step(s, Logout, ui) == s.(session := Cleared, status := LoggedOut)
    ensures !HasSession(Step(s, Logout, ui)) && Step(s, Logout, ui).db == s.db
  {
  }

  /** An id `menue_clicked` has no case for, such as 0 or 19 "Beenden", changes nothing. */
  lemma UnknownIdIsNoOp(s: Screen, id: int, ui: Interaction)
    requires id !in DispatchedIds
    ensures Step(s, Dispatch(id), ui) == s
  {
    DispatchIsBijective(id, Dispatch(id));
  }

  /** With no row selected, or the confirmation declined, edit, delete and deactivate change nothing. */
  lemma NothingSelected(s: Screen, h: Handler, ui: Interaction)
    requires h == EditUser || h == DeleteUser || h == DeactivateUser
    requires ui.selection.None? || (h != EditUser && !ui.confirmed)
    ensures Step(s, h, ui) == s
  {
  }

  /** Every handler keeps the table valid. */
  lemma StepKeepsValid(s: Screen, h: Handler, ui: Interaction)
    requires ValidDb(s.db)
    ensures ValidDb(Step(s, h, ui).db)
  {
    match h {
      case CsvImport =>
        if HasSession(s) && ui.csvFile.Some? {
          ImportKeepsValid(s.db, ui.csvFile.value);
        }
      case DeleteUser =>
        if ui.selection.Some? {
          DeleteEffect(s.db, ui.selection.value);
        }
      case DeactivateUser =>
        if ui.selection.Some? {
          DeactivateEffect(s.db, ui.selection.value);
        }
      case _ =>
    }
  }

  /**
   * Importing with a session changes only the table; a click on the import
   * entry is the import of the chosen file.
   */
  lemma ImportClick(s: Screen, rows: seq<Row>, ui: Interaction)
    requires HasSession(s) && ui.csvFile == Some(rows)
    ensures Step(s, Dispatch(11), ui) == s.(db := ImportAll(s.db, rows).db)
  {
  }

  /** The window after a series of clicks, each with the user's answers. */
  function Clicks(s: Screen, clicks: seq<(int, Interaction)>): Screen
  {
    if clicks == [] then s
    else Step(Clicks(s, clicks[..|clicks| - 1]), Dispatch(clicks[|clicks| - 1].0), clicks[|clicks| - 1].1)
  }

  /**
   * Until a login is accepted the session stays closed and the table is
   * untouched, whatever else is clicked.
   */
  lemma {:induction false} NoLoginNoChange(s: Screen, clicks: seq<(int, Interaction)>)
    requires !HasSession(s)
    requires forall k :: 0 <= k < |clicks| ==> !(clicks[k].0 == 13 && clicks[k].1.loginAccepted)
    ensures !HasSession(Clicks(s, clicks)) && Clicks(s, clicks).db == s.db
  {
    if clicks != [] {
      var init := clicks[..|clicks| - 1];
      NoLoginNoChange(s, init);
      var (id, ui) := clicks[|clicks| - 1];
      var before := Clicks(s, init);
      SessionGate(before, Dispatch(id), ui);
      OnlyLoginConnects(before, Dispatch(id), ui);
      DispatchIsBijective(id, Login);
    }
  }

  /** What a delete or deactivate ended with, as the message box tells it. */
  datatype Reply = NoSelection | Declined | Failed | Done

  /** How the CSV import ended. */
  datatype ImportReply = NotLoggedIn | Cancelled | Finished(outcome: Outcome)

  /** The main window, with the table behind its connection. */
  class MainWindow {
    const table: UserTable
    var session: Session
    var helpVisible: bool
    var status: string
    var editing: Option<int>

    ghost predicate Valid()
      reads this, table
    {
      table.Valid()
    }

    function Snapshot(): Screen
      reads this, table
    {
      Screen(session, helpVisible, status, editing, table.Contents())
    }

    constructor (t: UserTable)
      requires t.Valid()
      ensures Valid() && table == t
      ensures Snapshot() == Initial(t.Contents())
    {
      table := t;
      session := Unassigned;
      helpVisible := false;
      status := LoggedOut;
      editing := None;
    }

    /** `menu_login`: an accepted dialog sets `db_handler` and the status text. */
    method MenuLogin(accepted: bool)
      modifies this
      ensures session == (if accepted then Connected else old(session))
      ensures status == (if accepted then LoggedIn else old(status))
      ensures helpVisible == old(helpVisible) && editing == old(editing)
    {
      if accepted {
        session := Connected;
        status := LoggedIn;
      }
    }

    /**
     * `logout_database`: closes and clears a live handler; `if self.db_handler`
     * raises when no login ever assigned it, before anything changes.
     */
    method LogoutDatabase() returns (raised: bool)
      modifies this
      ensures raised <==> old(session) == Unassigned
      ensures raised ==> session == old(session) && status == old(status)
      ensures !raised ==> session == Cleared && status == LoggedOut
      ensures helpVisible == old(helpVisible) && editing == old(editing)
    {
      if session == Unassigned {
        return true;
      }
      if session == Connected {
        session := Cleared;
      }
      status := LoggedOut;
      return false;
    }

    /** `menue_help_help`: shows the help dock. */
    method MenueHelpHelp()
      modifies this
      ensures helpVisible
      ensures session == old(session) && status == old(status) && editing == old(editing)
    {
      helpVisible := true;
    }

    /**
     * `editaduser`: opens the edit window for the selected id; reading
     * `self.db_handler` raises when no login ever assigned it.
     */
    method EditAdUser(selection: Option<int>) returns (raised: bool)
      modifies this
      ensures raised <==> selection.Some? && session == Unassigned
      ensures editing == if selection.Some? && !raised then selection else old(editing)
      ensures session == old(session) && status == old(status) && helpVisible == old(helpVisible)
    {
      if selection.None? {
        return false;
      }
      if session == Unassigned {
        return true;
      }
      editing := selection;
      return false;
    }

    /**
     * `delete_ad_user`: asks for confirmation, then deletes by `id_pk`; with no
     * handler the call raises inside the `try` and only the error box appears.
     */
    method DeleteAdUser(selection: Option<int>, confirmed: bool) returns (reply: Reply)
      requires Valid()
      modifies table
      ensures Valid()
      ensures reply == Done <==> selection.Some? && confirmed && session == Connected
      ensures selection.None? ==> reply == NoSelection
      ensures selection.Some? && !confirmed ==> reply == Declined
      ensures table.Contents() == if reply == Done then Deleted(old(table.Contents()), selection.value) else old(table.Contents())
    {
      if selection.None? {
        return NoSelection;
      }
      if !confirmed {
        return Declined;
      }
      if session != Connected {
        return Failed;
      }
      table.DeleteById(selection.value);
      return Done;
    }

    /** `deactivate_ad_user`: like delete, but sets the status to inactive. */
    method DeactivateAdUser(selection: Option<int>, confirmed: bool) returns (reply: Reply)
      requires Valid()
      modifies table
      ensures Valid()
      ensures reply == Done <==> selection.Some? && confirmed && session == Connected
      ensures selection.None? ==> reply == NoSelection
      ensures selection.Some? && !confirmed ==> reply == Declined
      ensures table.Contents() == if reply == Done then Deactivated(old(table.Contents()), selection.value) else old(table.Contents())
    {
      if selection.None? {
        return NoSelection;
      }
      if !confirmed {
        return Declined;
      }
      if session != Connected {
        return Failed;
      }
      table.SetInactive(selection.value);
      return Done;
    }

    /** `transfer_to_ad` up to its file work: whether the session gate lets it through. */
    function TransferToAd(): (passed: bool)
      reads this
    {
      session == Connected
    }

    /**
     * `menue_csv_import`: the session gate, the file dialog, then the row loop.
     */
    method MenueCsvImport(file: Option<seq<Row>>) returns (reply: ImportReply)
      requires Valid()
      modifies table
      ensures Valid()
      ensures session != Connected ==> reply == NotLoggedIn && table.Contents() == old(table.Contents())
      ensures session == Connected && file.None? ==> reply == Cancelled && table.Contents() == old(table.Contents())
      ensures session == Connected && file.Some? ==>
        && reply == Finished(ImportAll(old(table.Contents()), file.value).outcome)
        && table.Contents() == ImportAll(old(table.Contents()), file.value).db
    {
      if session != Connected {
        return NotLoggedIn;
      }
      if file.None? {
        return Cancelled;
      }
      var outcome := table.ImportRows(file.value);
      return Finished(outcome);
    }

    /** `menue_clicked`: runs the handler the clicked entry's id selects. */
    method MenueClicked(id: int, ui: Interaction)
      requires Valid()
      modifies this, table
      ensures Valid()
      ensures Snapshot() == Step(old(Snapshot()), Dispatch(id), ui)
    {
      match Dispatch(id) {
        case EditUser =>
          var _ := EditAdUser(ui.selection);
        case DeleteUser =>
          var _ := DeleteAdUser(ui.selection, ui.confirmed);
        case DeactivateUser =>
          var _ := DeactivateAdUser(ui.selection, ui.confirmed);
        case Transfer =>
          var _ := TransferToAd();
        case Help =>
          MenueHelpHelp();
        case About =>
        case Login =>
          MenuLogin(ui.loginAccepted);
        case Logout =>
          var _ := LogoutDatabase();
        case CsvImport =>
          var _ := MenueCsvImport(ui.csvFile);
        case NoOp =>
      }
    }
  }
}
