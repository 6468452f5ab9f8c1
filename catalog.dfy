/**
 * The command catalog of the main window: the three dict literals that name
 * the menus, the menu options and the toolbar buttons, the loops in `initUI`
 * that turn them into menus and a toolbar, and the `match` in
 * `menue_clicked` that routes a fired command id to its handler.
 */
module Catalog {
  import opened Common

  /** A Python dict from command id to caption, in insertion order. */
  type Dict = seq<(int, string)>

  function Keys(d: Dict): set<int>
  {
    set i | 0 <= i < |d| :: d[i].0
  }

  predicate DistinctKeys(d: Dict)
  {
    forall i, j :: 0 <= i < j < |d| ==> d[i].0 != d[j].0
  }

  lemma KeysAppend(a: Dict, b: Dict)
    ensures Keys(a + b) == Keys(a) + Keys(b)
  {
    var ab := a + b;
    forall x | x in Keys(ab)
      ensures x in Keys(a) + Keys(b)
    {
      var i :| 0 <= i < |ab| && ab[i].0 == x;
      if i < |a| {
        assert a[i] == ab[i];
      } else {
        assert b[i - |a|] == ab[i];
      }
    }
    forall x | x in Keys(a) + Keys(b)
      ensures x in Keys(ab)
    {
      if x in Keys(a) {
        var i :| 0 <= i < |a| && a[i].0 == x;
        assert ab[i] == a[i];
      } else {
        var i :| 0 <= i < |b| && b[i].0 == x;
        assert ab[|a| + i] == b[i];
      }
    }
  }

  lemma KeysSingle(p: (int, string))
    ensures Keys([p]) == {p.0}
  {
    assert [p][0] == p;
  }

  /**
   * `d[k] = v` on a dict: a key already present keeps its position and takes
   * the new value; a new key goes to the end.
   */
  function DictSet(d: Dict, k: int, v: string): (r: Dict)
    requires DistinctKeys(d)
    ensures DistinctKeys(r)
    ensures Keys(r) == Keys(d) + {k}
  {
    if d == [] then
      KeysSingle((k, v));
      [(k, v)]
    else
      var tail := d[1..];
      TailDistinct(d);
      ConsKeys(d[0], tail);
      if d[0].0 == k then
        ConsKeys((k, v), tail);
        ConsDistinct((k, v), tail);
        [(k, v)] + tail
      else
        var rest := DictSet(tail, k, v);
        ConsKeys(d[0], rest);
        ConsDistinct(d[0], rest);
        [d[0]] + rest
  }

  /** `d[k] = v` on a key already present writes over that key's pair, in its position. */
  lemma {:induction false} DictSetOverwrites(d: Dict, k: int, v: string, i: nat)
    requires DistinctKeys(d)
    requires i < |d| && d[i].0 == k
    ensures DictSet(d, k, v) == d[i := (k, v)]
  {
    var tail := d[1..];
    TailDistinct(d);
    if i == 0 {
      assert DictSet(d, k, v) == [(k, v)] + tail;
    } else {
      assert tail[i - 1] == d[i];
      assert d[0].0 != k by {
        assert d[i].0 in Keys(tail);
      }
      DictSetOverwrites(tail, k, v, i - 1);
      assert DictSet(d, k, v) == [d[0]] + tail[i - 1 := (k, v)];
    }
  }

  /** `d[k] = v` on a new key appends the pair. */
  lemma {:induction false} DictSetAppends(d: Dict, k: int, v: string)
    requires DistinctKeys(d)
    requires k !in Keys(d)
    ensures DictSet(d, k, v) == d + [(k, v)]
  {
    if d != [] {
      var tail := d[1..];
      TailDistinct(d);
      ConsKeys(d[0], tail);
      assert d[0].0 != k && k !in Keys(tail);
      DictSetAppends(tail, k, v);
      assert DictSet(d, k, v) == [d[0]] + DictSet(tail, k, v);
      assert [d[0]] + (tail + [(k, v)]) == d + [(k, v)];
    }
  }

  /** The keys of a dict with one more pair in front. */
  lemma ConsKeys(p: (int, string), d: Dict)
    ensures Keys([p] + d) == Keys(d) + {p.0}
  {
    KeysAppend([p], d);
    KeysSingle(p);
  }

  /** A pair with a new key can go in front of a dict. */
  lemma ConsDistinct(p: (int, string), d: Dict)
    requires DistinctKeys(d) && p.0 !in Keys(d)
    ensures DistinctKeys([p] + d)
  {
    var pd := [p] + d;
    forall i, j | 0 <= i < j < |pd| ensures pd[i].0 != pd[j].0 {
      assert pd[j] == d[j - 1];
      if i > 0 {
        assert pd[i] == d[i - 1];
      } else {
        assert d[j - 1].0 in Keys(d);
      }
    }
  }

  /** The rest of a dict after its first pair is a dict without the first key. */
  lemma TailDistinct(d: Dict)
    requires DistinctKeys(d) && |d| > 0
    ensures DistinctKeys(d[1..]) && d[0].0 !in Keys(d[1..])
    ensures d == [d[0]] + d[1..]
  {
    var tail := d[1..];
    forall i | 0 <= i < |tail| ensures tail[i].0 != d[0].0 {
      assert tail[i] == d[i + 1];
    }
    forall i, j | 0 <= i < j < |tail| ensures tail[i].0 != tail[j].0 {
      assert tail[i] == d[i + 1] && tail[j] == d[j + 1];
    }
  }

  /**
   * What a dict display `{k1: v1, k2: v2, ...}` evaluates to: the pairs are
   * stored left to right, so a repeated key keeps the position of its first
   * occurrence and the value of its last.
   */
  function DictFromLiteral(pairs: seq<(int, string)>): (d: Dict)
    ensures DistinctKeys(d)
    ensures Keys(d) == Keys(pairs)
  {
    StoreAll([], pairs)
  }

  /** Stores the pairs into `d`, left to right. */
  function StoreAll(d: Dict, pairs: seq<(int, string)>): (r: Dict)
    requires DistinctKeys(d)
    ensures DistinctKeys(r)
    ensures Keys(r) == Keys(d) + Keys(pairs)
    decreases |pairs|
  {
    if pairs == [] then d
    else
      assert pairs == [pairs[0]] + pairs[1..];
      KeysAppend([pairs[0]], pairs[1..]);
      KeysSingle(pairs[0]);
      StoreAll(DictSet(d, pairs[0].0, pairs[0].1), pairs[1..])
  }

  function Get(d: Dict, k: int): Option<string>
  {
    if d == [] then None
    else if d[0].0 == k then Some(d[0].1)
    else Get(d[1..], k)
  }

  /** The value written last for `k` in a list of pairs. */
  function LastValue(pairs: seq<(int, string)>, k: int): Option<string>
  {
    if pairs == [] then None
    else
      match LastValue(pairs[1..], k)
      case Some(v) => Some(v)
      case None => if pairs[0].0 == k then Some(pairs[0].1) else None
  }

  lemma {:induction false} GetAfterSet(d: Dict, k: int, v: string, x: int)
    requires DistinctKeys(d)
    ensures Get(DictSet(d, k, v), x) == if x == k then Some(v) else Get(d, x)
  {
    if d != [] && d[0].0 != k {
      GetAfterSet(d[1..], k, v, x);
    }
  }

  lemma {:induction false} StoreAllGet(d: Dict, pairs: seq<(int, string)>, k: int)
    requires DistinctKeys(d)
    ensures Get(StoreAll(d, pairs), k) == match LastValue(pairs, k) case Some(v) => Some(v) case None => Get(d, k)
    decreases |pairs|
  {
    if pairs != [] {
      var d' := DictSet(d, pairs[0].0, pairs[0].1);
      StoreAllGet(d', pairs[1..], k);
      GetAfterSet(d, pairs[0].0, pairs[0].1, k);
    }
  }

  /** Looking a key up in the evaluated display gives the last value written for it. */
  lemma DictFromLiteralGet(pairs: seq<(int, string)>, k: int)
    ensures Get(DictFromLiteral(pairs), k) == LastValue(pairs, k)
  {
    StoreAllGet([], pairs, k);
  }

  lemma {:induction false} StoreAllDistinct(d: Dict, pairs: seq<(int, string)>)
    requires DistinctKeys(d) && DistinctKeys(d + pairs)
    ensures StoreAll(d, pairs) == d + pairs
    decreases |pairs|
  {
    if pairs != [] {
      var p := pairs[0];
      assert p.0 !in Keys(d) by {
        assert forall i :: 0 <= i < |d| ==> (d + pairs)[i] == d[i];
        assert (d + pairs)[|d|] == p;
      }
      DictSetAppends(d, p.0, p.1);
      assert d + pairs == (d + [p]) + pairs[1..];
      StoreAllDistinct(d + [p], pairs[1..]);
    }
  }

  /** A display without a repeated key evaluates to its own pairs, in order. */
  lemma DictFromDistinctLiteral(pairs: seq<(int, string)>)
    requires DistinctKeys(pairs)
    ensures DictFromLiteral(pairs) == pairs
  {
    assert [] + pairs == pairs;
    StoreAllDistinct([], pairs);
  }

  /** Two dicts whose keys lie on either side of a bound have no key in common. */
  lemma {:induction false} DistinctAppend(a: Dict, b: Dict, bound: int)
    requires DistinctKeys(a) && DistinctKeys(b)
    requires forall i :: 0 <= i < |a| ==> a[i].0 < bound
    requires forall j :: 0 <= j < |b| ==> bound <= b[j].0
    ensures DistinctKeys(a + b)
  {
    var ab := a + b;
    forall i, j | 0 <= i < j < |ab| ensures ab[i].0 != ab[j].0 {
      if j < |a| {
        assert ab[i] == a[i] && ab[j] == a[j];
      } else if i >= |a| {
        assert ab[i] == b[i - |a|] && ab[j] == b[j - |a|];
      } else {
        assert ab[i] == a[i] && ab[j] == b[j - |a|];
      }
    }
  }

  // The literals of mainapplication_TN.py, pair by pair as written.

  const MainMenuLiteral: seq<(int, string)> :=
    [(1, "&Datei"), (2, "&Active Directory"), (4, "&Hilfe")]

  const MenuOptionsLiteral: seq<(int, string)> :=
    [(11, "Import von CSV"), (12, "Transfer nach AD"), (13, "Einloggen"), (14, "Ausloggen"),
     (0, "separator"), (19, "&Beenden"), (21, "Benutzer bearbeiten"), (22, "Lösche AD-User"),
     (23, "Inaktiv AD-User"), (41, "&Über"), (42, "&Hilfe")]

  const ToolbarLiteral: seq<(int, string)> :=
    [(13, "Einloggen"), (11, "Import von CSV"), (12, "Transfer nach AD"),
     (0, "separator"), (21, "Benutzer bearbeiten"), (22, "Lösche AD-User"), (23, "Inaktiv AD-User"),
     (0, "separator"), (42, "&Hilfe")]

  /** `self.mainmenue`, `self.menueoptions` and `self.toolbarbuttons`. */
  function MainMenus(): Dict { DictFromLiteral(MainMenuLiteral) }
  function MenuOptions(): Dict { DictFromLiteral(MenuOptionsLiteral) }
  function ToolbarButtons(): Dict { DictFromLiteral(ToolbarLiteral) }

  /** One item of a menu or of the toolbar. */
  datatype Entry = Separator | Command(id: int, caption: string)

  /** A menu of the menu bar with its items. */
  datatype Menu = Menu(id: int, title: string, entries: seq<Entry>)

  /**
   * What one option adds to menu `m` in the inner loop of `initUI`: id 0 adds
   * a separator to every menu; any other id is added where `id // 10 == m`.
   * (With the divisor 10, Dafny's `/` is Python's floor division `//`.)
   */
  function EntriesFor(option: (int, string), m: int): seq<Entry>
  {
    if option.0 == 0 then [Separator]
    else if option.0 / 10 == m then [Command(option.0, option.1)]
    else []
  }

  /** The items of menu `m`, in the order of the options. */
  function MenuEntries(options: Dict, m: int): seq<Entry>
  {
    if options == [] then [] else EntriesFor(options[0], m) + MenuEntries(options[1..], m)
  }

  lemma {:induction false} MenuEntriesAppend(a: Dict, b: Dict, m: int)
    ensures MenuEntries(a + b, m) == MenuEntries(a, m) + MenuEntries(b, m)
  {
    if a == [] {
      assert a + b == b;
    } else {
      assert (a + b)[1..] == a[1..] + b;
      MenuEntriesAppend(a[1..], b, m);
    }
  }

  /** What one button adds to the toolbar: a separator for id 0, a button for any other. */
  function ButtonFor(button: (int, string)): Entry
  {
    if button.0 == 0 then Separator else Command(button.0, button.1)
  }

  /** The items of the toolbar, one per button, in order. */
  function ToolbarEntries(buttons: Dict): seq<Entry>
  {
    seq(|buttons|, i requires 0 <= i < |buttons| => ButtonFor(buttons[i]))
  }

  /** The nested loops of `initUI` that fill the menu bar. */
  method BuildMenuBar(menus: Dict, options: Dict) returns (bar: seq<Menu>)
    ensures |bar| == |menus|
    ensures forall i :: 0 <= i < |menus| ==>
      bar[i] == Menu(menus[i].0, menus[i].1, MenuEntries(options, menus[i].0))
  {
    bar := [];
    var i := 0;
    while i < |menus|
      invariant 0 <= i <= |menus|
      invariant |bar| == i
      invariant forall k :: 0 <= k < i ==>
        bar[k] == Menu(menus[k].0, menus[k].1, MenuEntries(options, menus[k].0))
    {
      var (menuId, title) := menus[i];
      var entries: seq<Entry> := [];
      var j := 0;
      while j < |options|
        invariant 0 <= j <= |options|
        invariant entries == MenuEntries(options[..j], menuId)
      {
        var (actionId, actionTitle) := options[j];
        if actionId == 0 {
          entries := entries + [Separator];
        } else if actionId / 10 == menuId {
          entries := entries + [Command(actionId, actionTitle)];
        }
        assert options[..j + 1] == options[..j] + [options[j]];
        MenuEntriesAppend(options[..j], [options[j]], menuId);
        j := j + 1;
      }
      assert options[..j] == options;
      bar := bar + [Menu(menuId, title, entries)];
      i := i + 1;
    }
  }

  /** The toolbar loop of `initUI`. */
  method BuildToolbar(buttons: Dict) returns (items: seq<Entry>)
    ensures items == ToolbarEntries(buttons)
  {
    items := [];
    var i := 0;
    while i < |buttons|
      invariant 0 <= i <= |buttons|
      invariant items == ToolbarEntries(buttons[..i])
    {
      var (command, caption) := buttons[i];
      if command == 0 {
        items := items + [Separator];
      } else {
        items := items + [Command(command, caption)];
      }
      i := i + 1;
    }
    assert buttons[..i] == buttons;
  }

  /** A menu holds an option with a non-zero id exactly when the id's tens digit names that menu. */
  lemma {:induction false} MenuMembership(options: Dict, m: int, id: int, title: string)
    requires id != 0
    ensures Command(id, title) in MenuEntries(options, m) <==> (id, title) in options && id / 10 == m
  {
    if options != [] {
      MenuMembership(options[1..], m, id, title);
      assert options == [options[0]] + options[1..];
    }
  }

  function CountSeparators(entries: seq<Entry>): nat
  {
    if entries == [] then 0
    else (if entries[0] == Separator then 1 else 0) + CountSeparators(entries[1..])
  }

  function CountKey(d: Dict, k: int): nat
  {
    if d == [] then 0
    else (if d[0].0 == k then 1 else 0) + CountKey(d[1..], k)
  }

  lemma {:induction false} CountSeparatorsAppend(a: seq<Entry>, b: seq<Entry>)
    ensures CountSeparators(a + b) == CountSeparators(a) + CountSeparators(b)
  {
    if a == [] {
      assert a + b == b;
    } else {
      assert (a + b)[1..] == a[1..] + b;
      CountSeparatorsAppend(a[1..], b);
    }
  }

  /** Every menu gets one separator per id-0 entry, whatever its own id. */
  lemma {:induction false} MenuSeparators(options: Dict, m: int)
    ensures CountSeparators(MenuEntries(options, m)) == CountKey(options, 0)
  {
    if options != [] {
      MenuSeparators(options[1..], m);
      CountSeparatorsAppend(EntriesFor(options[0], m), MenuEntries(options[1..], m));
    }
  }

  /** In a dict the key 0 occurs at most once, so every menu has at most one separator. */
  lemma {:induction false} CountKeyInDict(d: Dict, k: int)
    requires DistinctKeys(d)
    ensures CountKey(d, k) == if k in Keys(d) then 1 else 0
  {
    if d != [] {
      assert d == [d[0]] + d[1..];
      KeysAppend([d[0]], d[1..]);
      KeysSingle(d[0]);
      CountKeyInDict(d[1..], k);
      if d[0].0 == k {
        assert k !in Keys(d[1..]) by {
          assert forall i :: 0 <= i < |d[1..]| ==> d[1..][i].0 == d[i + 1].0;
        }
      }
    }
  }

  // The catalog as the program defines it.

  /** The options of each menu, as they come in the display: ids below 20, in the 20s, in the 40s. */
  const FileOptions: seq<(int, string)> :=
    [(11, "Import von CSV"), (12, "Transfer nach AD"), (13, "Einloggen"), (14, "Ausloggen"),
     (0, "separator"), (19, "&Beenden")]
  const ActiveDirectoryOptions: seq<(int, string)> :=
    [(21, "Benutzer bearbeiten"), (22, "Lösche AD-User"), (23, "Inaktiv AD-User")]
  const HelpOptions: seq<(int, string)> :=
    [(41, "&Über"), (42, "&Hilfe")]

  lemma MenuOptionsByGroup()
    ensures MenuOptionsLiteral == FileOptions + ActiveDirectoryOptions + HelpOptions
    ensures DistinctKeys(FileOptions) && DistinctKeys(ActiveDirectoryOptions) && DistinctKeys(HelpOptions)
    ensures forall i :: 0 <= i < |FileOptions| ==> FileOptions[i].0 < 20
    ensures forall i :: 0 <= i < |ActiveDirectoryOptions| ==> 20 <= ActiveDirectoryOptions[i].0 < 40
    ensures forall i :: 0 <= i < |HelpOptions| ==> 40 <= HelpOptions[i].0
  {
  }

  /** `menueoptions` repeats no key, so it evaluates to its pairs in written order. */
  lemma MenuOptionsAsWritten()
    ensures MenuOptions() == MenuOptionsLiteral
  {
    MenuOptionsDistinct();
    DictFromDistinctLiteral(MenuOptionsLiteral);
  }

  /** Whatever its id, every menu built from `menueoptions` holds exactly one separator. */
  lemma OneSeparatorPerMenu(m: int)
    ensures CountSeparators(MenuEntries(MenuOptions(), m)) == 1
  {
    MenuOptionsAsWritten();
    MenuOptionsDistinct();
    OneSeparatorIn(MenuOptionsLiteral, 4, m);
  }

  lemma MenuOptionsDistinct()
    ensures DistinctKeys(MenuOptionsLiteral) && |MenuOptionsLiteral| == 11 && MenuOptionsLiteral[4].0 == 0
  {
    MenuOptionsByGroup();
    DistinctAppend(FileOptions, ActiveDirectoryOptions, 20);
    DistinctAppend(FileOptions + ActiveDirectoryOptions, HelpOptions, 40);
  }

  lemma OneSeparatorIn(options: Dict, i: nat, m: int)
    requires DistinctKeys(options) && i < |options| && options[i].0 == 0
    ensures CountSeparators(MenuEntries(options, m)) == 1
  {
    MenuSeparators(options, m);
    CountKeyInDict(options, 0);
  }

  lemma MainMenusAsWritten()
    ensures MainMenus() == MainMenuLiteral
  {
    DictFromDistinctLiteral(MainMenuLiteral);
  }

  lemma {:induction false} StoreAllAppend(d: Dict, a: seq<(int, string)>, b: seq<(int, string)>)
    requires DistinctKeys(d)
    ensures StoreAll(d, a + b) == StoreAll(StoreAll(d, a), b)
    decreases |a|
  {
    if a == [] {
      assert a + b == b;
    } else {
      assert (a + b)[1..] == a[1..] + b;
      StoreAllAppend(DictSet(d, a[0].0, a[0].1), a[1..], b);
    }
  }

  /** The pairs of the toolbar display before its key 0 comes round a second time. */
  const ToolbarBeforeRepeat: seq<(int, string)> :=
    [(13, "Einloggen"), (11, "Import von CSV"), (12, "Transfer nach AD"),
     (0, "separator"), (21, "Benutzer bearbeiten"), (22, "Lösche AD-User"), (23, "Inaktiv AD-User")]

  lemma ToolbarLiteralSplit()
    ensures ToolbarLiteral == ToolbarBeforeRepeat + [(0, "separator"), (42, "&Hilfe")]
    ensures DistinctKeys(ToolbarBeforeRepeat)
    ensures ToolbarBeforeRepeat[3] == (0, "separator")
    ensures 42 !in Keys(ToolbarBeforeRepeat)
  {
  }

  /** Storing a pair whose key is already there, with the same value, and then a new pair: the new one is appended. */
  lemma StoreRepeatThenNew(first: Dict, i: nat, p: (int, string), q: (int, string))
    requires DistinctKeys(first)
    requires i < |first| && first[i] == p
    requires q.0 !in Keys(first)
    ensures StoreAll(first, [p, q]) == first + [q]
  {
    DictSetOverwrites(first, p.0, p.1, i);
    assert first[i := p] == first;
    DictSetAppends(first, q.0, q.1);
    assert [p, q][1..] == [q];
    assert StoreAll(first, [q]) == StoreAll(first + [q], []);
  }

  // The dict is a parameter pinned by `requires` rather than the constant itself, so that
  // the verifier does not evaluate the whole literal eagerly (which is slow).
  lemma ToolbarCollapse(lit: seq<(int, string)>, first: Dict)
    requires first == ToolbarBeforeRepeat
    requires lit == first + [(0, "separator"), (42, "&Hilfe")]
    ensures DictFromLiteral(lit) == first + [(42, "&Hilfe")]
  {
    ToolbarLiteralSplit();
    DictFromDistinctLiteral(first);
    StoreAllAppend([], first, [(0, "separator"), (42, "&Hilfe")]);
    StoreRepeatThenNew(first, 3, (0, "separator"), (42, "&Hilfe"));
  }

  /**
   * The repeated key 0 of the toolbar display collapses into one entry at its
   * first position: one separator, after button 12, none after button 23.
   */
  lemma ToolbarButtonsAsEvaluated()
    ensures ToolbarButtons() == ToolbarBeforeRepeat + [(42, "&Hilfe")]
  {
    ToolbarLiteralSplit();
    ToolbarCollapse(ToolbarLiteral, ToolbarBeforeRepeat);
  }

  // What the window shows: the three menus and the toolbar.

  const FileMenuItems: seq<Entry> :=
    [Command(11, "Import von CSV"), Command(12, "Transfer nach AD"), Command(13, "Einloggen"),
     Command(14, "Ausloggen"), Separator, Command(19, "&Beenden")]

  const ActiveDirectoryMenuItems: seq<Entry> :=
    [Separator, Command(21, "Benutzer bearbeiten"), Command(22, "Lösche AD-User"), Command(23, "Inaktiv AD-User")]

  const HelpMenuItems: seq<Entry> := [Separator, Command(41, "&Über"), Command(42, "&Hilfe")]

  const ToolbarItems: seq<Entry> :=
    [Command(13, "Einloggen"), Command(11, "Import von CSV"), Command(12, "Transfer nach AD"),
     Separator, Command(21, "Benutzer bearbeiten"), Command(22, "Lösche AD-User"),
     Command(23, "Inaktiv AD-User"), Command(42, "&Hilfe")]

  /** Menu `m` takes from the display the options of each group in turn. */
  // (The display is a parameter for the reason given at `FileMenuOfGroups`.)
  lemma MenuOfGroups(options: Dict, m: int)
    requires options == FileOptions + ActiveDirectoryOptions + HelpOptions
    ensures MenuEntries(options, m) ==
      MenuEntries(FileOptions, m) + MenuEntries(ActiveDirectoryOptions, m) + MenuEntries(HelpOptions, m)
  {
    MenuEntriesAppend(FileOptions + ActiveDirectoryOptions, HelpOptions, m);
    MenuEntriesAppend(FileOptions, ActiveDirectoryOptions, m);
  }

  // The dict is a parameter pinned by `requires` rather than the constant itself, so that
  // the verifier does not evaluate the whole literal eagerly (which is slow).
  lemma FileMenuOfGroups(options: Dict)
    requires options == FileOptions + ActiveDirectoryOptions + HelpOptions
    ensures MenuEntries(options, 1) == FileMenuItems
  {
    MenuOfGroups(options, 1);
    assert MenuEntries(FileOptions, 1) == FileMenuItems;
    assert MenuEntries(ActiveDirectoryOptions, 1) == [];
    assert MenuEntries(HelpOptions, 1) == [];
  }

  // The dict is a parameter pinned by `requires` rather than the constant itself, so that
  // the verifier does not evaluate the whole literal eagerly (which is slow).
  lemma ActiveDirectoryMenuOfGroups(options: Dict)
    requires options == FileOptions + ActiveDirectoryOptions + HelpOptions
    ensures MenuEntries(options, 2) == ActiveDirectoryMenuItems
  {
    MenuOfGroups(options, 2);
    assert MenuEntries(FileOptions, 2) == [Separator];
    assert MenuEntries(ActiveDirectoryOptions, 2) == ActiveDirectoryMenuItems[1..];
    assert MenuEntries(HelpOptions, 2) == [];
  }

  // The dict is a parameter pinned by `requires` rather than the constant itself, so that
  // the verifier does not evaluate the whole literal eagerly (which is slow).
  lemma HelpMenuOfGroups(options: Dict)
    requires options == FileOptions + ActiveDirectoryOptions + HelpOptions
    ensures MenuEntries(options, 4) == HelpMenuItems
  {
    MenuOfGroups(options, 4);
    assert MenuEntries(FileOptions, 4) == [Separator];
    assert MenuEntries(ActiveDirectoryOptions, 4) == [];
    assert MenuEntries(HelpOptions, 4) == HelpMenuItems[1..];
  }

  /**
   * The menus as `initUI` fills them: File holds 11, 12, 13, 14, the separator
   * and 19; Active Directory and Help start with the separator.
   */
  lemma Menus()
    ensures MenuEntries(MenuOptions(), 1) == FileMenuItems
    ensures MenuEntries(MenuOptions(), 2) == ActiveDirectoryMenuItems
    ensures MenuEntries(MenuOptions(), 4) == HelpMenuItems
  {
    MenuOptionsAsWritten();
    MenuOptionsByGroup();
    FileMenuOfGroups(MenuOptions());
    ActiveDirectoryMenuOfGroups(MenuOptions());
    HelpMenuOfGroups(MenuOptions());
  }

  // The dict is a parameter pinned by `requires` rather than the constant itself, so that
  // the verifier does not evaluate the whole literal eagerly (which is slow).
  lemma ToolbarOf(buttons: Dict)
    requires buttons == ToolbarBeforeRepeat + [(42, "&Hilfe")]
    ensures ToolbarEntries(buttons) ==
      ToolbarItems
  {
  }

  /** The toolbar as `initUI` fills it: eight items, the only separator after button 12. */
  lemma Toolbar()
    ensures ToolbarEntries(ToolbarButtons()) ==
      ToolbarItems
  {
    ToolbarButtonsAsEvaluated();
    ToolbarOf(ToolbarButtons());
  }

  // Dispatch: the `match` of `menue_clicked`.

  /** The handlers `menue_clicked` can call, and `NoOp` for an id it has no case for. */
  datatype Handler =
    | CsvImport | Transfer | Login | Logout
    | EditUser | DeleteUser | DeactivateUser
    | About | Help
    | NoOp

  function Dispatch(id: int): Handler
  {
    match id
    case 21 => EditUser
    case 22 => DeleteUser
    case 23 => DeactivateUser
    case 12 => Transfer
    case 42 => Help
    case 41 => About
    case 13 => Login
    case 14 => Logout
    case 11 => CsvImport
    case _ => NoOp
  }

  /** The command id whose case calls a given handler. */
  function CommandOf(h: Handler): int
    requires h != NoOp
  {
    match h
    case CsvImport => 11
    case Transfer => 12
    case Login => 13
    case Logout => 14
    case EditUser => 21
    case DeleteUser => 22
    case DeactivateUser => 23
    case About => 41
    case Help => 42
  }

  const DispatchedIds: set<int> := {11, 12, 13, 14, 21, 22, 23, 41, 42}

  /**
   * Exactly nine ids reach a handler, each a different one; every other id,
   * the separator's 0 and the exit item's 19 among them, reaches nothing.
   */
  lemma DispatchIsBijective(id: int, h: Handler)
    ensures Dispatch(id) != NoOp <==> id in DispatchedIds
    ensures h != NoOp ==> Dispatch(CommandOf(h)) == h && CommandOf(h) in DispatchedIds
    ensures Dispatch(id) != NoOp ==> CommandOf(Dispatch(id)) == id
  {
  }

  /**
   * Every toolbar button reaches a handler; every menu item does too, except
   * the exit item 19, which reaches nothing.
   */
  lemma CatalogDispatch()
    ensures forall i :: 0 <= i < |ToolbarItems| && ToolbarItems[i].Command? ==>
      Dispatch(ToolbarItems[i].id) != NoOp
    ensures forall i :: 0 <= i < |FileMenuItems| && FileMenuItems[i].Command? ==>
      (Dispatch(FileMenuItems[i].id) == NoOp <==> FileMenuItems[i].id == 19)
    ensures forall i :: 0 <= i < |ActiveDirectoryMenuItems| && ActiveDirectoryMenuItems[i].Command? ==>
      Dispatch(ActiveDirectoryMenuItems[i].id) != NoOp
    ensures forall i :: 0 <= i < |HelpMenuItems| && HelpMenuItems[i].Command? ==>
      Dispatch(HelpMenuItems[i].id) != NoOp
  {
  }
}
