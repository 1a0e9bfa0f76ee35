/** WindowsHost (ConsoleFramework/Controls/WindowsHost.cs): the host panel of
    the overlapping windows. Its Children list holds the optional main menu
    at index 0 and then the windows in Z-order, the last one on top; the
    windowInfos dictionary keeps the Modal and OutsideClickClosesWindow flags
    of every shown window. Raised routed events and the calls into the focus
    manager are recorded in an event log; what the visual tree and the focus
    manager would answer is passed in. */
module WindowStack {
  import opened Seqs

  type WindowId = nat
  type MenuId = nat
  type ControlId = nat

  /** A child of the host: the main menu or a window. */
  datatype Node = MenuNode(menu: MenuId) | Win(id: WindowId)

  /** WindowInfo: the flags Show/ShowModal record for a window. */
  datatype Info = Info(modal: bool, outsideClickClosesWindow: bool)

  /** What the focus initialisation reads of a window: its StoredFocus, if
      any, with what the visual tree says about it, and its ChildToFocus. */
  datatype StoredFocus = StoredFocus(connectedToRoot: bool, visible: bool, focusable: bool)
  datatype FocusSetup = FocusSetup(storedFocus: Option<StoredFocus>, childToFocus: Option<string>)

  /** The focus manager call initializeFocusOnActivatedWindow makes. */
  datatype FocusAction =
    | RestoreStoredFocus(window: WindowId)           // SetFocus(window, window.StoredFocus)
    | FocusNamedChild(window: WindowId, name: string) // SetFocus(FindChildByName(window, name))
    | FocusWindowScope(window: WindowId)              // SetFocusScope(window)

  /** Everything the host raises or asks the focus manager for, in order. */
  datatype HostEvent =
    | Activated(window: WindowId)
    | Deactivated(window: WindowId)
    | Closed(window: WindowId)
    | Focus(action: FocusAction)
    | MenuFocusScope(menu: MenuId)

  /** The fields of the host the operations read and write. */
  datatype Host = Host(mainMenu: Option<MenuId>, children: seq<Node>, infos: map<WindowId, Info>, log: seq<HostEvent>)

  /** The host invariant: no child twice; a main menu sits at index 0 and
      no other menu is a child; and the windows among the children are
      exactly the keys of windowInfos. */
  ghost predicate Valid(h: Host) {
    && NoDup(h.children)
    && (h.mainMenu.Some? ==> |h.children| > 0 && h.children[0] == MenuNode(h.mainMenu.value))
    && (forall n | n in h.children && n.MenuNode? :: h.mainMenu == Some(n.menu))
    && (forall n | n in h.children && n.Win? :: n.id in h.infos)
    && (forall w | w in h.infos :: Win(w) in h.children)
  }

  /** The index of the first window: 1 behind a main menu, else 0. */
  function WindowsStart(h: Host): nat {
    if h.mainMenu.Some? then 1 else 0
  }

  /** In a valid host every child from WindowsStart on is a window. */
  lemma WindowsFromStart(h: Host, k: int)
    requires Valid(h) && WindowsStart(h) <= k < |h.children|
    ensures h.children[k].Win?
  {
    NoDupIndexes(h.children);
    assert h.children[k] in h.children;
  }

  /** The window at index k, k at or after WindowsStart. */
  function WindowAt(h: Host, k: int): (w: WindowId)
    requires Valid(h) && WindowsStart(h) <= k < |h.children|
    ensures h.children[k] == Win(w) && w in h.infos
  {
    WindowsFromStart(h, k);
    h.children[k].id
  }

  /** getTopWindow: the last child when the children run past the main
      menu, else null. (The source casts that child to Window; in a valid
      host it is one, see TopWindowShown.) */
  function TopWindow(h: Host): Option<WindowId> {
    if |h.children| > WindowsStart(h) && h.children[|h.children| - 1].Win? then
      Some(h.children[|h.children| - 1].id)
    else
      None
  }

  /** In a valid host there is a top window exactly when some window is
      shown, and it is a shown window. */
  lemma TopWindowShown(h: Host)
    requires Valid(h)
    ensures TopWindow(h).None? <==> h.infos == map[]
    ensures TopWindow(h).Some? ==> TopWindow(h).value in h.infos
  {
    if |h.children| > WindowsStart(h) {
      WindowsFromStart(h, |h.children| - 1);
    }
  }

  /** isTopWindowModal: false without windows, else the top window's Modal
      flag. */
  function IsTopWindowModal(h: Host): bool
    requires Valid(h)
  {
    match TopWindow(h)
    case None => false
    case Some(t) => TopWindowShown(h); h.infos[t].modal
  }

  /** A top window is modal exactly when it was shown with ShowModal; no
      top window, no modal one. */
  lemma ModalTop(h: Host)
    requires Valid(h)
    ensures IsTopWindowModal(h) <==> h.infos != map[] && h.infos[TopWindow(h).value].modal
  {
    TopWindowShown(h);
  }

  // initializeFocusOnActivatedWindow (WindowsHost.cs:184-213)

  /** The stored focus can be restored: it is set, connected to the root,
      visible and focusable. */
  predicate StoredFocusUsable(f: FocusSetup) {
    f.storedFocus.Some? && f.storedFocus.value.connectedToRoot
      && f.storedFocus.value.visible && f.storedFocus.value.focusable
  }

  /** The focus manager call for a window just activated: each failed check
      on the stored focus sets reinitFocus, which falls back to the named
      child and then to the window as a focus scope. */
  function FocusChoice(w: WindowId, f: FocusSetup): (a: FocusAction)
    ensures a.window == w
    ensures a.RestoreStoredFocus? <==> StoredFocusUsable(f)
    ensures a.FocusNamedChild? <==> !StoredFocusUsable(f) && f.childToFocus.Some?
    ensures a.FocusNamedChild? ==> a.name == f.childToFocus.value
    ensures a.FocusWindowScope? <==> !StoredFocusUsable(f) && f.childToFocus.None?
  {
    var reinitFocus :=
      match f.storedFocus
      case None => true
      case Some(sf) =>
        if !sf.connectedToRoot then true
        else if !sf.visible then true
        else !sf.focusable;
    if !reinitFocus then RestoreStoredFocus(w)
    else if f.childToFocus.Some? then FocusNamedChild(w, f.childToFocus.value)
    else FocusWindowScope(w)
  }

  // Which window is active, as the event log tells it

  /** The window that most recently received Activated with no Deactivated
      after it, if any. */
  function ActiveWindow(log: seq<HostEvent>): Option<WindowId>
    decreases |log|
  {
    if log == [] then None
    else
      match log[|log| - 1]
      case Activated(w) => Some(w)
      case Deactivated(_) => None
      case _ => ActiveWindow(log[..|log| - 1])
  }

  /** Activated makes its window the active one, Deactivated leaves none,
      and the other entries change nothing. */
  lemma ActiveAppend(log: seq<HostEvent>, e: HostEvent)
    ensures ActiveWindow(log + [e]) ==
      match e
      case Activated(w) => Some(w)
      case Deactivated(_) => None
      case _ => ActiveWindow(log)
  {
    assert (log + [e])[..|log|] == log;
  }

  /** The invariant the host keeps together with Valid: the top window is
      the one the log shows as active, so at most one window is active and
      it is the topmost. */
  ghost predicate Consistent(h: Host) {
    Valid(h) && ActiveWindow(h.log) == TopWindow(h)
  }

  // activateWindow (WindowsHost.cs:105-123)

  /** activateWindow: a window among the children moves to the top; when it
      was not on top already, the old top is Deactivated, the window
      Activated and its focus initialised. A window that is not a child
      makes it throw before anything changes. */
  function Activate(h: Host, w: WindowId, focus: WindowId -> FocusSetup): Option<Host>
    requires Valid(h)
  {
    if Win(w) !in h.children then None
    else
      TopWindowShown(h);
      var oldTop := TopWindow(h).value;
      var cs := Rotated(h.children, Win(w));
      if oldTop == w then Some(h.(children := cs))
      else
        Some(h.(children := cs,
                log := h.log + [Deactivated(oldTop)] + [Activated(w)] + [Focus(FocusChoice(w, focus(w)))]))
  }

  /** Activating the top window changes nothing and raises nothing. */
  lemma ActivateTop(h: Host, w: WindowId, focus: WindowId -> FocusSetup)
    requires Valid(h) && TopWindow(h) == Some(w)
    ensures Activate(h, w, focus) == Some(h)
  {
    RotatedTop(h.children, Win(w));
  }

  /** Activating a window below the top one Deactivates the old top, then
      Activates the window and initialises its focus, in that order. */
  lemma ActivateBelowTop(h: Host, w: WindowId, focus: WindowId -> FocusSetup)
    requires Valid(h) && w in h.infos && TopWindow(h) != Some(w)
    ensures TopWindow(h).Some?
    ensures Activate(h, w, focus).Some?
    ensures Activate(h, w, focus).value.log
      == h.log + [Deactivated(TopWindow(h).value), Activated(w), Focus(FocusChoice(w, focus(w)))]
  {
    ActivateShown(h, w, focus);
    TopWindowShown(h);
  }

  /** Rotating a shown window to the top keeps the host valid, puts the
      window on top and keeps the order of the other children. */
  lemma RotateKeepsValid(h: Host, w: WindowId)
    requires Valid(h) && w in h.infos
    ensures var r := h.(children := Rotated(h.children, Win(w)));
      && Valid(r) && TopWindow(r) == Some(w)
      && RemoveFirst(r.children, Win(w)) == RemoveFirst(h.children, Win(w))
  {
    var cs := Rotated(h.children, Win(w));
    RotatedMembers(h.children, Win(w));
    assert |cs| == |h.children| && cs[|cs| - 1] == Win(w) && (h.mainMenu.Some? ==> cs[0] == h.children[0]) by {
      RotatedShape(h.children, Win(w));
      if h.mainMenu.Some? {
        assert IndexOf(h.children, Win(w)) != 0;
      }
    }
  }

  /** The log after activating a shown window, the old top being known. */
  function ActivateLog(h: Host, w: WindowId, focus: WindowId -> FocusSetup): seq<HostEvent> {
    if TopWindow(h) == Some(w) || TopWindow(h).None? then h.log
    else h.log + [Deactivated(TopWindow(h).value)] + [Activated(w)] + [Focus(FocusChoice(w, focus(w)))]
  }

  /** Activating a shown window rotates it to the top and writes ActivateLog. */
  lemma ActivateShown(h: Host, w: WindowId, focus: WindowId -> FocusSetup)
    requires Valid(h) && w in h.infos
    ensures Activate(h, w, focus) == Some(h.(children := Rotated(h.children, Win(w)), log := ActivateLog(h, w, focus)))
  {
    TopWindowShown(h);
  }

  /** Activating a shown window keeps the invariant, the flags and the menu,
      leaves the window on top and active, and keeps the other children in
      their order. A window that is not shown fails. */
  lemma ActivateKeepsConsistent(h: Host, w: WindowId, focus: WindowId -> FocusSetup)
    requires Consistent(h)
    ensures Activate(h, w, focus).None? <==> w !in h.infos
    ensures w in h.infos ==> var r := Activate(h, w, focus).value;
      && Consistent(r) && TopWindow(r) == Some(w)
      && r.mainMenu == h.mainMenu && r.infos == h.infos
      && RemoveFirst(r.children, Win(w)) == RemoveFirst(h.children, Win(w))
  {
    if w in h.infos {
      ActivateShown(h, w, focus);
      RotateKeepsValid(h, w);
      var l := ActivateLog(h, w, focus);
      assert ActiveWindow(l) == Some(w) by {
        TopWindowShown(h);
        if TopWindow(h) != Some(w) {
          var l0 := h.log + [Deactivated(TopWindow(h).value)];
          ActiveAppend(l0, Activated(w));
          ActiveAppend(l0 + [Activated(w)], Focus(FocusChoice(w, focus(w))));
        }
      }
    }
  }

  // showCore, Show, ShowModal (WindowsHost.cs:231-265)

  /** showCore: Deactivated on the top window if there is one, the window
      appended to the children, Activated on it, its focus initialised and
      its flags recorded. A window already recorded makes Dictionary.Add
      throw. */
  function Shown(h: Host, w: WindowId, info: Info, focus: WindowId -> FocusSetup): Option<Host> {
    if w in h.infos then None
    else
      var deactivate := match TopWindow(h) case Some(t) => [Deactivated(t)] case None => [];
      Some(h.(children := h.children + [Win(w)], infos := h.infos[w := info],
              log := h.log + deactivate + [Activated(w)] + [Focus(FocusChoice(w, focus(w)))]))
  }

  /** Showing a new window keeps the invariant and puts the window on top
      as the active one with the flags it was shown with, modal exactly when
      shown modal. Showing a window again fails. */
  lemma ShowKeepsConsistent(h: Host, w: WindowId, info: Info, focus: WindowId -> FocusSetup)
    requires Consistent(h)
    ensures Shown(h, w, info, focus).None? <==> w in h.infos
    ensures w !in h.infos ==> var r := Shown(h, w, info, focus).value;
      && Consistent(r) && TopWindow(r) == Some(w) && r.infos[w] == info
      && (IsTopWindowModal(r) <==> info.modal)
      && r.children == h.children + [Win(w)] && r.mainMenu == h.mainMenu
  {
    if w !in h.infos {
      var r := Shown(h, w, info, focus).value;
      NoDupConcat(h.children, [Win(w)]);
      assert Valid(r);
      var deactivate := match TopWindow(h) case Some(t) => [Deactivated(t)] case None => [];
      if TopWindow(h).Some? {
        ActiveAppend(h.log, Deactivated(TopWindow(h).value));
      }
      ActiveAppend(h.log + deactivate, Activated(w));
      ActiveAppend(h.log + deactivate + [Activated(w)], Focus(FocusChoice(w, focus(w))));
    }
  }

  /** Show raises Deactivated on the old top window only when a window, not
      just the menu, was there. */
  lemma ShowDeactivatesTop(h: Host, w: WindowId, info: Info, focus: WindowId -> FocusSetup)
    requires Valid(h) && w !in h.infos
    ensures var l := Shown(h, w, info, focus).value.log;
      && (h.infos == map[] ==> l == h.log + [Activated(w), Focus(FocusChoice(w, focus(w)))])
      && (h.infos != map[] ==> l == h.log + [Deactivated(TopWindow(h).value), Activated(w), Focus(FocusChoice(w, focus(w)))])
  {
    TopWindowShown(h);
  }

  // CloseWindow (WindowsHost.cs:270-290)

  /** CloseWindow: the window leaves windowInfos and the children, and gets
      Deactivated and then Closed; when a window remains, the last child is
      Activated and its focus initialised, whether or not the closed window
      was on top. Closing a window that is not shown fails. */
  function Close(h: Host, w: WindowId, focus: WindowId -> FocusSetup): Option<Host> {
    if w !in h.infos then None
    else
      var h1 := h.(children := RemoveFirst(h.children, Win(w)), infos := h.infos - {w},
                   log := h.log + [Deactivated(w)] + [Closed(w)]);
      Some(h1.(log := h1.log + Reactivated(h1, focus)))
  }

  /** What CloseWindow raises once the window is gone: Activated on the
      window left on top, and its focus initialised; nothing when no window
      is left. */
  function Reactivated(h: Host, focus: WindowId -> FocusSetup): seq<HostEvent> {
    match TopWindow(h)
    case Some(top) => [Activated(top), Focus(FocusChoice(top, focus(top)))]
    case None => []
  }

  /** Dropping a shown window from both the children and windowInfos keeps
      the host valid. */
  lemma RemoveWindowValid(h: Host, w: WindowId)
    requires Valid(h) && w in h.infos
    ensures Valid(h.(children := RemoveFirst(h.children, Win(w)), infos := h.infos - {w}))
  {
    RemoveFirstNoDup(h.children, Win(w));
    if h.mainMenu.Some? {
      RemoveFirstKeepsFront(h.children, Win(w));
    }
  }

  /** After a log with no active window, Reactivated makes the top window,
      if any, the active one. */
  lemma ReactivatedActive(l: seq<HostEvent>, h: Host, focus: WindowId -> FocusSetup)
    requires ActiveWindow(l).None?
    ensures ActiveWindow(l + Reactivated(h, focus)) == TopWindow(h)
  {
    if TopWindow(h).Some? {
      var t := TopWindow(h).value;
      ActiveAppend(l, Activated(t));
      ActiveAppend(l + [Activated(t)], Focus(FocusChoice(t, focus(t))));
      assert l + [Activated(t)] + [Focus(FocusChoice(t, focus(t)))] == l + Reactivated(h, focus);
    } else {
      assert l + Reactivated(h, focus) == l;
    }
  }

  /** Closing a shown window of a valid host leaves a valid host without
      the window, in windowInfos or among the children, and with every
      other child. */
  lemma CloseKeepsValid(h: Host, w: WindowId, focus: WindowId -> FocusSetup)
    requires Valid(h) && w in h.infos
    ensures Close(h, w, focus).Some?
    ensures var r := Close(h, w, focus).value;
      && Valid(r) && r.mainMenu == h.mainMenu && r.infos == h.infos - {w}
      && (forall n :: n in r.children <==> n in h.children && n != Win(w))
  {
    RemoveWindowValid(h, w);
    RemoveFirstNoDup(h.children, Win(w));
  }

  /** Closing keeps the invariant and the menu; the window is gone from
      windowInfos and from the children, whose other members stay, and the
      window left on top, if any, is the active one. Closing a window that
      is not shown fails. */
  lemma CloseKeepsConsistent(h: Host, w: WindowId, focus: WindowId -> FocusSetup)
    requires Consistent(h)
    ensures Close(h, w, focus).None? <==> w !in h.infos
    ensures w in h.infos ==> var r := Close(h, w, focus).value;
      && Consistent(r) && r.mainMenu == h.mainMenu
      && r.infos == h.infos - {w} && Win(w) !in r.children
      && (forall n :: n in r.children <==> n in h.children && n != Win(w))
  {
    if w in h.infos {
      CloseKeepsValid(h, w, focus);
      var l1 := h.log + [Deactivated(w)];
      ActiveAppend(h.log, Deactivated(w));
      ActiveAppend(l1, Closed(w));
      var h1 := h.(children := RemoveFirst(h.children, Win(w)), infos := h.infos - {w}, log := l1 + [Closed(w)]);
      ReactivatedActive(h1.log, h1, focus);
    }
  }

  /** Closing a window below the top one leaves the same window on top and
      raises Activated on it again. */
  lemma CloseBelowTop(h: Host, w: WindowId, focus: WindowId -> FocusSetup)
    requires Valid(h) && w in h.infos && TopWindow(h).Some? && TopWindow(h).value != w
    ensures var t := TopWindow(h).value;
      && TopWindow(Close(h, w, focus).value) == Some(t)
      && Close(h, w, focus).value.log
         == h.log + [Deactivated(w), Closed(w), Activated(t), Focus(FocusChoice(t, focus(t)))]
  {
    var cs := RemoveFirst(h.children, Win(w));
    var k := IndexOf(h.children, Win(w));
    assert k != |h.children| - 1;
    assert cs == h.children[..k] + h.children[k + 1..];
    if h.mainMenu.Some? {
      assert k != 0;
    }
  }

  /** What closing a shown window does to the menu, the children and
      windowInfos. */
  lemma CloseShape(h: Host, w: WindowId, focus: WindowId -> FocusSetup)
    requires w in h.infos
    ensures var c := Close(h, w, focus).value;
      c.mainMenu == h.mainMenu && c.children == RemoveFirst(h.children, Win(w)) && c.infos == h.infos - {w}
  {
  }

  /** Showing a new window and closing it again restores the children and
      windowInfos and leaves the earlier top window on top. */
  lemma ShowThenClose(h: Host, w: WindowId, info: Info, focus: WindowId -> FocusSetup)
    requires Win(w) !in h.children && w !in h.infos
    ensures var c := Close(Shown(h, w, info, focus).value, w, focus).value;
      c.children == h.children && c.infos == h.infos && TopWindow(c) == TopWindow(h)
  {
    var s1 := Shown(h, w, info, focus).value;
    assert s1.mainMenu == h.mainMenu && s1.children == h.children + [Win(w)] && s1.infos == h.infos[w := info];
    var c := Close(s1, w, focus).value;
    CloseShape(s1, w, focus);
    assert c.children == h.children by {
      RemoveFirstAppend(h.children, Win(w));
    }
    MapAddRemove(h.infos, w, info);
  }

  // MainMenu setter (WindowsHost.cs:19-33)

  /** The MainMenu setter: when the value differs, the old menu leaves the
      children, the new one is inserted at index 0, and the field is set. */
  function WithMainMenu(h: Host, value: Option<MenuId>): Host {
    if h.mainMenu == value then h
    else
      var rest := if h.mainMenu.Some? then RemoveFirst(h.children, MenuNode(h.mainMenu.value)) else h.children;
      var cs := if value.Some? then InsertAt(rest, 0, MenuNode(value.value)) else rest;
      h.(mainMenu := value, children := cs)
  }

  /** Every child from WindowsStart on is a window, and those children have
      no duplicates. */
  lemma WindowsPart(h: Host)
    requires Valid(h)
    ensures forall n | n in h.children[WindowsStart(h)..] :: n.Win?
    ensures NoDup(h.children[WindowsStart(h)..])
    ensures forall w :: Win(w) in h.children <==> Win(w) in h.children[WindowsStart(h)..]
  {
    var s := WindowsStart(h);
    assert h.children == h.children[..s] + h.children[s..];
    NoDupConcat(h.children[..s], h.children[s..]);
    forall j | 0 <= j < |h.children| - s ensures h.children[s..][j].Win? {
      WindowsFromStart(h, s + j);
    }
  }

  /** Two hosts with the same windows in the same order have the same top
      window. */
  lemma SameWindowsSameTop(a: Host, b: Host)
    requires WindowsStart(a) <= |a.children| && WindowsStart(b) <= |b.children|
    requires a.children[WindowsStart(a)..] == b.children[WindowsStart(b)..]
    ensures TopWindow(a) == TopWindow(b)
  {
    assert |a.children| - WindowsStart(a) == |b.children| - WindowsStart(b);
    if |a.children| > WindowsStart(a) {
      assert a.children[|a.children| - 1] == a.children[WindowsStart(a)..][|a.children| - 1 - WindowsStart(a)];
      assert b.children[|b.children| - 1] == b.children[WindowsStart(b)..][|b.children| - 1 - WindowsStart(b)];
    }
  }

  /** A menu, if any, in front of distinct windows that are exactly the
      shown ones makes a valid host. */
  lemma MenuOverWindowsValid(h: Host, value: Option<MenuId>, rest: seq<Node>)
    requires NoDup(rest) && (forall n | n in rest :: n.Win? && n.id in h.infos)
    requires forall w | w in h.infos :: Win(w) in rest
    ensures Valid(h.(mainMenu := value, children := if value.Some? then [MenuNode(value.value)] + rest else rest))
  {
    if value.Some? {
      NoDupConcat([MenuNode(value.value)], rest);
    }
  }

  /** Setting the main menu keeps the invariant, windowInfos and the log;
      the new menu, if any, is at index 0 and the windows keep their order,
      so the top window stays. Setting the current value changes nothing. */
  lemma WithMainMenuKeepsConsistent(h: Host, value: Option<MenuId>)
    requires Consistent(h)
    ensures var r := WithMainMenu(h, value);
      && Consistent(r) && r.mainMenu == value && r.infos == h.infos && r.log == h.log
      && r.children[WindowsStart(r)..] == h.children[WindowsStart(h)..]
      && TopWindow(r) == TopWindow(h)
    ensures value == h.mainMenu ==> WithMainMenu(h, value) == h
  {
    var r := WithMainMenu(h, value);
    if h.mainMenu != value {
      var rest := h.children[WindowsStart(h)..];
      assert r.children == (if value.Some? then [MenuNode(value.value)] + rest else rest) by {
        if h.mainMenu.Some? {
          RemoveFirstFront(h.children);
        }
        if value.Some? {
          InsertAtFront(rest, MenuNode(value.value));
        }
      }
      assert Valid(r) by {
        WindowsPart(h);
        MenuOverWindowsValid(h, value, rest);
      }
      assert r.children[WindowsStart(r)..] == rest;
    }
    SameWindowsSameTop(r, h);
  }

  // OnPreviewMouseDown and activateMenu (WindowsHost.cs:143-182)

  /** What the visual tree says about the click source: its closest Window
      ancestor and whether it has a Menu ancestor. */
  datatype ClickTarget = ClickTarget(window: Option<WindowId>, menuAncestor: bool)

  /** The host after a mouse-down, and whether args.Handled was set; or
      the host at the point where activateWindow or activateMenu failed. */
  datatype ClickOutcome = Clicked(host: Host, handled: bool) | ClickFailed(host: Host)

  /** activateMenu: the main menu becomes the focus scope unless it already
      is; its assertion fails without a main menu. */
  function MenuActivated(h: Host, menuIsScope: bool): (r: Option<Host>)
    ensures r.None? <==> h.mainMenu.None?
    ensures r.Some? ==> r.value.children == h.children && r.value.infos == h.infos
    ensures r.Some? && menuIsScope ==> r.value == h
    ensures r.Some? && !menuIsScope ==> r.value.log == h.log + [MenuFocusScope(h.mainMenu.value)]
  {
    if h.mainMenu.None? then None
    else if menuIsScope then Some(h)
    else Some(h.(log := h.log + [MenuFocusScope(h.mainMenu.value)]))
  }

  /** The activation step of the handler: the clicked window is activated;
      without one, a Menu ancestor activates the menu. */
  function ActivateClicked(h: Host, t: ClickTarget, menuIsScope: bool, focus: WindowId -> FocusSetup): ClickOutcome
    requires Valid(h)
  {
    if t.window.Some? then
      match Activate(h, t.window.value, focus)
      case None => ClickFailed(h)
      case Some(h1) => Clicked(h1, false)
    else if t.menuAncestor then
      match MenuActivated(h, menuIsScope)
      case None => ClickFailed(h)
      case Some(h1) => Clicked(h1, false)
    else Clicked(h, false)
  }

  /** OnPreviewMouseDown: under a modal top window a click whose closest
      window is another one (or none) is either swallowed by setting
      Handled, or closes the modal window and goes on to activation; a click
      inside the modal window does nothing; without a modal top window the
      click goes to activation. */
  function PreviewMouseDown(h: Host, t: ClickTarget, menuIsScope: bool, focus: WindowId -> FocusSetup): ClickOutcome
    requires Valid(h)
  {
    if IsTopWindowModal(h) then
      var modal := TopWindow(h).value;
      if t.window == Some(modal) then Clicked(h, false)
      else if h.infos[modal].outsideClickClosesWindow then
        CloseKeepsValid(h, modal, focus);
        ActivateClicked(Close(h, modal, focus).value, t, menuIsScope, focus)
      else Clicked(h, true)
    else ActivateClicked(h, t, menuIsScope, focus)
  }

  /** A click outside a modal window that does not close on such clicks
      changes nothing and is marked handled. */
  lemma ModalSwallowsClick(h: Host, t: ClickTarget, menuIsScope: bool, focus: WindowId -> FocusSetup)
    requires Valid(h) && IsTopWindowModal(h) && t.window != TopWindow(h)
    requires !h.infos[TopWindow(h).value].outsideClickClosesWindow
    ensures PreviewMouseDown(h, t, menuIsScope, focus) == Clicked(h, true)
  {
  }

  /** A click outside a modal window that closes on such clicks closes it,
      whatever the activation then does, and is not marked handled. */
  lemma ModalClosesOnOutsideClick(h: Host, t: ClickTarget, menuIsScope: bool, focus: WindowId -> FocusSetup)
    requires Valid(h) && IsTopWindowModal(h) && t.window != TopWindow(h)
    requires h.infos[TopWindow(h).value].outsideClickClosesWindow
    ensures var r := PreviewMouseDown(h, t, menuIsScope, focus);
      && TopWindow(h).value !in r.host.infos && Win(TopWindow(h).value) !in r.host.children
      && (r.Clicked? ==> !r.handled)
  {
    var modal := TopWindow(h).value;
    TopWindowShown(h);
    CloseKeepsValid(h, modal, focus);
    ActivateClickedKeepsMembers(Close(h, modal, focus).value, t, menuIsScope, focus);
  }

  /** A click inside the modal top window changes nothing. */
  lemma ClickInsideModal(h: Host, t: ClickTarget, menuIsScope: bool, focus: WindowId -> FocusSetup)
    requires Valid(h) && IsTopWindowModal(h) && t.window == TopWindow(h)
    ensures PreviewMouseDown(h, t, menuIsScope, focus) == Clicked(h, false)
  {
  }

  /** Without a modal top window a click on a shown window activates it. */
  lemma ClickActivates(h: Host, w: WindowId, menuAncestor: bool, menuIsScope: bool, focus: WindowId -> FocusSetup)
    requires Valid(h) && !IsTopWindowModal(h) && w in h.infos
    ensures PreviewMouseDown(h, ClickTarget(Some(w), menuAncestor), menuIsScope, focus)
      == Clicked(Activate(h, w, focus).value, false)
  {
  }

  /** The activation step keeps windowInfos and which children there are,
      and never marks the click handled. */
  lemma ActivateClickedKeepsMembers(h: Host, t: ClickTarget, menuIsScope: bool, focus: WindowId -> FocusSetup)
    requires Valid(h)
    ensures var r := ActivateClicked(h, t, menuIsScope, focus);
      && r.host.infos == h.infos && (forall n :: n in r.host.children <==> n in h.children)
      && (r.Clicked? ==> !r.handled)
  {
    if t.window.Some? && t.window.value in h.infos {
      ActivateShown(h, t.window.value, focus);
      RotatedMembers(h.children, Win(t.window.value));
    }
  }

  /** The activation step keeps the invariant. */
  lemma ActivateClickedKeepsConsistent(h: Host, t: ClickTarget, menuIsScope: bool, focus: WindowId -> FocusSetup)
    requires Consistent(h)
    ensures Consistent(ActivateClicked(h, t, menuIsScope, focus).host)
  {
    if t.window.Some? {
      ActivateKeepsConsistent(h, t.window.value, focus);
    } else if t.menuAncestor && h.mainMenu.Some? && !menuIsScope {
      ActiveAppend(h.log, MenuFocusScope(h.mainMenu.value));
    }
  }

  /** The handler keeps the invariant, whatever the click, and never marks
      a click handled unless it swallowed it. */
  lemma ClickKeepsConsistent(h: Host, t: ClickTarget, menuIsScope: bool, focus: WindowId -> FocusSetup)
    requires Consistent(h)
    ensures Consistent(PreviewMouseDown(h, t, menuIsScope, focus).host)
    ensures var r := PreviewMouseDown(h, t, menuIsScope, focus);
      r.Clicked? && r.handled ==> r.host == h
  {
    if IsTopWindowModal(h) {
      var modal := TopWindow(h).value;
      TopWindowShown(h);
      if t.window != Some(modal) && h.infos[modal].outsideClickClosesWindow {
        CloseKeepsConsistent(h, modal, focus);
        var c := Close(h, modal, focus).value;
        ActivateClickedKeepsConsistent(c, t, menuIsScope, focus);
        ActivateClickedKeepsMembers(c, t, menuIsScope, focus);
      }
    } else {
      ActivateClickedKeepsConsistent(h, t, menuIsScope, focus);
      ActivateClickedKeepsMembers(h, t, menuIsScope, focus);
    }
  }

  // ArrangeOverride (WindowsHost.cs:68-94)

  datatype Size = Size(width: int, height: int)
  datatype Rect = Rect(x: int, y: int, width: int, height: int)

  /** A window's X and Y (unset when null) and its DesiredSize. */
  datatype WindowLayout = WindowLayout(x: Option<int>, y: Option<int>, desired: Size)

  /** C#'s integer division by two, which truncates toward zero: the
      remainder has the sign of n. */
  function TruncHalf(n: int): (r: int)
    ensures 0 <= n ==> 0 <= n - 2 * r <= 1
    ensures n < 0 ==> -1 <= n - 2 * r <= 0
  {
    if n >= 0 then n / 2 else -((-n) / 2)
  }

  /** Where a window goes in the final size: at its X and Y where set,
      centred otherwise, with its desired size. */
  function Placement(finalSize: Size, l: WindowLayout): Rect {
    Rect(if l.x.Some? then l.x.value else TruncHalf(finalSize.width - l.desired.width),
         if l.y.Some? then l.y.value else TruncHalf(finalSize.height - l.desired.height),
         l.desired.width, l.desired.height)
  }

  /** A window without X is centred across the width: when it fits, the
      space right of it equals the space left of it or is one cell more;
      when it does not fit, it overhangs on the right by as much as on the
      left or by one cell more. Likewise down the height without Y. */
  lemma PlacementCentred(finalSize: Size, l: WindowLayout)
    ensures var p := Placement(finalSize, l);
      var right := finalSize.width - (p.x + p.width);
      var below := finalSize.height - (p.y + p.height);
      && p.width == l.desired.width && p.height == l.desired.height
      && (l.x.Some? ==> p.x == l.x.value)
      && (l.x.None? && l.desired.width <= finalSize.width ==> 0 <= p.x <= right <= p.x + 1)
      && (l.x.None? && finalSize.width < l.desired.width ==> p.x - 1 <= right <= p.x <= 0)
      && (l.y.Some? ==> p.y == l.y.value)
      && (l.y.None? && l.desired.height <= finalSize.height ==> 0 <= p.y <= below <= p.y + 1)
      && (l.y.None? && finalSize.height < l.desired.height ==> p.y - 1 <= below <= p.y <= 0)
  {
  }

  // FindWindowsHostParent (WindowsHost.cs:296-302)

  /** FindWindowsHostParent: the parent walk from a control to the first
      WindowsHost. `chain` is the control followed by its ancestors up to
      the root (empty for a null control); the result is the index of the
      first host on it, or -1 for null. */
  method FindWindowsHostParent(chain: seq<ControlId>, hosts: set<ControlId>) returns (k: int)
    ensures -1 <= k < |chain|
    ensures k == -1 <==> forall j | 0 <= j < |chain| :: chain[j] !in hosts
    ensures 0 <= k ==> chain[k] in hosts && forall j | 0 <= j < k :: chain[j] !in hosts
  {
    var i := 0;
    while i < |chain| && chain[i] !in hosts
      invariant 0 <= i <= |chain|
      invariant forall j | 0 <= j < i :: chain[j] !in hosts
    {
      i := i + 1;
    }
    k := if i < |chain| then i else -1;
  }

  /** The host object: the main menu field, the Children list, the
      windowInfos dictionary, and the log of what it raised. */
  class WindowsHost {
    var mainMenu: Option<MenuId>
    var children: seq<Node>
    var infos: map<WindowId, Info>
    var log: seq<HostEvent>

    function State(): Host
      reads this
    {
      Host(mainMenu, children, infos, log)
    }

    /** The object's invariant: its fields, read as a Host, are Consistent
        (which includes the module's Valid). */
    ghost predicate Invariant()
      reads this
    {
      Consistent(State())
    }

    constructor()
      ensures Invariant() && State() == Host(None, [], map[], [])
    {
      mainMenu := None;
      children := [];
      infos := map[];
      log := [];
    }

    /** The MainMenu setter. */
    method SetMainMenu(value: Option<MenuId>)
      requires Invariant()
      modifies this
      ensures Invariant() && State() == WithMainMenu(old(State()), value)
    {
      if mainMenu != value {
        if mainMenu.Some? {
          children := RemoveFirst(children, MenuNode(mainMenu.value));
        }
        if value.Some? {
          children := InsertAt(children, 0, MenuNode(value.value));
        }
        mainMenu := value;
      }
      WithMainMenuKeepsConsistent(old(State()), value);
    }

    /** The shifting loop of activateWindow: the children behind `index`
        move one place down and x, found at `index`, goes last. */
    method MoveToTop(x: Node, index: int)
      requires 0 <= index && index == IndexOf(children, x)
      modifies this
      ensures children == Rotated(old(children), x)
      ensures mainMenu == old(mainMenu) && infos == old(infos) && log == old(log)
    {
      ghost var c0 := children;
      var i := index;
      while i < |children| - 1
        invariant index <= i <= |c0| - 1 && |children| == |c0|
        invariant forall j | 0 <= j < index :: children[j] == c0[j]
        invariant forall j | index <= j < i :: children[j] == c0[j + 1]
        invariant forall j | i <= j < |c0| :: children[j] == c0[j]
        invariant mainMenu == old(mainMenu) && infos == old(infos) && log == old(log)
      {
        children := children[i := children[i + 1]];
        i := i + 1;
      }
      children := children[|children| - 1 := x];
      RotatedShape(c0, x);
    }

    /** activateWindow; `ok` is false where the source throws
        InvalidOperationException. */
    method ActivateWindow(w: WindowId, focus: WindowId -> FocusSetup) returns (ok: bool)
      requires Invariant()
      modifies this
      ensures Invariant() && ok == (w in old(infos))
      ensures ok ==> State() == Activate(old(State()), w, focus).value
      ensures !ok ==> State() == old(State())
    {
      var index := IndexOf(children, Win(w));
      if index == -1 {
        return false;
      }
      TopWindowShown(State());
      var oldTop := TopWindow(State()).value;
      MoveToTop(Win(w), index);
      if oldTop != w {
        log := log + [Deactivated(oldTop)];
        log := log + [Activated(w)];
        log := log + [Focus(FocusChoice(w, focus(w)))];
      }
      ok := true;
      assert State() == Activate(old(State()), w, focus).value;
      ActivateKeepsConsistent(old(State()), w, focus);
    }

    /** showCore; `ok` is false where Dictionary.Add throws. */
    method ShowCore(w: WindowId, modal: bool, outsideClickClosesWindow: bool, focus: WindowId -> FocusSetup)
      returns (ok: bool)
      requires Invariant()
      modifies this
      ensures Invariant() && ok == (w !in old(infos))
      ensures ok ==> State() == Shown(old(State()), w, Info(modal, outsideClickClosesWindow), focus).value
      ensures !ok ==> State() == old(State())
    {
      if w in infos {
        return false;
      }
      var top := TopWindow(State());
      if top.Some? {
        log := log + [Deactivated(top.value)];
      }
      children := children + [Win(w)];
      log := log + [Activated(w)];
      log := log + [Focus(FocusChoice(w, focus(w)))];
      infos := infos[w := Info(modal, outsideClickClosesWindow)];
      ok := true;
      assert State() == Shown(old(State()), w, Info(modal, outsideClickClosesWindow), focus).value;
      ShowKeepsConsistent(old(State()), w, Info(modal, outsideClickClosesWindow), focus);
    }

    /** Show: a window that is neither modal nor closed by outside clicks. */
    method Show(w: WindowId, focus: WindowId -> FocusSetup) returns (ok: bool)
      requires Invariant()
      modifies this
      ensures Invariant() && ok == (w !in old(infos))
      ensures ok ==> State() == Shown(old(State()), w, Info(false, false), focus).value
      ensures ok ==> TopWindow(State()) == Some(w) && !IsTopWindowModal(State())
      ensures !ok ==> State() == old(State())
    {
      ok := ShowCore(w, false, false, focus);
      if ok {
        ShowKeepsConsistent(old(State()), w, Info(false, false), focus);
      }
    }

    /** ShowModal: a modal window, closed by outside clicks when asked. */
    method ShowModal(w: WindowId, outsideClickWillCloseWindow: bool, focus: WindowId -> FocusSetup) returns (ok: bool)
      requires Invariant()
      modifies this
      ensures Invariant() && ok == (w !in old(infos))
      ensures ok ==> State() == Shown(old(State()), w, Info(true, outsideClickWillCloseWindow), focus).value
      ensures ok ==> TopWindow(State()) == Some(w) && IsTopWindowModal(State())
      ensures !ok ==> State() == old(State())
    {
      ok := ShowCore(w, true, outsideClickWillCloseWindow, focus);
      if ok {
        ShowKeepsConsistent(old(State()), w, Info(true, outsideClickWillCloseWindow), focus);
      }
    }

    /** The first half of CloseWindow: the window leaves windowInfos and
        the children, and is Deactivated and then Closed. */
    method Unlist(w: WindowId)
      modifies this
      ensures mainMenu == old(mainMenu) && infos == old(infos) - {w}
      ensures children == RemoveFirst(old(children), Win(w))
      ensures log == old(log) + [Deactivated(w)] + [Closed(w)]
    {
      infos := infos - {w};
      log := log + [Deactivated(w)];
      children := RemoveFirst(children, Win(w));
      log := log + [Closed(w)];
    }

    /** CloseWindow; `ok` is false for a window that is not shown. */
    method CloseWindow(w: WindowId, focus: WindowId -> FocusSetup) returns (ok: bool)
      requires Invariant()
      modifies this
      ensures Invariant() && ok == (w in old(infos))
      ensures ok ==> State() == Close(old(State()), w, focus).value
      ensures !ok ==> State() == old(State())
    {
      if w !in infos {
        return false;
      }
      ghost var h0 := State();
      Unlist(w);
      ghost var h1 := State();
      var top := TopWindow(State());
      if top.Some? {
        log := log + [Activated(top.value), Focus(FocusChoice(top.value, focus(top.value)))];
      } else {
        assert log == log + Reactivated(h1, focus);
      }
      ok := true;
      assert Close(h0, w, focus) == Some(h1.(log := h1.log + Reactivated(h1, focus)));
      CloseKeepsConsistent(h0, w, focus);
    }

    /** activateMenu; `ok` is false where its assertion fails. */
    method ActivateMenu(menuIsScope: bool) returns (ok: bool)
      requires Invariant()
      modifies this
      ensures Invariant() && ok == old(mainMenu).Some?
      ensures ok ==> State() == MenuActivated(old(State()), menuIsScope).value
      ensures !ok ==> State() == old(State())
    {
      if mainMenu.None? {
        return false;
      }
      if !menuIsScope {
        log := log + [MenuFocusScope(mainMenu.value)];
        ActiveAppend(old(log), MenuFocusScope(mainMenu.value));
      }
      ok := true;
    }

    /** OnPreviewMouseDown; `handled` is args.Handled, `ok` is false where
        activateWindow or activateMenu fails. */
    method OnPreviewMouseDown(t: ClickTarget, menuIsScope: bool, focus: WindowId -> FocusSetup)
      returns (handled: bool, ok: bool)
      requires Invariant()
      modifies this
      ensures Invariant()
      ensures var r := PreviewMouseDown(old(State()), t, menuIsScope, focus);
        State() == r.host && ok == r.Clicked? && (ok ==> handled == r.handled)
    {
      ghost var h0 := State();
      handled := false;
      ok := true;
      var handle := false;
      if IsTopWindowModal(State()) {
        TopWindowShown(State());
        var modal := TopWindow(State()).value;
        if t.window != Some(modal) {
          if infos[modal].outsideClickClosesWindow {
            var closed := CloseWindow(modal, focus);
            handle := true;
          } else {
            handled := true;
          }
        }
      } else {
        handle := true;
      }
      assert handle ==> PreviewMouseDown(h0, t, menuIsScope, focus) == ActivateClicked(State(), t, menuIsScope, focus);
      if handle {
        if t.window.Some? {
          ok := ActivateWindow(t.window.value, focus);
        } else if t.menuAncestor {
          ok := ActivateMenu(menuIsScope);
        }
      }
    }

    /** ArrangeOverride: the menu gets the top row, every window its
        placement, in child order. */
    method ArrangeOverride(finalSize: Size, layout: WindowId -> WindowLayout) returns (menuRect: Option<Rect>, rects: seq<Rect>)
      requires Invariant()
      ensures menuRect == if mainMenu.Some? then Some(Rect(0, 0, finalSize.width, 1)) else None
      ensures |rects| == |children| - WindowsStart(State())
      ensures forall j | 0 <= j < |rects| ::
        rects[j] == Placement(finalSize, layout(WindowAt(State(), WindowsStart(State()) + j)))
    {
      var start := 0;
      menuRect := None;
      if mainMenu.Some? {
        menuRect := Some(Rect(0, 0, finalSize.width, 1));
        start := start + 1;
      }
      rects := [];
      var index := start;
      while index < |children|
        invariant start <= index <= |children|
        invariant |rects| == index - start
        invariant forall j | 0 <= j < |rects| ::
          rects[j] == Placement(finalSize, layout(WindowAt(State(), start + j)))
      {
        var window := layout(WindowAt(State(), index));
        var x := if window.x.Some? then window.x.value else TruncHalf(finalSize.width - window.desired.width);
        var y := if window.y.Some? then window.y.value else TruncHalf(finalSize.height - window.desired.height);
        rects := rects + [Rect(x, y, window.desired.width, window.desired.height)];
        index := index + 1;
      }
    }
  }
}
