/** The menu reducer: given an application action and the current application state, it keeps
    the list of recently closed tabs and the focused frame's location, and tells the native menu
    when to rebuild. The state it is given is returned unchanged; what changes is the reducer's
    own module-level bookkeeping, modelled here by the class `MenuState`. */
module MenuReducer {
  import opened JsValues
  import opened OrderedMaps

  /** A frame as the reducer sees it: its `location` and the properties it stores untouched. */
  datatype Frame = Frame(location: Option<string>, props: map<string, Value>)

  /** A tab record: its `url`, whether it is `incognito`, and its `frame`, which may be missing. */
  datatype Tab = Tab(url: string, incognito: bool, frame: Option<Frame>)

  /** The parts of the application state the reducer reads. `tabs` answers `getByTabId`,
      `framesByTabId` answers `frameStateUtil.getFrameByTabId`; the two clear-browsing-data
      entries are absent when the state has no such key. */
  datatype AppState = AppState(
    tabs: map<int, Tab>,
    framesByTabId: map<int, Frame>,
    clearBrowsingDataDefaults: Option<map<string, Value>>,
    tempClearBrowsingData: Option<map<string, Value>>)

  /** Answers of code outside this file: `frameStateUtil.isValidClosedFrame`,
      `isCurrentLocationBookmarked(state)`, and the labels `menuUtil.getMenuItem` finds in the
      application menu. */
  datatype Collaborators = Collaborators(
    isValidClosedFrame: Frame -> bool,
    isCurrentLocationBookmarked: bool,
    appMenuLabels: set<string>)

  /** The eight bookmark actions that all rebuild the menu. */
  datatype BookmarkActionType =
    | AddBookmark | EditBookmark | MoveBookmark | RemoveBookmark
    | AddBookmarkFolder | MoveBookmarkFolder | EditBookmarkFolder | RemoveBookmarkFolder

  /** The setting key of an `APP_CHANGE_SETTING` action. */
  datatype Setting = ShowBookmarksToolbar | OtherSetting(name: string)

  /** The actions the reducer distinguishes, with the fields it reads from each. */
  datatype Action =
    | AppSetState
    | WindowSetFocusedFrame(tabId: int)
    | AppChangeSetting(key: Setting, value: Value)
    | WindowUndoClosedFrame
    | WindowClearClosedFrames(location: Option<string>)
    | AppTabCloseRequested(closedTabId: Option<int>)
    | BookmarkAction(kind: BookmarkActionType)
    | AppOnClearBrowsingData
    | WindowClickMenubarSubmenu(menuLabel: string)
    | OtherAction(actionType: string)

  /** Calls into the native menu that a reducer step makes. Labels are translation keys. */
  datatype Effect =
    | CreateMenu
    | UpdateRecentlyClosedMenuItems
    | SetMenuItemChecked(menuLabel: string, checked: Value)
    | ClickMenuItem(menuLabel: string)

  /** The recently-closed-tabs bookkeeping: closed frames keyed by tab URL, oldest first,
      and the URL that undo reopens next. */
  datatype RecentlyClosed = RecentlyClosed(closedFrames: OrderedMap<string, Frame>, lastClosedUrl: Option<string>)

  const BookmarkPageLabel := "bookmarkPage"
  const BookmarksToolbarLabel := "bookmarksToolbar"
  const BrowserHistory := "browserHistory"

  function GetByTabId(state: AppState, tabId: int): Option<Tab> {
    if tabId in state.tabs then Some(state.tabs[tabId]) else None
  }

  /** The (url, frame) entry that closing tab `tabId` records, or None when the tab does not qualify:
      a falsy id, no such tab, an incognito tab, no frame, or a frame that is not a valid closed frame. */
  function ClosedEntry(state: AppState, tabId: Option<int>, isValidClosedFrame: Frame -> bool): Option<(string, Frame)> {
    if !TruthyNumber(tabId) then None
    else match GetByTabId(state, tabId.value)
      case None => None
      case Some(tab) =>
        if !tab.incognito && tab.frame.Some? && isValidClosedFrame(tab.frame.value)
        then Some((tab.url, tab.frame.value))
        else None
  }

  /** The bookkeeping after `APP_TAB_CLOSE_REQUESTED` recorded `entry` (nothing when None). */
  function AfterTabClose(h: RecentlyClosed, entry: Option<(string, Frame)>): RecentlyClosed {
    match entry
    case None => h
    case Some((url, frame)) => RecentlyClosed(Set(h.closedFrames, url, frame), Some(url))
  }

  /** The bookkeeping after `WINDOW_UNDO_CLOSED_FRAME`. */
  function AfterUndo(h: RecentlyClosed): RecentlyClosed {
    if !TruthyString(h.lastClosedUrl) then h
    else
      var closedFrames := Delete(h.closedFrames, h.lastClosedUrl.value);
      var nextLastFrame := Last(closedFrames);
      RecentlyClosed(closedFrames, if nextLastFrame.Some? then nextLastFrame.value.location else None)
  }

  /** The bookkeeping after `WINDOW_CLEAR_CLOSED_FRAMES` with the action's `location`. */
  function AfterClear(h: RecentlyClosed, location: Option<string>): RecentlyClosed {
    if !TruthyString(location) then RecentlyClosed([], None)
    else RecentlyClosed(Delete(h.closedFrames, location.value),
                        if h.lastClosedUrl == location then None else h.lastClosedUrl)
  }

  /** The bookkeeping after any action. */
  function NextHistory(h: RecentlyClosed, state: AppState, action: Action, isValidClosedFrame: Frame -> bool): RecentlyClosed {
    match action
    case WindowUndoClosedFrame => AfterUndo(h)
    case WindowClearClosedFrames(location) => AfterClear(h, location)
    case AppTabCloseRequested(tabId) => AfterTabClose(h, ClosedEntry(state, tabId, isValidClosedFrame))
    case _ => h
  }

  /** The clear-browsing-data choices in effect: the temporary choices (an empty map when the
      state has none) merged over the defaults, or the temporary choices alone without defaults. */
  function MergedClearData(state: AppState): (clearData: map<string, Value>)
    ensures var temp := state.tempClearBrowsingData.GetOr(map[]);
            && clearData.Keys == temp.Keys + (if state.clearBrowsingDataDefaults.Some? then state.clearBrowsingDataDefaults.value.Keys else {})
            && (forall k | k in temp :: clearData[k] == temp[k])
            && (forall k | k in clearData && k !in temp :: state.clearBrowsingDataDefaults.Some? && clearData[k] == state.clearBrowsingDataDefaults.value[k])
  {
    var temp := state.tempClearBrowsingData.GetOr(map[]);
    match state.clearBrowsingDataDefaults
    case Some(defaults) => defaults + temp
    case None => temp
  }

  /** Whether `APP_ON_CLEAR_BROWSING_DATA` rebuilds the menu: the merged `browserHistory` is truthy. */
  predicate ClearsBrowsingHistory(state: AppState) {
    var clearData := MergedClearData(state);
    BrowserHistory in clearData && Truthy(clearData[BrowserHistory])
  }

  /** The actions after which the reducer calls `createMenu`. */
  predicate RequestsMenuRebuild(action: Action, state: AppState) {
    match action
    case AppSetState => true
    case BookmarkAction(_) => true
    case AppOnClearBrowsingData => ClearsBrowsingHistory(state)
    case _ => false
  }

  /** The actions after which the reducer calls `updateRecentlyClosedMenuItems`. */
  predicate RequestsRecentlyClosedUpdate(h: RecentlyClosed, state: AppState, action: Action, isValidClosedFrame: Frame -> bool) {
    match action
    case WindowUndoClosedFrame => TruthyString(h.lastClosedUrl)
    case WindowClearClosedFrames(_) => true
    case AppTabCloseRequested(tabId) => ClosedEntry(state, tabId, isValidClosedFrame).Some?
    case _ => false
  }

  /** The reducer's module-level variables `closedFrames`, `lastClosedUrl` and `currentLocation`. */
  class MenuState {
    var closedFrames: OrderedMap<string, Frame>
    var lastClosedUrl: Option<string>
    var currentLocation: Option<string>

    /** `closedFrames` is a well-formed ordered map. */
    ghost predicate Valid()
      reads this
    {
      UniqueKeys(closedFrames)
    }

    function History(): RecentlyClosed
      reads this
    {
      RecentlyClosed(closedFrames, lastClosedUrl)
    }

    /** The state of a freshly loaded menu: no closed tabs, no location. */
    constructor ()
      ensures Valid()
      ensures closedFrames == [] && lastClosedUrl == None && currentLocation == None
    {
      closedFrames := [];
      lastClosedUrl := None;
      currentLocation := None;
    }

    /** `APP_TAB_CLOSE_REQUESTED`. */
    method TabCloseRequested(state: AppState, tabId: Option<int>, isValidClosedFrame: Frame -> bool)
      returns (effects: seq<Effect>)
      requires Valid()
      modifies this
      ensures Valid()
      ensures History() == AfterTabClose(old(History()), ClosedEntry(state, tabId, isValidClosedFrame))
      ensures currentLocation == old(currentLocation)
      ensures effects == if ClosedEntry(state, tabId, isValidClosedFrame).Some? then [UpdateRecentlyClosedMenuItems] else []
    {
      effects := [];
      if TruthyNumber(tabId) {
        var tab := GetByTabId(state, tabId.value);
        if tab.Some? && !tab.value.incognito && tab.value.frame.Some? && isValidClosedFrame(tab.value.frame.value) {
          var url, frame := tab.value.url, tab.value.frame.value;
          SetKeys(closedFrames, url, frame);
          lastClosedUrl := Some(url);
          closedFrames := Set(closedFrames, url, frame);
          effects := [UpdateRecentlyClosedMenuItems];
        }
      }
    }

    /** `WINDOW_UNDO_CLOSED_FRAME`. */
    method UndoClosedFrame() returns (effects: seq<Effect>)
      requires Valid()
      modifies this
      ensures Valid()
      ensures History() == AfterUndo(old(History()))
      ensures currentLocation == old(currentLocation)
      ensures effects == if TruthyString(old(lastClosedUrl)) then [UpdateRecentlyClosedMenuItems] else []
    {
      if !TruthyString(lastClosedUrl) {
        return [];
      }
      DeleteKeys(closedFrames, lastClosedUrl.value);
      closedFrames := Delete(closedFrames, lastClosedUrl.value);
      var nextLastFrame := Last(closedFrames);
      lastClosedUrl := if nextLastFrame.Some? then nextLastFrame.value.location else None;
      effects := [UpdateRecentlyClosedMenuItems];
    }

    /** `WINDOW_CLEAR_CLOSED_FRAMES`. */
    method ClearClosedFrames(location: Option<string>) returns (effects: seq<Effect>)
      requires Valid()
      modifies this
      ensures Valid()
      ensures History() == AfterClear(old(History()), location)
      ensures currentLocation == old(currentLocation)
      ensures effects == [UpdateRecentlyClosedMenuItems]
    {
      if !TruthyString(location) {
        closedFrames := [];
        lastClosedUrl := None;
      } else {
        DeleteKeys(closedFrames, location.value);
        closedFrames := Delete(closedFrames, location.value);
        if lastClosedUrl == location {
          lastClosedUrl := None;
        }
      }
      effects := [UpdateRecentlyClosedMenuItems];
    }

    /** `WINDOW_SET_FOCUSED_FRAME`: remembers the focused frame's location and updates the
        "Bookmark Page" checkbox. */
    method SetFocusedFrame(state: AppState, tabId: int, isCurrentLocationBookmarked: bool)
      returns (effects: seq<Effect>)
      modifies this
      ensures closedFrames == old(closedFrames) && lastClosedUrl == old(lastClosedUrl)
      ensures currentLocation == if tabId in state.framesByTabId then state.framesByTabId[tabId].location else old(currentLocation)
      ensures effects == if tabId in state.framesByTabId then [SetMenuItemChecked(BookmarkPageLabel, Bool(isCurrentLocationBookmarked))] else []
    {
      effects := [];
      if tabId in state.framesByTabId {
        var frame := state.framesByTabId[tabId];
        currentLocation := frame.location;
        effects := [SetMenuItemChecked(BookmarkPageLabel, Bool(isCurrentLocationBookmarked))];
      }
    }

    /** `doAction`: one reducer step. */
    method DoAction(state: AppState, action: Action, env: Collaborators)
      returns (result: AppState, effects: seq<Effect>)
      requires Valid()
      modifies this
      ensures Valid()
      ensures result == state
      ensures History() == NextHistory(old(History()), state, action, env.isValidClosedFrame)
      ensures currentLocation ==
                if action.WindowSetFocusedFrame? && action.tabId in state.framesByTabId
                then state.framesByTabId[action.tabId].location
                else old(currentLocation)
      ensures |effects| <= 1
      ensures (CreateMenu in effects) <==> RequestsMenuRebuild(action, state)
      ensures (UpdateRecentlyClosedMenuItems in effects) <==>
                RequestsRecentlyClosedUpdate(old(History()), state, action, env.isValidClosedFrame)
      ensures action.WindowSetFocusedFrame? ==>
                effects == if action.tabId in state.framesByTabId
                           then [SetMenuItemChecked(BookmarkPageLabel, Bool(env.isCurrentLocationBookmarked))] else []
      ensures action.AppChangeSetting? ==>
                effects == if action.key == ShowBookmarksToolbar
                           then [SetMenuItemChecked(BookmarksToolbarLabel, action.value)] else []
      ensures action.WindowClickMenubarSubmenu? ==>
                effects == if action.menuLabel in env.appMenuLabels then [ClickMenuItem(action.menuLabel)] else []
      ensures !(action.WindowSetFocusedFrame? || action.AppChangeSetting? || action.WindowClickMenubarSubmenu?) ==>
                effects == (if RequestsMenuRebuild(action, state) then [CreateMenu] else []) +
                           (if RequestsRecentlyClosedUpdate(old(History()), state, action, env.isValidClosedFrame)
                            then [UpdateRecentlyClosedMenuItems] else [])
    {
      result := state;
      effects := [];
      match action {
      case AppSetState =>
        effects := [CreateMenu];
      case WindowSetFocusedFrame(tabId) =>
        effects := SetFocusedFrame(state, tabId, env.isCurrentLocationBookmarked);
      case AppChangeSetting(key, value) =>
        if key == ShowBookmarksToolbar {
          effects := [SetMenuItemChecked(BookmarksToolbarLabel, value)];
        }
      case WindowUndoClosedFrame =>
        effects := UndoClosedFrame();
      case WindowClearClosedFrames(location) =>
        effects := ClearClosedFrames(location);
      case AppTabCloseRequested(tabId) =>
        effects := TabCloseRequested(state, tabId, env.isValidClosedFrame);
      case BookmarkAction(_) =>
        effects := [CreateMenu];
      case AppOnClearBrowsingData =>
        if ClearsBrowsingHistory(state) {
          effects := [CreateMenu];
        }
      case WindowClickMenubarSubmenu(menuLabel) =>
        if menuLabel in env.appMenuLabels {
          effects := [ClickMenuItem(menuLabel)];
        }
      case OtherAction(_) =>
      }
    }
  }

  /** A client of `DoAction`: with nothing closed, an unhandled action and an undo make no menu
      calls, and clearing browsing data without history does not rebuild the menu. */
  method QuietActions(state: AppState, env: Collaborators)
    requires !ClearsBrowsingHistory(state)
  {
    var menu := new MenuState();
    var result, effects := menu.DoAction(state, OtherAction("unknown"), env);
    assert effects == [];
    result, effects := menu.DoAction(state, WindowUndoClosedFrame, env);
    assert effects == [];
    result, effects := menu.DoAction(state, AppOnClearBrowsingData, env);
    assert effects == [];
  }
}
