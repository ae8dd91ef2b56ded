# Menu reducer: recently closed tabs

A model of the browser's menu reducer (`doAction` in `app/browser/reducers/menuReducer.js`).
The reducer gets an application action and the application state. It returns that state
unchanged. What it does change is its own module-level bookkeeping:

- `closedFrames`: an insertion-ordered map from a closed tab's URL to its frame.
- `lastClosedUrl`: the URL that undo reopens next.
- `currentLocation`: the focused frame's location.

It also tells the native menu when to rebuild.

## Files

- `js_values.dfy` (module `JsValues`): `Option`, the JavaScript values the reducer reads, and
  JavaScript truthiness. Falsy are `undefined`, `null`, `false`, `0` and the empty string.
- `ordered_maps.dfy` (module `OrderedMaps`): Immutable.js `OrderedMap` modelled as a sequence of
  (key, value) pairs. It has `set`, `delete`, `get` and `last`, and lemmas that pin down their
  meaning:
  - setting a new key appends it;
  - setting a present key replaces its value in place;
  - deleting a key keeps the order of the others;
  - keys stay unique.
- `menu_reducer.dfy` (module `MenuReducer`): the actions, the state the reducer reads, the
  native-menu calls, and the things outside this file that the reducer calls.
  - The pure functions `AfterTabClose`, `AfterUndo`, `AfterClear` and `NextHistory` say what
    each closed-frame action does to the bookkeeping.
  - `MergedClearData` and `ClearsBrowsingHistory` give the clear-browsing-data decision.
  - The class `MenuState` holds the three module-level variables. It has a method for each of
    the four actions that change them: tab close, undo, clear, and focus change. `DoAction`
    covers the whole `switch`; the other six actions are handled inline there.
  - The contracts of the three closed-frame methods and of `DoAction` tie the new bookkeeping to
    the matching pure function. `SetFocusedFrame` states the new `currentLocation` directly.
    Every method's contract says which native-menu calls are made.
  - The client method `QuietActions` shows what callers can conclude from `DoAction`'s
    contract alone: an unhandled action, an undo with nothing to undo, and clearing browsing
    data without history make no menu calls.
- `closed_frames_properties.dfy` (module `ClosedFramesProperties`): these lemmas cover what
  each closed-frame action guarantees:
  - the record / ignore conditions of a tab close;
  - the undo no-op;
  - undo removing exactly the last closed URL;
  - clearing everything or one location.

  The lemmas also prove a coherence invariant: each frame sits under its own location, and a
  truthy last closed URL names a recorded entry. Every reducer step keeps it, provided that a
  closed tab's frame has the tab's URL as its `location`. Without that proviso a single close
  already breaks it.
  Then come undo-after-close, and that undo can stall. Last comes a reference
  characterisation of the clear-browsing-data rebuild decision.

Native-menu calls (`createMenu`, `updateRecentlyClosedMenuItems`, `setMenuItemChecked`, the
menu item's `click`) are modelled as a list of `Effect` values that each method returns.

Closed tabs are kept oldest first. `OrderedMap.set` appends a new URL at the end, and `last()`
gives the next candidate. Closing a URL that is already recorded replaces its frame in place,
without moving the entry.

After an undo, the next `lastClosedUrl` is the `location` of the last remaining frame, not the
key that frame is stored under. Take a tab whose URL differs from its frame's location. An undo
right after closing it still removes its entry, because `lastClosedUrl` is then the tab's URL.
Once another tab has been closed after it, undo steps back to the frame's `location` instead of
its key. Undo then stalls with the entry still recorded; `UndoCanStall` shows such a run.

## Model

| member | source | states |
|---|---|---|
| OrderedMaps.SetSpec | app/browser/reducers/menuReducer.js:80 | `set` of a present key replaces that entry in place; `set` of a new key appends it at the end |
| OrderedMaps.SetKeys | app/browser/reducers/menuReducer.js:80 | `set` adds exactly the new key to the key set and keeps the keys unique |
| OrderedMaps.GetSet | app/browser/reducers/menuReducer.js:80 | after `set`, the key maps to the new value and every other key keeps its value |
| OrderedMaps.DeleteSpec | app/browser/reducers/menuReducer.js:63 | `delete` of a present key removes just its entry and keeps the others in order; `delete` of an absent key changes nothing |
| OrderedMaps.DeleteKeys | app/browser/reducers/menuReducer.js:51 | on a well-formed map, `delete` removes exactly that key from the key set and keeps the keys unique |
| OrderedMaps.GetDelete | app/browser/reducers/menuReducer.js:63 | after `delete`, the key is absent and every other key keeps its value |
| OrderedMaps.DeleteAfterSet | app/browser/reducers/menuReducer.js:51 | deleting a key just set gives what deleting it from the original gives |
| OrderedMaps.Last | app/browser/reducers/menuReducer.js:52 | `last()` is undefined exactly when the map is empty |
| OrderedMaps.UniqueKeysAt | app/browser/reducers/menuReducer.js:24 | in a well-formed ordered map, distinct positions hold distinct keys |
| MenuReducer.MergedClearData | app/browser/reducers/menuReducer.js:98-100 | the merged choices have the keys of both maps; a temporary choice overrides the default; the temporary map defaults to empty; with no defaults only temporary choices remain |
| MenuReducer.MenuState.constructor | app/browser/reducers/menuReducer.js:24 | the bookkeeping starts with no closed frames, no last closed URL and no location |
| MenuReducer.MenuState.TabCloseRequested | app/browser/reducers/menuReducer.js:71-85 | the new bookkeeping is `AfterTabClose` of the old one with the qualifying entry; `currentLocation` is unchanged; the recently-closed menu is updated exactly when the tab qualified |
| MenuReducer.MenuState.UndoClosedFrame | app/browser/reducers/menuReducer.js:46-56 | the new bookkeeping is `AfterUndo` of the old one; the menu is updated exactly when the old last closed URL was truthy |
| MenuReducer.MenuState.ClearClosedFrames | app/browser/reducers/menuReducer.js:57-70 | the new bookkeeping is `AfterClear` of the old one with the action's location; the menu is updated in both branches |
| MenuReducer.MenuState.SetFocusedFrame | app/browser/reducers/menuReducer.js:30-39 | when the tab has a frame, `currentLocation` becomes its location and the "Bookmark Page" checkbox is set from the bookmark lookup; otherwise nothing changes; the closed-frame bookkeeping never changes |
| MenuReducer.MenuState.DoAction | app/browser/reducers/menuReducer.js:25-119 | returns the input state unchanged; the bookkeeping follows `NextHistory`; `createMenu` is called exactly on `RequestsMenuRebuild` and `updateRecentlyClosedMenuItems` exactly on `RequestsRecentlyClosedUpdate`; at most one menu call per action; the setting, focus and submenu-click calls are as in their branches; on every other action the calls are exactly `createMenu` when a rebuild is requested and `updateRecentlyClosedMenuItems` when an update is requested, and nothing else |
| ClosedFramesProperties.TabCloseQualifies | app/browser/reducers/menuReducer.js:74-78 | a closed tab is recorded exactly when its id is truthy, the tab exists, is not incognito, has a frame and the frame is a valid closed frame; the entry is the tab's URL and frame |
| ClosedFramesProperties.TabCloseRecords | app/browser/reducers/menuReducer.js:79-81 | recording makes the URL the last closed URL and maps it to the frame; other URLs keep their frames; the key set gains the URL and stays unique |
| ClosedFramesProperties.TabCloseIgnored | app/browser/reducers/menuReducer.js:75-83 | a falsy id, a missing tab, an incognito tab, a missing frame or an invalid frame leaves the bookkeeping unchanged |
| ClosedFramesProperties.UndoWithoutLastIsNoOp | app/browser/reducers/menuReducer.js:48-50 | undo with a falsy last closed URL changes nothing |
| ClosedFramesProperties.UndoRemovesLast | app/browser/reducers/menuReducer.js:51-53 | undo removes exactly the last closed URL's entry and keeps the others in order with their frames; the new last closed URL is the last remaining frame's location, or none when the map is empty |
| ClosedFramesProperties.ClearAll | app/browser/reducers/menuReducer.js:59-61 | clearing without a truthy location empties the map and nulls the last closed URL |
| ClosedFramesProperties.ClearLocation | app/browser/reducers/menuReducer.js:62-66 | clearing a location removes only that entry and keeps the others in order; the last closed URL becomes null only when it equalled that location, and is otherwise unchanged |
| ClosedFramesProperties.OtherActionsKeepHistory | app/browser/reducers/menuReducer.js:26-116 | actions other than undo, clear and tab-close leave the bookkeeping unchanged and do not update the recently-closed menu |
| ClosedFramesProperties.DeleteKeepsKeyedByLocation | app/browser/reducers/menuReducer.js:63 | deleting an entry keeps every remaining frame under its own location |
| ClosedFramesProperties.TabCloseKeepsCoherence | app/browser/reducers/menuReducer.js:79-80 | closing a tab whose frame's location is its URL keeps the bookkeeping coherent |
| ClosedFramesProperties.UndoKeepsCoherence | app/browser/reducers/menuReducer.js:51-53 | undo keeps coherent bookkeeping coherent; afterwards the last closed URL is the key of the last remaining entry |
| ClosedFramesProperties.ClearKeepsCoherence | app/browser/reducers/menuReducer.js:59-66 | both clear branches keep coherent bookkeeping coherent |
| ClosedFramesProperties.ReducerKeepsCoherence | app/browser/reducers/menuReducer.js:46-85 | every reducer step keeps the bookkeeping coherent, provided a closed tab's frame has the tab's URL as its location |
| ClosedFramesProperties.CloseThenUndo | app/browser/reducers/menuReducer.js:51-80 | undo right after a close drops that URL and nothing else; if the URL was not recorded before, the closed frames are exactly those before the close |
| ClosedFramesProperties.UndoOfUnrecordedUrlStalls | app/browser/reducers/menuReducer.js:51-53 | when the last closed URL is not a key but is the last frame's location, undo is a fixed point |
| ClosedFramesProperties.UndoCanStall | app/browser/reducers/menuReducer.js:51-80 | closing a tab whose URL differs from its frame's location, then another tab, then undoing twice, leaves the first tab recorded and undo stuck |
| ClosedFramesProperties.ClearsBrowsingHistoryExactly | app/browser/reducers/menuReducer.js:98-103 | the menu is rebuilt exactly when the temporary `browserHistory` is truthy, or, with no temporary one, when the default `browserHistory` is truthy |

## Left out

- The Electron calls are not modelled: `BrowserWindow.getFocusedWindow`, `webContents` and the
  menu item's `click` (lines 106-114). The model only records a `ClickMenuItem` effect when
  `menuUtil.getMenuItem` finds the label. That lookup is a set of labels passed in.
- `createMenu`, `setMenuItemChecked` and `updateRecentlyClosedMenuItems` live in another module
  that is not part of this model. They appear only as `Effect` values.
- `locale.translation` is not part of this model, so effect labels are translation keys.
- `frameStateUtil.isValidClosedFrame` and `isCurrentLocationBookmarked` are inputs. Both are
  foreign code.
- `getByTabId` and `frameStateUtil.getFrameByTabId` are modelled as lookups in maps carried
  by the application state.
- `makeImmutable` is left out: the action is a plain record.
- The initial values of `closedFrames`, `lastClosedUrl` and `currentLocation` come from the
  `../menu` module, which is not part of this model. The constructor assumes an empty map and
  no URL.
- Assigning these local bindings does not write back to that module, and the model keeps only
  this file's bindings.
- Numbers are integers: a `NaN` or fractional tab id is not modelled.
- A tab's `url` is always a string: an `undefined` URL used as a map key is not modelled.
- A tab's `incognito` flag is modelled as a boolean, not as an arbitrary truthy value.
- A `tempClearBrowsingData` entry that is present but `null` is not modelled. Without
  `clearBrowsingDataDefaults` the source would then call `get` on `null`.
- The order in which a branch updates state and calls the native menu is not modelled. Only
  which calls happen is modelled.
