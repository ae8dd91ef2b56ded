/** What the menu reducer's recently-closed-tabs bookkeeping guarantees, proved about the
    specification functions that the methods of `MenuReducer.MenuState` are tied to. */
module ClosedFramesProperties {
  import opened JsValues
  import opened OrderedMaps
  import opened MenuReducer

  /** Every recorded frame's `location` is the URL it is recorded under. */
  predicate KeyedByLocation(closedFrames: OrderedMap<string, Frame>) {
    forall i | 0 <= i < |closedFrames| :: closedFrames[i].1.location == Some(closedFrames[i].0)
  }

  /** The bookkeeping is coherent when the map is well formed, each frame sits under its own
      location, and a truthy `lastClosedUrl` names a recorded entry. */
  predicate Coherent(h: RecentlyClosed) {
    && UniqueKeys(h.closedFrames)
    && KeyedByLocation(h.closedFrames)
    && (TruthyString(h.lastClosedUrl) ==> h.lastClosedUrl.value in Keys(h.closedFrames))
  }

  /** A closed tab qualifies exactly when its id is truthy, the tab exists, is not incognito,
      has a frame and that frame is a valid closed frame; what is recorded is its url and frame. */
  lemma TabCloseQualifies(state: AppState, tabId: Option<int>, isValidClosedFrame: Frame -> bool)
    ensures ClosedEntry(state, tabId, isValidClosedFrame).Some? <==>
              && TruthyNumber(tabId) && tabId.value in state.tabs
              && !state.tabs[tabId.value].incognito
              && state.tabs[tabId.value].frame.Some?
              && isValidClosedFrame(state.tabs[tabId.value].frame.value)
    ensures ClosedEntry(state, tabId, isValidClosedFrame).Some? ==>
              ClosedEntry(state, tabId, isValidClosedFrame).value ==
                (state.tabs[tabId.value].url, state.tabs[tabId.value].frame.value)
  {
  }

  /** Closing a qualifying tab makes its url the last closed url and maps it to its frame;
      other urls keep their frames, and the map stays well formed. */
  lemma TabCloseRecords(h: RecentlyClosed, url: string, frame: Frame)
    requires UniqueKeys(h.closedFrames)
    ensures var r := AfterTabClose(h, Some((url, frame)));
            && r.lastClosedUrl == Some(url)
            && Get(r.closedFrames, url) == Some(frame)
            && (forall j :: j != url ==> Get(r.closedFrames, j) == Get(h.closedFrames, j))
            && Keys(r.closedFrames) == Keys(h.closedFrames) + {url}
            && UniqueKeys(r.closedFrames)
  {
    var r := AfterTabClose(h, Some((url, frame)));
    SetKeys(h.closedFrames, url, frame);
    GetSet(h.closedFrames, url, frame, url);
    forall j | j != url
      ensures Get(r.closedFrames, j) == Get(h.closedFrames, j)
    {
      GetSet(h.closedFrames, url, frame, j);
    }
  }

  /** A tab that does not qualify changes nothing. */
  lemma TabCloseIgnored(h: RecentlyClosed, state: AppState, tabId: Option<int>, isValidClosedFrame: Frame -> bool)
    requires || !TruthyNumber(tabId) || tabId.value !in state.tabs
             || state.tabs[tabId.value].incognito
             || state.tabs[tabId.value].frame.None?
             || !isValidClosedFrame(state.tabs[tabId.value].frame.value)
    ensures AfterTabClose(h, ClosedEntry(state, tabId, isValidClosedFrame)) == h
  {
  }

  /** Undo without a truthy last closed url changes nothing. */
  lemma UndoWithoutLastIsNoOp(h: RecentlyClosed)
    requires !TruthyString(h.lastClosedUrl)
    ensures AfterUndo(h) == h
  {
  }

  /** Undo removes exactly the entry of the last closed url, keeping the others in order, and the
      next last closed url is the location of the last remaining frame (none when empty). */
  lemma UndoRemovesLast(h: RecentlyClosed)
    requires UniqueKeys(h.closedFrames)
    requires TruthyString(h.lastClosedUrl)
    ensures var u, r := h.lastClosedUrl.value, AfterUndo(h);
            && (u in Keys(h.closedFrames) ==>
                  r.closedFrames == h.closedFrames[..IndexOf(h.closedFrames, u)] + h.closedFrames[IndexOf(h.closedFrames, u) + 1..])
            && (u !in Keys(h.closedFrames) ==> r.closedFrames == h.closedFrames)
            && Keys(r.closedFrames) == Keys(h.closedFrames) - {u}
            && UniqueKeys(r.closedFrames)
            && Get(r.closedFrames, u) == None
            && (forall j :: j != u ==> Get(r.closedFrames, j) == Get(h.closedFrames, j))
            && r.lastClosedUrl == if r.closedFrames == [] then None else r.closedFrames[|r.closedFrames| - 1].1.location
  {
    var u, r := h.lastClosedUrl.value, AfterUndo(h);
    DeleteSpec(h.closedFrames, u);
    DeleteKeys(h.closedFrames, u);
    GetDelete(h.closedFrames, u, u);
    forall j | j != u
      ensures Get(r.closedFrames, j) == Get(h.closedFrames, j)
    {
      GetDelete(h.closedFrames, u, j);
    }
  }

  /** Clearing without a location empties the bookkeeping. */
  lemma ClearAll(h: RecentlyClosed, location: Option<string>)
    requires !TruthyString(location)
    ensures AfterClear(h, location).closedFrames == []
    ensures AfterClear(h, location).lastClosedUrl == None
  {
  }

  /** Clearing a location removes only that entry, keeping the others in order; the last closed
      url is dropped exactly when it was that location. */
  lemma ClearLocation(h: RecentlyClosed, location: string)
    requires UniqueKeys(h.closedFrames)
    requires location != ""
    ensures var r := AfterClear(h, Some(location));
            && (location in Keys(h.closedFrames) ==>
                  r.closedFrames == h.closedFrames[..IndexOf(h.closedFrames, location)] + h.closedFrames[IndexOf(h.closedFrames, location) + 1..])
            && (location !in Keys(h.closedFrames) ==> r.closedFrames == h.closedFrames)
            && Keys(r.closedFrames) == Keys(h.closedFrames) - {location}
            && UniqueKeys(r.closedFrames)
            && (forall j :: j != location ==> Get(r.closedFrames, j) == Get(h.closedFrames, j))
            && (r.lastClosedUrl == None <==> (h.lastClosedUrl == None || h.lastClosedUrl == Some(location)))
            && (h.lastClosedUrl != Some(location) ==> r.lastClosedUrl == h.lastClosedUrl)
  {
    var r := AfterClear(h, Some(location));
    DeleteSpec(h.closedFrames, location);
    DeleteKeys(h.closedFrames, location);
    forall j | j != location
      ensures Get(r.closedFrames, j) == Get(h.closedFrames, j)
    {
      GetDelete(h.closedFrames, location, j);
    }
  }

  /** Actions other than the three closed-frame actions leave the bookkeeping alone. */
  lemma OtherActionsKeepHistory(h: RecentlyClosed, state: AppState, action: Action, isValidClosedFrame: Frame -> bool)
    requires !action.WindowUndoClosedFrame? && !action.WindowClearClosedFrames? && !action.AppTabCloseRequested?
    ensures NextHistory(h, state, action, isValidClosedFrame) == h
    ensures !RequestsRecentlyClosedUpdate(h, state, action, isValidClosedFrame)
  {
  }

  /** Dropping one entry from a map whose frames sit under their locations keeps that so. */
  lemma {:induction false} DeleteKeepsKeyedByLocation(m: OrderedMap<string, Frame>, k: string)
    requires KeyedByLocation(m)
    ensures KeyedByLocation(Delete(m, k))
  {
    DeleteSpec(m, k);
    if k in Keys(m) {
      var i := IndexOf(m, k);
      var r := Delete(m, k);
      forall n | 0 <= n < |r|
        ensures r[n].1.location == Some(r[n].0)
      {
        assert r[n] == if n < i then m[n] else m[n + 1];
      }
    }
  }

  /** Closing a tab whose frame sits under its own url keeps the bookkeeping coherent. */
  lemma TabCloseKeepsCoherence(h: RecentlyClosed, entry: Option<(string, Frame)>)
    requires Coherent(h)
    requires entry.Some? ==> entry.value.1.location == Some(entry.value.0)
    ensures Coherent(AfterTabClose(h, entry))
  {
    if entry.Some? {
      var (url, frame) := entry.value;
      var m := h.closedFrames;
      SetKeys(m, url, frame);
      SetSpec(m, url, frame);
      var r := Set(m, url, frame);
      forall n | 0 <= n < |r|
        ensures r[n].1.location == Some(r[n].0)
      {
        if url in Keys(m) {
          assert r[n] == if n == IndexOf(m, url) then (url, frame) else m[n];
        } else {
          assert r[n] == if n == |m| then (url, frame) else m[n];
        }
      }
    }
  }

  /** On coherent bookkeeping, undo keeps it coherent and the next last closed url is the key
      of the last remaining entry, so repeated undo walks back through the entries. */
  lemma UndoKeepsCoherence(h: RecentlyClosed)
    requires Coherent(h)
    ensures Coherent(AfterUndo(h))
    ensures TruthyString(h.lastClosedUrl) ==>
              AfterUndo(h).lastClosedUrl ==
                if AfterUndo(h).closedFrames == [] then None
                else Some(AfterUndo(h).closedFrames[|AfterUndo(h).closedFrames| - 1].0)
  {
    if TruthyString(h.lastClosedUrl) {
      var r := AfterUndo(h);
      DeleteKeys(h.closedFrames, h.lastClosedUrl.value);
      DeleteKeepsKeyedByLocation(h.closedFrames, h.lastClosedUrl.value);
      if r.closedFrames != [] {
        KeysAt(r.closedFrames, |r.closedFrames| - 1);
      }
    }
  }

  /** Clearing keeps coherent bookkeeping coherent. */
  lemma ClearKeepsCoherence(h: RecentlyClosed, location: Option<string>)
    requires Coherent(h)
    ensures Coherent(AfterClear(h, location))
  {
    if TruthyString(location) {
      DeleteKeys(h.closedFrames, location.value);
      DeleteKeepsKeyedByLocation(h.closedFrames, location.value);
    }
  }

  /** Every reducer step keeps the bookkeeping coherent, provided a closed tab's frame sits
      under the tab's url. */
  lemma ReducerKeepsCoherence(h: RecentlyClosed, state: AppState, action: Action, isValidClosedFrame: Frame -> bool)
    requires Coherent(h)
    requires action.AppTabCloseRequested? && ClosedEntry(state, action.closedTabId, isValidClosedFrame).Some? ==>
               ClosedEntry(state, action.closedTabId, isValidClosedFrame).value.1.location ==
                 Some(ClosedEntry(state, action.closedTabId, isValidClosedFrame).value.0)
    ensures Coherent(NextHistory(h, state, action, isValidClosedFrame))
  {
    match action
    case WindowUndoClosedFrame => UndoKeepsCoherence(h);
    case WindowClearClosedFrames(location) => ClearKeepsCoherence(h, location);
    case AppTabCloseRequested(tabId) => TabCloseKeepsCoherence(h, ClosedEntry(state, tabId, isValidClosedFrame));
    case _ =>
  }

  /** Undo right after closing a tab forgets that tab's url and nothing else; when the url was not
      recorded before, the closed frames are exactly those before the close. */
  lemma CloseThenUndo(h: RecentlyClosed, url: string, frame: Frame)
    requires url != ""
    ensures AfterUndo(AfterTabClose(h, Some((url, frame)))).closedFrames == Delete(h.closedFrames, url)
    ensures url !in Keys(h.closedFrames) ==>
              AfterUndo(AfterTabClose(h, Some((url, frame)))).closedFrames == h.closedFrames
  {
    DeleteAfterSet(h.closedFrames, url, frame);
    DeleteSpec(h.closedFrames, url);
  }

  /** When the last closed url is not a recorded key but is the location of the last frame,
      undo removes nothing and keeps the same last closed url: it is a fixed point. */
  lemma UndoOfUnrecordedUrlStalls(h: RecentlyClosed)
    requires TruthyString(h.lastClosedUrl)
    requires h.lastClosedUrl.value !in Keys(h.closedFrames)
    requires h.closedFrames != []
    requires h.closedFrames[|h.closedFrames| - 1].1.location == h.lastClosedUrl
    ensures AfterUndo(h) == h
  {
    DeleteSpec(h.closedFrames, h.lastClosedUrl.value);
  }

  /** Undo takes the next url from a frame's `location` rather than from the key the frame is
      stored under. So once another tab has been closed after a tab whose url differs from its
      frame's location, undo steps back to that location instead of the key and stalls with the
      entry still recorded: close tab "a" (frame at "b") and tab "c", undo twice, and "a" is still
      recorded with undo stuck. */
  lemma UndoCanStall()
    ensures var fa, fc := Frame(Some("b"), map[]), Frame(Some("c"), map[]);
            var h0 := RecentlyClosed([], None);
            var h2 := AfterTabClose(AfterTabClose(h0, Some(("a", fa))), Some(("c", fc)));
            var h4 := AfterUndo(AfterUndo(h2));
            && h4.closedFrames == [("a", fa)]
            && AfterUndo(h4) == h4
  {
    var fa, fc := Frame(Some("b"), map[]), Frame(Some("c"), map[]);
    var h1 := AfterTabClose(RecentlyClosed([], None), Some(("a", fa)));
    assert h1.closedFrames == [("a", fa)];
    var h2 := AfterTabClose(h1, Some(("c", fc)));
    assert h2.closedFrames == [("a", fa), ("c", fc)];
    var h3 := AfterUndo(h2);
    assert h3.closedFrames == [("a", fa)];
    assert h3.lastClosedUrl == Some("b");
    UndoOfUnrecordedUrlStalls(h3);
  }

  /** Reference statement of the clear-browsing-data decision: a temporary `browserHistory` choice
      wins; without one, the default decides; without either, the menu is not rebuilt. */
  lemma ClearsBrowsingHistoryExactly(state: AppState)
    ensures var temp := state.tempClearBrowsingData.GetOr(map[]);
            ClearsBrowsingHistory(state) <==>
              if BrowserHistory in temp then Truthy(temp[BrowserHistory])
              else state.clearBrowsingDataDefaults.Some?
                   && BrowserHistory in state.clearBrowsingDataDefaults.value
                   && Truthy(state.clearBrowsingDataDefaults.value[BrowserHistory])
  {
  }
}
