/** The mutable objects behind the lifecycle model: the tracker with its
    pre-allocated, in-place shifted history, and the service that maps sessions
    to trackers (internal/cmdlifecycle/service.go). */
module CommandService {
  import opened Prelude
  import L = Lifecycle

  class TrackerObject {
    var phase: L.Phase
    var current: Option<L.Command>
    const history: array<L.Command>  // capacity maxHistory, allocated once
    var len: nat

    ghost predicate Valid()
      reads this, history
    {
      len <= history.Length && L.Valid(history.Length, View())
    }

    ghost function View(): L.Tracker
      reads this, history
      requires len <= history.Length
    {
      L.Tracker(phase, current, history[..len])
    }

    constructor (maxHistory: nat)
      requires 0 < maxHistory
      ensures Valid() && View() == L.FRESH
      ensures history.Length == maxHistory && fresh(history)
    {
      phase, current, len := L.Idle, None, 0;
      history := new L.Command[maxHistory];
    }

    /** appendHistoryLocked: at capacity the entries move down one slot in place. */
    method AppendHistory(c: L.Command)
      requires 0 < history.Length && len <= history.Length
      modifies this`len, history
      ensures len <= history.Length
      ensures history[..len] == L.Append(history.Length, old(history[..len]), c)
    {
      if len == history.Length {
        var i := 0;
        while i < len - 1
          invariant 0 <= i <= len - 1 && len == history.Length
          invariant forall k :: 0 <= k < i ==> history[k] == old(history[k + 1])
          invariant forall k :: i <= k < len ==> history[k] == old(history[k])
        {
          history[i] := history[i + 1];
          i := i + 1;
        }
        history[len - 1] := c;
        return;
      }
      history[len] := c;
      len := len + 1;
    }

    method CloseOrphan(now: L.Time, row: int) returns (e: L.Event)
      requires Valid() && current.Some?
      modifies this, history
      ensures Valid() && phase == L.Idle && current == None
      ensures e == L.Finished(L.CloseOrphan(old(current.value), now, row), row)
      ensures View().history == L.Append(history.Length, old(View()).history, e.cmd)
    {
      current := Some(L.CloseOrphan(current.value, now, row));
      AppendHistory(current.value);
      e := L.Finished(current.value, row);
      current, phase := None, L.Idle;
    }

    method Handle(m: L.Marker) returns (events: seq<L.Event>)
      requires Valid()
      modifies this, history
      ensures Valid()
      ensures (View(), events) == L.Handle(history.Length, old(View()), m)
    {
      events := [];
      var running := phase == L.CommandRunning;
      if (m.code == 'A' || m.code == 'B' || m.code == 'C') && running {
        var e := CloseOrphan(m.now, m.row);
        events := [e];
      }
      match m.code
      case 'A' =>
        if phase != L.PromptShown {
          phase := L.PromptShown;
          events := events + [L.Prompt(m.row)];
        }
      case 'B' =>
        phase := L.UserTyping;
      case 'C' =>
        current := Some(L.Open(if running then m.then_ else m.now, m.row));
        phase := L.CommandRunning;
        events := events + [L.Started(current.value, m.row)];
      case 'D' =>
        if phase != L.CommandRunning || current.None? {
          return;
        }
        current := Some(current.value.(endedAt := m.now, endRow := m.row, exitCode := m.exit, orphan := false));
        AppendHistory(current.value);
        events := [L.Finished(current.value, m.row)];
        current, phase := None, L.Idle;
      case _ =>
    }

    method Snapshot() returns (s: L.SessionState)
      requires Valid()
      ensures s == L.Snapshot(View())
    {
      s := L.SessionState(history[..len], current);
    }

    method Restore(s: L.SessionState, now: L.Time)
      requires Valid() && View() == L.FRESH
      modifies this, history
      ensures Valid() && View() == L.Restored(history.Length, s, now)
    {
      var i := 0;
      while i < |s.history|
        invariant 0 <= i <= |s.history| && len <= history.Length
        invariant history[..len] == L.AppendAll(history.Length, [], s.history[..i])
        invariant phase == L.Idle && current == None
      {
        assert s.history[..i + 1][..i] == s.history[..i];
        AppendHistory(s.history[i]);
        i := i + 1;
      }
      assert s.history[..i] == s.history;
      if s.inFlight.Some? {
        AppendHistory(L.RestartOrphan(s.inFlight.value, now));
      }
      phase, current := L.Idle, None;
    }
  }

  datatype Error = ErrSessionExists | ErrSessionNotRegistered

  /** No two sessions share a tracker or a history. */
  ghost predicate Separate(trackers: map<string, TrackerObject>) {
    forall a, b :: a in trackers && b in trackers && a != b ==>
      trackers[a] != trackers[b] && trackers[a].history != trackers[b].history
  }

  lemma Apart(trackers: map<string, TrackerObject>, a: string, b: string)
    requires Separate(trackers) && a in trackers && b in trackers && a != b
    ensures trackers[a] != trackers[b] && trackers[a].history != trackers[b].history
  {
  }

  /** One tracker object per registered session; `views` is what each of them holds. */
  class Service {
    var trackers: map<string, TrackerObject>
    const maxHistory: nat
    ghost var views: map<string, L.Tracker>

    ghost function Histories(): set<array<L.Command>>
      reads this
    {
      set id | id in trackers :: trackers[id].history
    }

    /** The tracker of a session holds its view. */
    ghost predicate Holds(t: TrackerObject, view: L.Tracker)
      reads t, t.history
    {
      t.history.Length == maxHistory && t.Valid() && t.View() == view
    }


    ghost predicate Valid()
      reads this, trackers.Values, Histories()
    {
      && 0 < maxHistory && Separate(trackers) && views.Keys == trackers.Keys
      && forall id :: id in trackers ==> Holds(trackers[id], views[id])
    }

    constructor (maxHistory: nat)
      requires 0 < maxHistory
      ensures Valid() && views == map[] && this.maxHistory == maxHistory
    {
      trackers, views := map[], map[];
      this.maxHistory := maxHistory;
    }

    method Register(id: string) returns (r: Option<Error>)
      requires Valid()
      modifies this
      ensures Valid()
      ensures id in old(views) ==> r == Some(ErrSessionExists) && views == old(views)
      ensures id !in old(views) ==> r == None && views == old(views)[id := L.FRESH]
    {
      if id in trackers {
        return Some(ErrSessionExists);
      }
      var tr := new TrackerObject(maxHistory);
      Install(id, tr, L.FRESH);
      r := None;
    }

    /** Adds a tracker that no session has yet. */
    method Install(id: string, tr: TrackerObject, ghost view: L.Tracker)
      requires Valid() && id !in trackers && Holds(tr, view)
      requires tr !in trackers.Values && tr.history !in Histories()
      modifies this
      ensures Valid() && views == old(views)[id := view]
    {
      hide Holds, L.Valid;
      trackers, views := trackers[id := tr], views[id := view];
    }

    method Unregister(id: string)
      requires Valid()
      modifies this
      ensures Valid() && views == old(views) - {id}
    {
      trackers, views := trackers - {id}, views - {id};
    }

    /** `saved` is the state handed to the repository, if any. */
    method HandleOSC(id: string, m: L.Marker)
      returns (r: Option<Error>, events: seq<L.Event>, saved: Option<L.SessionState>)
      requires Valid()
      modifies this`views, trackers.Values, Histories()
      ensures Valid() && trackers == old(trackers)
      ensures id !in old(views) ==>
                r == Some(ErrSessionNotRegistered) && events == [] && saved == None && views == old(views)
      ensures id in old(views) ==>
                var (t, ev) := L.Handle(maxHistory, old(views)[id], m);
                r == None && events == ev && views == old(views)[id := t]
      ensures saved.Some? <==> exists e <- events :: e.Finished?
      ensures saved.Some? ==> id in views && saved.value == L.SessionState(views[id].history, views[id].current)
    {
      if id !in trackers {
        return Some(ErrSessionNotRegistered), [], None;
      }
      r, events, saved := None, [], None;
      hide Holds, Separate, Histories;
      if m.code == 'A' || m.code == 'B' || m.code == 'C' || m.code == 'D' {
        events := Dispatch(id, m);
        saved := Save(id, events);
      }
    }

    /** The session's tracker takes the marker; no other tracker is touched. */
    method Dispatch(id: string, m: L.Marker) returns (events: seq<L.Event>)
      requires Valid() && id in trackers
      modifies this`views, trackers[id], trackers[id].history
      ensures Valid()
      ensures (views, events) ==
              (old(views)[id := L.Handle(maxHistory, old(views)[id], m).0], L.Handle(maxHistory, old(views)[id], m).1)
    {
      HoldsValid(trackers[id], views[id]);
      hide L.Handle, L.Valid, Holds, Separate;
      ghost var view := L.Handle(maxHistory, views[id], m).0;
      events := Take(trackers[id], m, views[id]);
      views := views[id := view];
      forall other | other in trackers
        ensures Holds(trackers[other], views[other])
      {
        if other != id {
          Apart(trackers, other, id);
          assert old(Holds(trackers[other], views[other]));
        }
      }
    }

    /** One tracker object takes one marker. */
    method Take(tr: TrackerObject, m: L.Marker, ghost view: L.Tracker) returns (events: seq<L.Event>)
      requires Holds(tr, view)
      modifies tr, tr.history
      ensures L.Valid(maxHistory, view)
      ensures Holds(tr, L.Handle(maxHistory, view, m).0) && events == L.Handle(maxHistory, view, m).1
    {
      hide L.Handle;
      events := tr.Handle(m);
    }

    lemma HoldsValid(tr: TrackerObject, view: L.Tracker)
      requires Holds(tr, view)
      ensures L.Valid(maxHistory, view)
    {
    }

    /** The first Finished event saves one snapshot. */
    method Save(id: string, events: seq<L.Event>) returns (saved: Option<L.SessionState>)
      requires Valid() && id in trackers
      ensures saved.Some? <==> exists e <- events :: e.Finished?
      ensures saved.Some? ==> saved.value == L.SessionState(views[id].history, views[id].current)
    {
      for i := 0 to |events|
        invariant forall e <- events[..i] :: !e.Finished?
      {
        if events[i].Finished? {
          assert events[i] in events;
          assert Holds(trackers[id], views[id]);
          var s := trackers[id].Snapshot();
          return Some(s);
        }
      }
      assert events[..|events|] == events;
      return None;
    }

    method Snapshot(id: string) returns (s: Option<L.SessionState>)
      requires Valid()
      ensures s == if id in views then Some(L.Snapshot(views[id])) else None
    {
      if id !in trackers {
        return None;
      }
      assert Holds(trackers[id], views[id]);
      var state := trackers[id].Snapshot();
      s := Some(state);
    }

    method Restore(id: string, s: L.SessionState, now: L.Time) returns (r: Option<Error>)
      requires Valid()
      modifies this
      ensures Valid()
      ensures id in old(views) ==> r == Some(ErrSessionExists) && views == old(views)
      ensures id !in old(views) ==> r == None && views == old(views)[id := L.Restored(maxHistory, s, now)]
    {
      if id in trackers {
        return Some(ErrSessionExists);
      }
      var tr := new TrackerObject(maxHistory);
      tr.Restore(s, now);
      Install(id, tr, tr.View());
      r := None;
    }
  }
}
