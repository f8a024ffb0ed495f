/** The session as an object: each method is the part of a source method that runs under the mutex,
    and changes the fields exactly as the transition system's region does. */
module SessionObject {
  import opened Seqs
  import opened Session

  class SessionState {
    var state: Phase
    var clientCount: int
    var stopTimer: Option<nat>
    var stopDone: Option<nat>
    const warm: bool

    // Runtime state: timers, channels and the callback log.
    var armed: set<nat>
    var fired: set<nat>
    var timers: nat
    var chans: nat
    var closed: seq<nat>
    var calls: seq<Call>

    ghost function Abs(): Fields
      reads this
    {
      Fields(state, clientCount, stopTimer, stopDone, armed, fired, timers, chans, closed, calls)
    }

    constructor (warm: bool)
      ensures Abs() == InitFields && this.warm == warm
    {
      this.warm := warm;
      state, clientCount, stopTimer, stopDone := Idle, 0, None, None;
      armed, fired, timers, chans, closed, calls := {}, {}, 0, 0, [], [];
    }

    method StopTimer()
      modifies this`armed, this`stopTimer
      ensures Abs() == CancelTimer(old(Abs()))
    {
      if stopTimer.Some? {
        armed := armed - {stopTimer.value};
        stopTimer := None;
      }
    }

    /** One pass of ClientConnected's loop up to the point where it unlocks. */
    method ClientConnected() returns (outcome: Connected)
      modifies this`armed, this`stopTimer, this`clientCount, this`state, this`calls
      ensures Abs() == ConnectRegion(old(Abs())) && outcome == ConnectOutcome(old(Abs()))
    {
      StopTimer();
      match state {
        case Streaming =>
          clientCount := clientCount + 1;
          outcome := Attached;
        case Starting =>
          clientCount := clientCount + 1;
          outcome := Attached;
        case Stopping =>
          outcome := MustWait(stopDone);
        case Idle =>
          clientCount := clientCount + 1;
          state := Starting;
          calls := calls + [StartBegins];
          outcome := MustStart;
      }
    }

    method OnStartReturned(ok: bool)
      modifies this`clientCount, this`state, this`calls
      ensures Abs() == StartReturned(old(Abs()), ok)
    {
      if ok {
        state := Streaming;
        calls := calls + [StartSucceeds];
      } else {
        state := Idle;
        clientCount := clientCount - 1;
        calls := calls + [StartFails];
      }
    }

    /** stopLocked up to its unlock; the caller goes on to run onStop. */
    method EnterStopping() returns (done: nat)
      modifies this`state, this`stopDone, this`chans, this`calls
      ensures Abs() == BeginStop(old(Abs())) && done == old(chans)
    {
      done := chans;
      state := Stopping;
      stopDone := Some(done);
      chans := chans + 1;
      calls := calls + [StopBegins];
    }

    method OnStopReturned(done: nat)
      modifies this`state, this`stopDone, this`closed, this`calls
      ensures Abs() == EndStop(old(Abs()), done)
    {
      state := Idle;
      stopDone := None;
      closed := closed + [done];
      calls := calls + [StopEnds];
    }

    method ClientDisconnected() returns (stop: Option<nat>)
      modifies this`clientCount, this`stopTimer, this`armed, this`timers, this`state, this`stopDone, this`chans, this`calls
      ensures Abs() == DisconnectRegion(old(Abs()), warm)
      ensures stop == if DisconnectStops(old(Abs()), warm) then Some(old(chans)) else None
    {
      if clientCount <= 0 {
        return None;
      }
      clientCount := clientCount - 1;
      if clientCount > 0 {
        return None;
      }
      if state != Streaming {
        return None;
      }
      if warm {
        stopTimer := Some(timers);
        armed := armed + {timers};
        timers := timers + 1;
        return None;
      }
      var done := EnterStopping();
      return Some(done);
    }

    method IdleTimerFired(id: nat) returns (stop: Option<nat>)
      modifies this`fired, this`stopTimer, this`state, this`stopDone, this`chans, this`calls
      ensures Abs() == TimerRegion(old(Abs()), id)
      ensures stop == if TimerStops(old(Abs())) then Some(old(chans)) else None
    {
      fired := fired - {id};
      if clientCount > 0 || state != Streaming {
        stopTimer := None;
        return None;
      }
      stopTimer := None;
      var done := EnterStopping();
      return Some(done);
    }

    /** Restart up to its first unlock: the channel and the client count to restore. */
    method RestartBegins() returns (stop: Option<(nat, int)>)
      modifies this`armed, this`stopTimer, this`state, this`stopDone, this`chans, this`calls
      ensures Abs() == RestartRegion(old(Abs()))
      ensures stop == if old(state) == Streaming then Some((old(chans), old(clientCount))) else None
    {
      if state != Streaming {
        return None;
      }
      StopTimer();
      var saved := clientCount;
      var done := EnterStopping();
      return Some((done, saved));
    }

    method RestartOnStopReturned(done: nat)
      modifies this`state, this`stopDone, this`closed, this`calls
      ensures Abs() == RestartStopped(old(Abs()), done)
    {
      stopDone := None;
      closed := closed + [done];
      state := Starting;
      calls := calls + [StopEnds, StartBegins];
    }

    method RestartOnStartReturned(ok: bool, saved: int)
      modifies this`state, this`clientCount, this`calls
      ensures Abs() == RestartReturned(old(Abs()), ok, saved)
    {
      if ok {
        state := Streaming;
        clientCount := saved;
        calls := calls + [StartSucceeds];
      } else {
        state := Idle;
        clientCount := 0;
        calls := calls + [StartFails];
      }
    }

    method ShutdownBegins() returns (stop: Option<nat>)
      modifies this`armed, this`stopTimer, this`clientCount, this`state, this`stopDone, this`chans, this`calls
      ensures Abs() == ShutdownRegion(old(Abs()))
      ensures stop == if old(state) == Streaming then Some(old(chans)) else None
    {
      StopTimer();
      if state != Streaming {
        return None;
      }
      clientCount := 0;
      var done := EnterStopping();
      return Some(done);
    }
  }
}
