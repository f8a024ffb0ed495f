/** The reporter's per-camera state objects, updated in place, and the table of them. */
module HealthReporter {
  import opened Health
  import opened Seqs

  class CamState {
    var problem: bool
    var firstFail: Option<int>
    var lastFail: int
    var failCount: nat
    var since: int
    var lastError: string
    var degraded: bool
    var dropHighStart: Option<int>
    var dropLowStart: Option<int>
    var dropSince: int
    var lastLoss: real
    var lastDropped: nat
    var lastDropPub: Option<int>
    // What the topics retain.
    var pubProblem: Option<bool>
    var pubDegraded: Option<bool>
    var pubAttrs: Option<Attrs>
    var pubDropAttrs: Option<DropAttrs>

    ghost function StreamOf(): Stream
      reads this
    {
      Stream(problem, firstFail, lastFail, failCount, since, lastError)
    }

    ghost function DropOf(): Drop
      reads this
    {
      Drop(degraded, dropHighStart, dropLowStart, dropSince, lastLoss, lastDropped)
    }

    ghost function Abs(): Cam
      reads this
    {
      Cam(StreamOf(), DropOf(), pubProblem, pubDegraded, pubAttrs, pubDropAttrs, lastDropPub)
    }

    constructor (now: int)
      ensures Abs() == InitCam(now)
    {
      problem, firstFail, lastFail, failCount, since, lastError := false, None, 0, 0, now, "";
      degraded, dropHighStart, dropLowStart, dropSince := false, None, None, now;
      lastLoss, lastDropped, lastDropPub := 0.0, 0, None;
      pubProblem, pubDegraded, pubAttrs, pubDropAttrs := None, None, None, None;
    }

    method DoPublishAttributes()
      modifies this`pubAttrs
      ensures Abs() == PublishAttributes(old(Abs()))
    {
      pubAttrs := Some(Attrs(failCount, since, lastError));
    }

    method DoPublishDropAttributes()
      modifies this`pubDropAttrs
      ensures Abs() == PublishDropAttributes(old(Abs()))
    {
      pubDropAttrs := Some(DropAttrs(lastLoss, lastDropped, dropSince));
    }

    method DoPromote(cfg: Config, now: int) returns (changed: bool)
      modifies this`problem, this`since
      ensures StreamOf() == Promote(cfg, old(StreamOf()), now)
      ensures changed <==> problem != old(problem)
    {
      if problem || firstFail.None? {
        return false;
      }
      if now - firstFail.value >= cfg.wedgeAfter {
        problem := true;
        since := now;
        return true;
      }
      return false;
    }

    /** applyEvent: None is a successful start, Some(text) a failure. */
    method ApplyEvent(cfg: Config, failure: Option<string>, now: int) returns (changed: bool)
      modifies this`problem, this`firstFail, this`lastFail, this`failCount, this`since, this`lastError
      ensures StreamOf() == if failure.None? then Success(old(StreamOf()), now)
                            else Failure(cfg, old(StreamOf()), now, failure.value)
      ensures changed <==> problem != old(problem)
    {
      if failure.None? {
        firstFail, lastFail, failCount, lastError := None, 0, 0, "";
        if problem {
          problem := false;
          since := now;
          return true;
        }
        return false;
      }
      if firstFail.None? || now - lastFail > STALE_GAP {
        firstFail := Some(now);
        failCount := 0;
      }
      lastFail := now;
      failCount := failCount + 1;
      lastError := failure.value;
      changed := DoPromote(cfg, now);
    }

    method DoApplyStats(cfg: Config, loss: real, droppedFrames: nat, now: int) returns (changed: bool)
      modifies this`lastLoss, this`lastDropped, this`dropHighStart, this`dropLowStart, this`degraded, this`dropSince
      ensures DropOf() == ApplyStats(cfg, old(DropOf()), loss, droppedFrames, now)
      ensures changed <==> degraded != old(degraded)
    {
      lastLoss := loss;
      lastDropped := droppedFrames;
      if loss >= cfg.dropThreshold {
        if dropHighStart.None? {
          dropHighStart := Some(now);
        }
        dropLowStart := None;
        if !degraded && now - dropHighStart.value >= cfg.dropWindow {
          degraded := true;
          dropSince := now;
          return true;
        }
      } else if loss <= cfg.dropThreshold / 2.0 {
        if dropLowStart.None? {
          dropLowStart := Some(now);
        }
        dropHighStart := None;
        if degraded && now - dropLowStart.value >= cfg.dropClearWindow {
          degraded := false;
          dropSince := now;
          return true;
        }
      } else {
        dropHighStart := None;
        dropLowStart := None;
      }
      return false;
    }

    method DoResetDrop(now: int) returns (changed: bool)
      modifies this`lastLoss, this`lastDropped, this`dropHighStart, this`dropLowStart, this`degraded, this`dropSince
      ensures DropOf() == ResetDrop(old(DropOf()), now)
      ensures changed <==> degraded != old(degraded)
    {
      dropHighStart, dropLowStart, lastLoss, lastDropped := None, None, 0.0, 0;
      if degraded {
        degraded := false;
        dropSince := now;
        return true;
      }
      return false;
    }

    /** The stream sensor's part of a start result. */
    method StreamResult(cfg: Config, failure: Option<string>, now: int)
      modifies this`problem, this`firstFail, this`lastFail, this`failCount, this`since, this`lastError
      modifies this`pubProblem, this`pubAttrs
      ensures Abs() == PublishAttributes(PublishStream(old(Abs()),
                         if failure.None? then Success(old(StreamOf()), now)
                         else Failure(cfg, old(StreamOf()), now, failure.value)))
    {
      var changed := ApplyEvent(cfg, failure, now);
      if changed {
        pubProblem := Some(problem);
      }
      DoPublishAttributes();
    }

    /** A fresh start clears the drop state. */
    method NewSession(now: int)
      modifies this`lastLoss, this`lastDropped, this`dropHighStart, this`dropLowStart, this`degraded, this`dropSince
      modifies this`pubDegraded
      ensures Abs() == PublishDrop(old(Abs()), ResetDrop(old(DropOf()), now))
    {
      var reset := DoResetDrop(now);
      if reset {
        pubDegraded := Some(degraded);
      }
    }

    method HandleResult(cfg: Config, failure: Option<string>, now: int)
      modifies this
      ensures Abs() == Step(cfg, old(Abs()), if failure.None? then Started(now) else Failed(now, failure.value))
    {
      StreamResult(cfg, failure, now);
      if failure.None? {
        NewSession(now);
      }
    }

    /** A sample's effect on the flag and its topic. */
    method Sample(cfg: Config, loss: real, droppedFrames: nat, now: int) returns (changed: bool)
      modifies this`lastLoss, this`lastDropped, this`dropHighStart, this`dropLowStart, this`degraded, this`dropSince
      modifies this`pubDegraded
      ensures Abs() == PublishDrop(old(Abs()), ApplyStats(cfg, old(DropOf()), loss, droppedFrames, now))
      ensures changed <==> degraded != old(degraded)
    {
      changed := DoApplyStats(cfg, loss, droppedFrames, now);
      if changed {
        pubDegraded := Some(degraded);
      }
    }

    method HandleStats(cfg: Config, packets: nat, drops: nat, droppedFrames: nat, now: int)
      modifies this
      ensures Abs() == Step(cfg, old(Abs()), Stats(now, packets, drops, droppedFrames))
    {
      var changed := Sample(cfg, LossFraction(packets, drops), droppedFrames, now);
      if changed || lastDropPub.None? || now - lastDropPub.value >= DROP_ATTR_INTERVAL {
        DoPublishDropAttributes();
        lastDropPub := Some(now);
      }
    }

    method HandleTick(cfg: Config, now: int)
      modifies this`problem, this`since, this`pubProblem
      ensures Abs() == Step(cfg, old(Abs()), Tick(now))
    {
      if firstFail.None? {
        return;
      }
      var changed := DoPromote(cfg, now);
      if changed {
        pubProblem := Some(problem);
      }
    }

    method OnConnect(ghost cfg: Config, ghost now: int)
      modifies this`pubProblem, this`pubDegraded, this`pubAttrs, this`pubDropAttrs
      ensures Abs() == Step(cfg, old(Abs()), Connected(now))
    {
      pubProblem := Some(problem);
      DoPublishAttributes();
      pubDegraded := Some(degraded);
      DoPublishDropAttributes();
    }
  }

  // ---------- The table ----------

  /** What the run loop takes in: a result or a sample names a camera; ticks and connects go to all. */
  datatype Message = One(camera: string, e: Event) | All(e: Event)

  predicate WellFormed(m: Message) {
    match m
    case One(_, e) => e.Started? || e.Failed? || e.Stats?
    case All(e) => e.Tick? || e.Connected?
  }

  predicate Concerns(m: Message, name: string) {
    m.All? || m.camera == name
  }

  class Reporter {
    const cfg: Config
    const cams: map<string, CamState>

    ghost predicate Valid() {
      forall a, b :: a in cams && b in cams && a != b ==> cams[a] != cams[b]
    }

    ghost function StateOf(name: string): Cam
      requires name in cams
      reads cams.Values
    {
      cams[name].Abs()
    }

    constructor (cfg: Config, cams: map<string, CamState>)
      requires forall a, b :: a in cams && b in cams && a != b ==> cams[a] != cams[b]
      ensures Valid() && this.cfg == cfg && this.cams == cams
    {
      this.cfg := cfg;
      this.cams := cams;
    }

    /** Results and samples change the named camera only; an unknown name changes nothing. */
    method HandleEvent(camera: string, e: Event)
      requires Valid() && WellFormed(One(camera, e))
      modifies cams.Values
      ensures forall n :: n in cams ==> StateOf(n) == if n == camera then Step(cfg, old(StateOf(n)), e) else old(StateOf(n))
    {
      if camera !in cams {
        return;
      }
      var c := cams[camera];
      match e {
        case Started(now) => c.HandleResult(cfg, None, now);
        case Failed(now, errText) => c.HandleResult(cfg, Some(errText), now);
        case Stats(now, packets, drops, dropped) => c.HandleStats(cfg, packets, drops, dropped, now);
        case _ => assert false;
      }
    }

    /** Ticks and connects reach every camera once. */
    method HandleAll(e: Event)
      requires Valid() && WellFormed(All(e))
      modifies cams.Values
      ensures forall n :: n in cams ==> StateOf(n) == Step(cfg, old(StateOf(n)), e)
    {
      var todo := cams.Keys;
      while todo != {}
        invariant todo <= cams.Keys
        invariant forall n :: n in cams ==> StateOf(n) == if n in todo then old(StateOf(n)) else Step(cfg, old(StateOf(n)), e)
        decreases todo
      {
        var name :| name in todo;
        todo := todo - {name};
        var c := cams[name];
        match e {
          case Tick(now) => c.HandleTick(cfg, now);
          case Connected(now) => c.OnConnect(cfg, now);
          case _ => assert false;
        }
      }
    }
  }

  // ---------- Cameras do not influence each other ----------

  function StepAll(cfg: Config, cams: map<string, Cam>, m: Message): (r: map<string, Cam>)
    ensures r.Keys == cams.Keys
  {
    map n | n in cams :: if Concerns(m, n) then Step(cfg, cams[n], m.e) else cams[n]
  }

  function RunAll(cfg: Config, cams: map<string, Cam>, ms: seq<Message>): (r: map<string, Cam>)
    ensures r.Keys == cams.Keys
  {
    if ms == [] then cams else StepAll(cfg, RunAll(cfg, cams, ms[..|ms| - 1]), ms[|ms| - 1])
  }

  /** The events a camera sees of the reporter's messages. */
  function Seen(ms: seq<Message>, name: string): seq<Event> {
    if ms == [] then []
    else
      var n := |ms| - 1;
      Seen(ms[..n], name) + if Concerns(ms[n], name) then [ms[n].e] else []
  }

  /** In a run of the whole reporter each camera is in the state of a machine of its own that saw only
      its own results and samples, and the ticks and connects. */
  lemma {:induction false} CamerasAreIndependent(cfg: Config, t0: int, names: set<string>, ms: seq<Message>, name: string)
    requires name in names
    ensures RunAll(cfg, map n | n in names :: InitCam(t0), ms)[name] == Run(cfg, t0, Seen(ms, name))
  {
    if ms == [] {
    } else {
      var n := |ms| - 1;
      CamerasAreIndependent(cfg, t0, names, ms[..n], name);
      if Concerns(ms[n], name) {
        RunSnoc(cfg, t0, Seen(ms[..n], name), ms[n].e);
      } else {
        assert Seen(ms, name) == Seen(ms[..n], name);
      }
    }
  }
}
