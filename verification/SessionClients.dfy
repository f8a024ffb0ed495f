/** Whom the session counts: the RTSP server reports clients that start playing and sessions that close
    (rtsp_server.go:589-593 and 617-634), and the session keeps only their number. Here a roster of the
    clients themselves runs beside the session, and the number is compared with it. */
module SessionClients {
  import opened Session

  /** The roster after step `l`, taken on behalf of client `c`. A client is on it from the connect that
      attaches it or starts the stream until it leaves or its start fails; a shutdown and a failed
      restart write everybody off. */
  function Roster(s: Sys, l: Step, a: set<nat>, c: nat): set<nat> {
    match l
    case Connect(_) => if ConnectOutcome(s.f).MustWait? then a else a + {c}
    case Wake(_) => if ConnectOutcome(s.f).MustWait? then a else a + {c}
    case StartDone(_, ok) => if ok then a else a - {c}
    case Disconnect(_) => a - {c}
    case RestartDone(_, ok) => if ok then a else {}
    case Shutdown(_) => if s.f.phase == Streaming then {} else a
    case _ => a
  }

  /** `rs[i]` is the roster in state `ss[i]`; `who[i]` is the client step i is taken for. */
  ghost predicate IsRosterOf(rs: seq<set<nat>>, who: seq<nat>, ss: seq<Sys>, ls: seq<Step>) {
    && |who| == |ls| && |rs| == |ss| == |ls| + 1
    && rs[0] == {}
    && forall i :: 0 <= i < |ls| ==> rs[i + 1] == Roster(ss[i], ls[i], rs[i], who[i])
  }

  predicate Matches(s: Sys, a: set<nat>) {
    s.f.clients == |a|
  }

  /** The four ways in which the number and the roster part:
      a client that is on the roster connects again;
      a start fails whose client has left already;
      a client that is not on the roster closes its session while others are counted;
      a restart succeeds after the roster has changed size. */
  predicate Miscounts(s: Sys, l: Step, a: set<nat>, c: nat)
    requires Enabled(s, l)
  {
    match l
    case Connect(_) => !ConnectOutcome(s.f).MustWait? && c in a
    case Wake(_) => !ConnectOutcome(s.f).MustWait? && c in a
    case StartDone(_, ok) => !ok && c !in a
    case Disconnect(_) => s.f.clients > 0 && c !in a
    case RestartDone(t, ok) => ok && s.threads[t].saved != |a|
    case _ => false
  }

  lemma Sizes(a: set<nat>, c: nat)
    ensures |a + {c}| == if c in a then |a| else |a| + 1
    ensures |a - {c}| == if c in a then |a| - 1 else |a|
  {
    if c in a {
      assert a + {c} == a && a == (a - {c}) + {c};
    } else {
      assert a - {c} == a;
    }
  }

  lemma MatchStep(warm: bool, s: Sys, l: Step, a: set<nat>, c: nat)
    requires Enabled(s, l) && Matches(s, a)
    ensures Matches(Apply(warm, s, l), Roster(s, l, a, c)) <==> !Miscounts(s, l, a, c)
  {
    Sizes(a, c);
    if l.Disconnect? && s.f.clients == 0 {
      assert a == {};
    }
  }

  lemma {:induction false} MatchAlways(
      warm: bool, ss: seq<Sys>, ls: seq<Step>, who: seq<nat>, rs: seq<set<nat>>, n: nat)
    requires IsRun(warm, ss, ls) && IsRosterOf(rs, who, ss, ls) && n < |ss|
    requires forall i :: 0 <= i < n ==> !Miscounts(ss[i], ls[i], rs[i], who[i])
    ensures Matches(ss[n], rs[n])
  {
    if n == 0 {
    } else {
      MatchAlways(warm, ss, ls, who, rs, n - 1);
      MatchStep(warm, ss[n - 1], ls[n - 1], rs[n - 1], who[n - 1]);
    }
  }

  /** In every interleaving the client count is the size of the roster throughout if and only if none
      of the four things happens. */
  lemma CountIsRosterIff(warm: bool, ss: seq<Sys>, ls: seq<Step>, who: seq<nat>, rs: seq<set<nat>>)
    requires IsRun(warm, ss, ls) && IsRosterOf(rs, who, ss, ls)
    ensures (forall n :: 0 <= n < |ss| ==> ss[n].f.clients == |rs[n]|)
            <==> (forall i :: 0 <= i < |ls| ==> !Miscounts(ss[i], ls[i], rs[i], who[i]))
  {
    if forall i :: 0 <= i < |ls| ==> !Miscounts(ss[i], ls[i], rs[i], who[i]) {
      forall n | 0 <= n < |ss| ensures Matches(ss[n], rs[n]) {
        MatchAlways(warm, ss, ls, who, rs, n);
      }
    }
    if forall n :: 0 <= n < |ss| ==> ss[n].f.clients == |rs[n]| {
      forall i | 0 <= i < |ls| ensures !Miscounts(ss[i], ls[i], rs[i], who[i]) {
        assert Matches(ss[i], rs[i]) && Matches(ss[i + 1], rs[i + 1]);
        MatchStep(warm, ss[i], ls[i], rs[i], who[i]);
      }
    }
  }

  /** A step with which the session stops the stream by itself. */
  predicate StopsByItself(warm: bool, s: Sys, l: Step) {
    (l.Disconnect? && DisconnectStops(s.f, warm)) || (l.TimerRuns? && TimerStops(s.f))
  }

  /** Then nobody is cut off: a disconnect or an idle timer stops the stream only when the roster is
      empty, and without warm mode the last one to leave a stream that is up always stops it. */
  lemma NobodyIsCutOff(warm: bool, ss: seq<Sys>, ls: seq<Step>, who: seq<nat>, rs: seq<set<nat>>, n: nat)
    requires IsRun(warm, ss, ls) && IsRosterOf(rs, who, ss, ls) && n < |ls|
    requires forall i :: 0 <= i <= n ==> !Miscounts(ss[i], ls[i], rs[i], who[i])
    ensures StopsByItself(warm, ss[n], ls[n]) ==> rs[n + 1] == {}
    ensures !warm && ls[n].Disconnect? && ss[n].f.phase == Streaming && rs[n] == {who[n]} ==>
              StopsByItself(warm, ss[n], ls[n]) && ss[n + 1].f.phase == Stopping
  {
    MatchAlways(warm, ss, ls, who, rs, n);
    MatchAlways(warm, ss, ls, who, rs, n + 1);
    if StopsByItself(warm, ss[n], ls[n]) {
      InvAlways(warm, ss, ls, n);
      assert ss[n + 1].f.clients == 0;
    }
  }

  /** A client whose start fails is closed, and its closing is reported like any other: if another client
      has started the stream in the meantime, the stream stops under it. */
  lemma FailedClientCutsOff(u: nat, v: nat)
    requires u != v
    ensures var ls := [Connect(u), StartDone(u, false), Connect(v), StartDone(v, true), Disconnect(u)];
            exists ss: seq<Sys>, rs: seq<set<nat>> ::
              && IsRun(false, ss, ls) && IsRosterOf(rs, [u, u, v, v, u], ss, ls)
              && ss[5].f.phase == Stopping && rs[5] == {v}
  {
    var ls := [Connect(u), StartDone(u, false), Connect(v), StartDone(v, true), Disconnect(u)];
    var s1 := Apply(false, Init, ls[0]);
    var s2 := Apply(false, s1, ls[1]);
    assert s2.threads == map[];
    var s3 := Apply(false, s2, ls[2]);
    var s4 := Apply(false, s3, ls[3]);
    assert s4.threads == map[];
    var s5 := Apply(false, s4, ls[4]);
    var ss := [Init, s1, s2, s3, s4, s5];
    assert IsRun(false, ss, ls);
    var rs: seq<set<nat>> := [{}, {u}, {}, {v}, {v}, {v}];
    assert IsRosterOf(rs, [u, u, v, v, u], ss, ls);
  }

  /** A client that only looks around, a session closed before it ever played, does the same to a client
      that watches alone. */
  lemma VisitorCutsOff(u: nat, v: nat)
    requires u != v
    ensures var ls := [Connect(v), StartDone(v, true), Disconnect(u)];
            exists ss: seq<Sys>, rs: seq<set<nat>> ::
              && IsRun(false, ss, ls) && IsRosterOf(rs, [v, v, u], ss, ls)
              && ss[3].f.phase == Stopping && rs[3] == {v}
  {
    var ls := [Connect(v), StartDone(v, true), Disconnect(u)];
    var s1 := Apply(false, Init, ls[0]);
    var s2 := Apply(false, s1, ls[1]);
    assert s2.threads == map[];
    var s3 := Apply(false, s2, ls[2]);
    var ss := [Init, s1, s2, s3];
    assert IsRun(false, ss, ls);
    var rs: seq<set<nat>> := [{}, {v}, {v}, {v}];
    assert IsRosterOf(rs, [v, v, u], ss, ls);
  }
}
