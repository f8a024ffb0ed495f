/** Request/response correspondence on one HAP connection: a reader goroutine sorts responses from
    EVENTs, requests are serialised by a mutex, and a peer answers each request once and in order.
    One step is one channel operation or one region under the mutex. */
module HapClient {
  import opened Seqs

  const RESP_CAP := 1
  const EVENT_CAP := 16

  /** A message on the wire: the n-th response, or an EVENT (whose body may not parse). */
  datatype Msg = Response(n: nat) | EventMsg(id: nat, parses: bool)

  /** What the reader hands to a request. */
  datatype Result = Reply(n: nat) | ReadError

  /** Offering: blocked in, or about to do, a send to respCh; `last` when it exits afterwards. */
  datatype Reader = Reading | Offering(res: Result, last: bool) | Exited

  /** What a request returned. */
  datatype Outcome = Got(n: nat) | TimedOut | Failed | Closed

  /** `log[k]` is what request k returned; request |log| is the one that waits, if any. The wire holds
      what the peer sent and the reader has not read. `taken`, `lost` and `events` are the EVENTs handed
      to the consumer, dropped for lack of room, and read in all. */
  datatype Client = Client(
    wire: seq<Msg>, reader: Reader, respCh: seq<Result>, eventCh: seq<nat>, waiting: bool,
    answered: nat, log: seq<Outcome>, taken: seq<nat>, lost: nat, events: seq<nat>)

  const Init := Client([], Reading, [], [], false, 0, [], [], 0, [])

  function Sent(c: Client): nat {
    |c.log| + if c.waiting then 1 else 0
  }

  datatype Step =
    | Issue               // doRequest takes the mutex and writes
    | IssueFails          // its write fails: nothing was sent, and it returns with the mutex released
    | Answer              // the peer answers the oldest unanswered request
    | Notify(id: nat, parses: bool)
    | Read                // the reader takes the next message
    | Break               // the connection fails under the reader
    | Offer               // the reader's send to respCh goes through
    | Receive             // the waiting request takes a result
    | Timeout             // 30 seconds pass
    | SeeClosed           // the waiting request sees the reader gone
    | TakeEvent

  predicate Enabled(c: Client, l: Step) {
    match l
    case Issue => !c.waiting
    case IssueFails => !c.waiting
    case Answer => c.answered < Sent(c)
    case Notify(_, _) => true
    case Read => c.reader.Reading? && c.wire != []
    case Break => c.reader.Reading?
    case Offer => c.reader.Offering? && |c.respCh| < RESP_CAP
    case Receive => c.waiting && c.respCh != []
    case Timeout => c.waiting
    case SeeClosed => c.waiting && c.reader.Exited?
    case TakeEvent => c.eventCh != []
  }

  function Dispatch(c: Client, m: Msg): Client {
    match m
    case Response(n) => c.(reader := Offering(Reply(n), false))
    case EventMsg(id, parses) =>
      if !parses then c
      else if |c.eventCh| < EVENT_CAP then c.(eventCh := c.eventCh + [id], events := c.events + [id])
      else c.(lost := c.lost + 1, events := c.events + [id])
  }

  function Returned(c: Client, o: Outcome): Client {
    c.(waiting := false, log := c.log + [o])
  }

  function OutcomeOf(r: Result): Outcome {
    match r
    case Reply(n) => Got(n)
    case ReadError => Failed
  }

  function Apply(c: Client, l: Step): Client
    requires Enabled(c, l)
  {
    match l
    case Issue => c.(waiting := true)
    case IssueFails => c
    case Answer => c.(wire := c.wire + [Response(c.answered)], answered := c.answered + 1)
    case Notify(id, parses) => c.(wire := c.wire + [EventMsg(id, parses)])
    case Read => Dispatch(c.(wire := c.wire[1..]), c.wire[0])
    case Break => c.(reader := Offering(ReadError, true))
    case Offer => c.(respCh := c.respCh + [c.reader.res], reader := if c.reader.last then Exited else Reading)
    case Receive => Returned(c.(respCh := c.respCh[1..]), OutcomeOf(c.respCh[0]))
    case Timeout => Returned(c, TimedOut)
    case SeeClosed => Returned(c, Closed)
    case TakeEvent => c.(taken := c.taken + [c.eventCh[0]], eventCh := c.eventCh[1..])
  }

  ghost predicate IsRun(cs: seq<Client>, ls: seq<Step>) {
    && |cs| == |ls| + 1
    && cs[0] == Init
    && (forall i :: 0 <= i < |ls| ==> Enabled(cs[i], ls[i]) && cs[i + 1] == Apply(cs[i], ls[i]))
  }

  // ---------- Responses travel in order ----------

  function RepliesIn(rs: seq<Result>): seq<nat> {
    if rs == [] then []
    else (if rs[0].Reply? then [rs[0].n] else []) + RepliesIn(rs[1..])
  }

  function ResponsesIn(ms: seq<Msg>): seq<nat> {
    if ms == [] then []
    else (if ms[0].Response? then [ms[0].n] else []) + ResponsesIn(ms[1..])
  }

  lemma {:induction false} RepliesSnoc(rs: seq<Result>, r: Result)
    ensures RepliesIn(rs + [r]) == RepliesIn(rs) + if r.Reply? then [r.n] else []
  {
    if rs == [] {
      assert rs + [r] == [r] && [r][1..] == [];
    } else {
      assert (rs + [r])[1..] == rs[1..] + [r];
      RepliesSnoc(rs[1..], r);
      Assoc(if rs[0].Reply? then [rs[0].n] else [], RepliesIn(rs[1..]), if r.Reply? then [r.n] else []);
    }
  }

  lemma {:induction false} ResponsesSnoc(ms: seq<Msg>, m: Msg)
    ensures ResponsesIn(ms + [m]) == ResponsesIn(ms) + if m.Response? then [m.n] else []
  {
    if ms == [] {
      assert ms + [m] == [m] && [m][1..] == [];
    } else {
      assert (ms + [m])[1..] == ms[1..] + [m];
      ResponsesSnoc(ms[1..], m);
      Assoc(if ms[0].Response? then [ms[0].n] else [], ResponsesIn(ms[1..]), if m.Response? then [m.n] else []);
    }
  }

  function Offered(r: Reader): seq<nat> {
    if r.Offering? && r.res.Reply? then [r.res.n] else []
  }

  /** The responses the reader has taken and no request has. */
  function Held(c: Client): seq<nat> {
    RepliesIn(c.respCh) + Offered(c.reader)
  }

  /** Held responses, then those on the wire. */
  function Pending(c: Client): seq<nat> {
    Held(c) + ResponsesIn(c.wire)
  }

  function GotCount(log: seq<Outcome>): (n: nat)
    ensures n <= |log|
  {
    if log == [] then 0 else GotCount(log[..|log| - 1]) + if log[|log| - 1].Got? then 1 else 0
  }

  lemma GotSnoc(log: seq<Outcome>, o: Outcome)
    ensures GotCount(log + [o]) == GotCount(log) + if o.Got? then 1 else 0
  {
    assert (log + [o])[..|log|] == log;
  }

  predicate Counts(ns: seq<nat>, from: nat) {
    forall i :: 0 <= i < |ns| ==> ns[i] == from + i
  }

  /** Does the reader still take messages? */
  predicate Alive(r: Reader) {
    r.Reading? || (r.Offering? && !r.last)
  }

  /** Responses not yet returned, in order: those held, then those on the wire, are consecutive from
      the number of responses returned so far; while the reader lives they reach to the last answer. */
  ghost predicate InOrder(c: Client) {
    && Counts(Pending(c), GotCount(c.log))
    && GotCount(c.log) + |Pending(c)| == c.answered
    && c.answered <= Sent(c)
    && |c.respCh| <= RESP_CAP
    && (c.reader.Offering? && c.reader.last ==> c.reader.res.ReadError?)
    && (forall k :: 0 <= k < |c.log| && c.log[k].Got? ==> c.log[k].n == GotCount(c.log[..k]))
  }

  lemma CountsSplit(a: seq<nat>, b: seq<nat>, from: nat)
    ensures Counts(a + b, from) <==> Counts(a, from) && Counts(b, from + |a|)
  {
    var ab := a + b;
    if Counts(ab, from) {
      assert forall i :: 0 <= i < |a| ==> ab[i] == a[i];
      assert forall i :: 0 <= i < |b| ==> ab[|a| + i] == b[i];
    }
  }

  /** A response moves from the wire to the reader without changing places. */
  lemma ReadMoves(c: Client)
    requires Enabled(c, Read)
    ensures var c' := Apply(c, Read);
            Pending(c') == Pending(c) && c'.log == c.log && c'.answered == c.answered && Sent(c') == Sent(c)
  {
    var rs, rest := RepliesIn(c.respCh), ResponsesIn(c.wire[1..]);
    assert rs + [] == rs && [] + rest == rest;
    if c.wire[0].Response? {
      Assoc(rs, [c.wire[0].n], rest);
    }
  }

  lemma ReadInOrder(c: Client)
    requires InOrder(c) && Enabled(c, Read)
    ensures InOrder(Apply(c, Read))
  {
    ReadMoves(c);
  }

  lemma OfferInOrder(c: Client)
    requires InOrder(c) && Enabled(c, Offer)
    ensures InOrder(Apply(c, Offer))
  {
    RepliesSnoc(c.respCh, c.reader.res);
    assert Held(Apply(c, Offer)) == Held(c);
  }

  lemma AnswerInOrder(c: Client)
    requires InOrder(c) && Enabled(c, Answer)
    ensures InOrder(Apply(c, Answer))
  {
    ResponsesSnoc(c.wire, Response(c.answered));
    Assoc(Held(c), ResponsesIn(c.wire), [c.answered]);
    CountsSplit(Held(c) + ResponsesIn(c.wire), [c.answered], GotCount(c.log));
  }

  lemma ReturnedInOrder(c: Client, o: Outcome)
    requires InOrder(c) && c.waiting && !o.Got?
    ensures InOrder(Returned(c, o))
  {
    GotSnoc(c.log, o);
    LogGrows(c.log, o);
  }

  lemma LogGrows(log: seq<Outcome>, o: Outcome)
    requires forall k :: 0 <= k < |log| && log[k].Got? ==> log[k].n == GotCount(log[..k])
    requires o.Got? ==> o.n == GotCount(log)
    ensures var qs := log + [o]; forall k :: 0 <= k < |qs| && qs[k].Got? ==> qs[k].n == GotCount(qs[..k])
  {
    var qs := log + [o];
    forall k | 0 <= k < |qs| && qs[k].Got? ensures qs[k].n == GotCount(qs[..k]) {
      if k < |log| {
        assert qs[..k] == log[..k];
      } else {
        assert qs[..k] == log;
      }
    }
  }

  function ReplyOf(r: Result): seq<nat> {
    if r.Reply? then [r.n] else []
  }

  /** The result taken is the front of what is pending. */
  lemma ReceiveMoves(c: Client)
    requires Enabled(c, Receive)
    ensures Pending(c) == ReplyOf(c.respCh[0]) + Pending(Apply(c, Receive))
  {
    var front, rest := ReplyOf(c.respCh[0]), RepliesIn(c.respCh[1..]);
    Assoc(front, rest, Offered(c.reader));
    Assoc(front, rest + Offered(c.reader), ResponsesIn(c.wire));
  }

  lemma FrontCounts(front: seq<nat>, rest: seq<nat>, from: nat)
    requires Counts(front + rest, from)
    ensures Counts(rest, from + |front|) && (front != [] ==> front[0] == from)
  {
    CountsSplit(front, rest, from);
  }

  lemma ReceiveCounts(c: Client)
    requires InOrder(c) && Enabled(c, Receive)
    ensures var c', r, got := Apply(c, Receive), c.respCh[0], GotCount(c.log);
            && |Pending(c)| == |ReplyOf(r)| + |Pending(c')|
            && Counts(Pending(c'), got + |ReplyOf(r)|)
            && (r.Reply? ==> r.n == got)
  {
    ReceiveMoves(c);
    FrontCounts(ReplyOf(c.respCh[0]), Pending(Apply(c, Receive)), GotCount(c.log));
  }

  lemma ReceiveInOrder(c: Client)
    requires InOrder(c) && Enabled(c, Receive)
    ensures InOrder(Apply(c, Receive))
  {
    ReceiveCounts(c);
    GotSnoc(c.log, OutcomeOf(c.respCh[0]));
    LogGrows(c.log, OutcomeOf(c.respCh[0]));
  }

  /** What InOrder depends on. */
  lemma InOrderDepends(c: Client, c': Client)
    requires InOrder(c) && Pending(c') == Pending(c) && c'.log == c.log && c'.answered == c.answered
    requires Sent(c') >= Sent(c) && c'.respCh == c.respCh
    requires c'.reader.Offering? && c'.reader.last ==> c'.reader.res.ReadError?
    ensures InOrder(c')
  {
  }

  lemma NotifyInOrder(c: Client, id: nat, parses: bool)
    requires InOrder(c)
    ensures InOrder(Apply(c, Notify(id, parses)))
  {
    ResponsesSnoc(c.wire, EventMsg(id, parses));
    assert ResponsesIn(c.wire) + [] == ResponsesIn(c.wire);
    InOrderDepends(c, Apply(c, Notify(id, parses)));
  }

  lemma StepInOrder(c: Client, l: Step)
    requires InOrder(c) && Enabled(c, l)
    ensures InOrder(Apply(c, l))
  {
    match l {
      case Answer => AnswerInOrder(c);
      case Read => ReadInOrder(c);
      case Offer => OfferInOrder(c);
      case Receive => ReceiveInOrder(c);
      case Timeout => ReturnedInOrder(c, TimedOut);
      case SeeClosed => ReturnedInOrder(c, Closed);
      case Notify(id, parses) => NotifyInOrder(c, id, parses);
      case _ => InOrderDepends(c, Apply(c, l));
    }
  }

  lemma {:induction false} InOrderAlways(cs: seq<Client>, ls: seq<Step>, n: nat)
    requires IsRun(cs, ls) && n < |cs|
    ensures InOrder(cs[n])
  {
    if n == 0 {
    } else {
      InOrderAlways(cs, ls, n - 1);
      StepInOrder(cs[n - 1], ls[n - 1]);
    }
  }

  // ---------- Which response a request gets ----------

  function NotAnswered(log: seq<Outcome>): nat {
    |log| - GotCount(log)
  }

  /** In every run at all, with EVENTs, timeouts and connection failures anywhere: a request that
      returns a response returns the one that lags behind it by the number of earlier requests that
      returned none. So it gets its own response if and only if every earlier request got one. */
  lemma RepliesLagByTimeouts(cs: seq<Client>, ls: seq<Step>, n: nat, k: nat)
    requires IsRun(cs, ls) && n < |cs| && k < |cs[n].log| && cs[n].log[k].Got?
    ensures var log := cs[n].log;
            && log[k].n == k - NotAnswered(log[..k])
            && (log[k].n == k <==> NotAnswered(log[..k]) == 0)
  {
    InOrderAlways(cs, ls, n);
  }

  predicate Smooth(l: Step) {
    !l.Timeout? && !l.Break?
  }

  ghost predicate AllGot(c: Client) {
    && c.reader != Exited && Alive(c.reader)
    && (forall k :: 0 <= k < |c.log| ==> c.log[k].Got?)
    && (forall i :: 0 <= i < |c.respCh| ==> c.respCh[i].Reply?)
    && (c.reader.Offering? ==> c.reader.res.Reply?)
  }

  lemma {:induction false} SmoothRuns(cs: seq<Client>, ls: seq<Step>, n: nat)
    requires IsRun(cs, ls) && n < |cs| && forall i :: 0 <= i < n ==> Smooth(ls[i])
    ensures AllGot(cs[n])
  {
    if n == 0 {
    } else {
      SmoothRuns(cs, ls, n - 1);
    }
  }

  lemma {:induction false} AllGotCount(log: seq<Outcome>)
    requires forall k :: 0 <= k < |log| ==> log[k].Got?
    ensures GotCount(log) == |log|
  {
    if log == [] {
    } else {
      AllGotCount(log[..|log| - 1]);
    }
  }

  /** Without timeouts and connection failures, however EVENTs interleave: request k returns response
      k, at most one response is under way beyond the peer, and the reader is never blocked. */
  lemma RequestsGetTheirResponses(cs: seq<Client>, ls: seq<Step>, n: nat)
    requires IsRun(cs, ls) && n < |cs| && forall i :: 0 <= i < n ==> Smooth(ls[i])
    ensures var c := cs[n];
            && (forall k :: 0 <= k < |c.log| ==> c.log[k] == Got(k))
            && |c.respCh| <= 1
            && (c.reader.Offering? ==> Enabled(c, Offer))
  {
    InOrderAlways(cs, ls, n);
    SmoothRuns(cs, ls, n);
    var c := cs[n];
    AllGotCount(c.log);
    forall k | 0 <= k < |c.log| ensures c.log[k] == Got(k) {
      AllGotCount(c.log[..k]);
    }
  }

  // ---------- EVENTs ----------

  ghost predicate EventsKept(c: Client) {
    && |c.eventCh| <= 16
    && |c.taken| + |c.eventCh| + c.lost == |c.events|
    && (c.lost == 0 ==> c.taken + c.eventCh == c.events)
  }

  lemma EventsStep(c: Client, l: Step)
    requires EventsKept(c) && Enabled(c, l)
    ensures EventsKept(Apply(c, l))
  {
    if l.TakeEvent? {
      assert c.eventCh == [c.eventCh[0]] + c.eventCh[1..];
      Assoc(c.taken, [c.eventCh[0]], c.eventCh[1..]);
    } else if l.Read? && c.wire[0].EventMsg? {
      Assoc(c.taken, c.eventCh, [c.wire[0].id]);
    }
  }

  /** The event queue never exceeds 16; every parsed EVENT is taken, queued or counted lost, and as
      long as none was lost they reach the consumer complete and in order. */
  lemma {:induction false} EventsAreConserved(cs: seq<Client>, ls: seq<Step>, n: nat)
    requires IsRun(cs, ls) && n < |cs|
    ensures EventsKept(cs[n])
  {
    if n == 0 {
    } else {
      EventsAreConserved(cs, ls, n - 1);
      EventsStep(cs[n - 1], ls[n - 1]);
    }
  }

  /** The ids of the EVENTs whose body parses. */
  function ParsingIds(ms: seq<Msg>): seq<nat> {
    if ms == [] then []
    else (if ms[0].EventMsg? && ms[0].parses then [ms[0].id] else []) + ParsingIds(ms[1..])
  }

  /** What the peer announced with a body that parses. */
  function Announced(ls: seq<Step>): seq<nat> {
    if ls == [] then []
    else
      var l := ls[|ls| - 1];
      Announced(ls[..|ls| - 1]) + if l.Notify? && l.parses then [l.id] else []
  }

  lemma {:induction false} ParsingSnoc(ms: seq<Msg>, m: Msg)
    ensures ParsingIds(ms + [m]) == ParsingIds(ms) + if m.EventMsg? && m.parses then [m.id] else []
  {
    if ms == [] {
      assert ms + [m] == [m] && [m][1..] == [];
    } else {
      assert (ms + [m])[1..] == ms[1..] + [m];
      ParsingSnoc(ms[1..], m);
      Assoc(if ms[0].EventMsg? && ms[0].parses then [ms[0].id] else [], ParsingIds(ms[1..]),
            if m.EventMsg? && m.parses then [m.id] else []);
    }
  }

  lemma AnnouncedStep(c: Client, l: Step, ids: seq<nat>)
    requires Enabled(c, l) && c.events + ParsingIds(c.wire) == ids
    ensures var c' := Apply(c, l); c'.events + ParsingIds(c'.wire) == ids + if l.Notify? && l.parses then [l.id] else []
  {
    match l {
      case Answer =>
        ParsingSnoc(c.wire, Response(c.answered));
        assert ParsingIds(c.wire) + [] == ParsingIds(c.wire);
      case Notify(id, parses) =>
        ParsingSnoc(c.wire, EventMsg(id, parses));
        Assoc(c.events, ParsingIds(c.wire), if parses then [id] else []);
      case Read =>
        var front: seq<nat> := if c.wire[0].EventMsg? && c.wire[0].parses then [c.wire[0].id] else [];
        Assoc(c.events, front, ParsingIds(c.wire[1..]));
        assert front == [] ==> c.events + [] == c.events;
      case _ =>
    }
    assert ids + [] == ids;
  }

  /** In every run the EVENTs read, followed by those still on the wire, are the peer's announcements that
      parse, in order; malformed ones add nothing. */
  lemma {:induction false} EventsAreThePeers(cs: seq<Client>, ls: seq<Step>, n: nat)
    requires IsRun(cs, ls) && n < |cs|
    ensures cs[n].events + ParsingIds(cs[n].wire) == Announced(ls[..n])
  {
    if n == 0 {
    } else {
      EventsAreThePeers(cs, ls, n - 1);
      AnnouncedStep(cs[n - 1], ls[n - 1], Announced(ls[..n - 1]));
      assert ls[..n][..n - 1] == ls[..n - 1];
    }
  }

  /** An EVENT is lost if and only if it is read while exactly 16 others wait, which stay as they are; otherwise
      it joins them at the end. Nothing else but the consumer, who takes the first, touches the queue. */
  lemma EventLostIff(cs: seq<Client>, ls: seq<Step>, i: nat)
    requires IsRun(cs, ls) && i < |ls|
    ensures var c, c' := cs[i], cs[i + 1];
            var readsEvent := ls[i].Read? && c.wire[0].EventMsg? && c.wire[0].parses;
            && (c'.lost == if readsEvent && |c.eventCh| == 16 then c.lost + 1 else c.lost)
            && (ls[i].TakeEvent? ==> c.eventCh == [c'.taken[|c.taken|]] + c'.eventCh && |c'.taken| == |c.taken| + 1)
            && (!ls[i].TakeEvent? ==>
                  c'.eventCh == if readsEvent && |c.eventCh| < 16 then c.eventCh + [c.wire[0].id] else c.eventCh)
  {
    EventsAreConserved(cs, ls, i);
  }

  // ---------- How requests end ----------

  function Tally(log: seq<Outcome>, o: Outcome): nat {
    if log == [] then 0 else Tally(log[..|log| - 1], o) + if log[|log| - 1] == o then 1 else 0
  }

  function Steps(ls: seq<Step>, l: Step): nat {
    if ls == [] then 0 else Steps(ls[..|ls| - 1], l) + if ls[|ls| - 1] == l then 1 else 0
  }

  lemma TallySnoc(log: seq<Outcome>, o: Outcome, p: Outcome)
    ensures Tally(log + [o], p) == Tally(log, p) + if o == p then 1 else 0
  {
    assert (log + [o])[..|log|] == log;
  }

  /** Read errors on their way to a request. */
  function ErrorsHeld(c: Client): nat {
    (if c.respCh != [] && c.respCh[0].ReadError? then 1 else 0) +
    (if c.reader.Offering? && c.reader.res.ReadError? then 1 else 0)
  }

  predicate Ended(c: Client, timeouts: nat, closings: nat, breaks: nat) {
    && |c.respCh| <= 1
    && Tally(c.log, TimedOut) == timeouts
    && Tally(c.log, Closed) == closings
    && Tally(c.log, Failed) + ErrorsHeld(c) == breaks
    && breaks == (if Alive(c.reader) then 0 else 1)
  }

  /** What the step l makes the waiting request return, if anything. */
  function Verdict(c: Client, l: Step): seq<Outcome>
    requires Enabled(c, l)
  {
    match l
    case Timeout => [TimedOut]
    case SeeClosed => [Closed]
    case Receive => [OutcomeOf(c.respCh[0])]
    case _ => []
  }

  lemma LogStep(c: Client, l: Step)
    requires Enabled(c, l)
    ensures Apply(c, l).log == c.log + Verdict(c, l)
  {
  }

  lemma TallyStep(c: Client, l: Step, o: Outcome)
    requires Enabled(c, l)
    ensures Tally(Apply(c, l).log, o) == Tally(c.log, o) + if Verdict(c, l) == [o] then 1 else 0
  {
    LogStep(c, l);
    if Verdict(c, l) == [] {
      assert c.log + [] == c.log;
    } else {
      TallySnoc(c.log, Verdict(c, l)[0], o);
    }
  }

  /** Read errors are made by a break and leave with a request. */
  lemma ErrorsHeldStep(c: Client, l: Step)
    requires Enabled(c, l) && |c.respCh| <= 1
    ensures var c' := Apply(c, l);
            && |c'.respCh| <= 1
            && ErrorsHeld(c') + (if Verdict(c, l) == [Failed] then 1 else 0) ==
               ErrorsHeld(c) + (if l.Break? then 1 else 0)
            && (Alive(c'.reader) <==> Alive(c.reader) && !l.Break?)
            && (l.Break? ==> Alive(c.reader))
  {
  }

  lemma {:induction false} EndedAlways(cs: seq<Client>, ls: seq<Step>, n: nat)
    requires IsRun(cs, ls) && n < |cs|
    ensures Ended(cs[n], Steps(ls[..n], Timeout), Steps(ls[..n], SeeClosed), Steps(ls[..n], Break))
  {
    if n == 0 {
    } else {
      EndedAlways(cs, ls, n - 1);
      var c, l := cs[n - 1], ls[n - 1];
      TallyStep(c, l, TimedOut);
      TallyStep(c, l, Closed);
      TallyStep(c, l, Failed);
      ErrorsHeldStep(c, l);
      assert ls[..n][..n - 1] == ls[..n - 1];
    }
  }

  lemma SentStep(c: Client, l: Step)
    requires Enabled(c, l)
    ensures Sent(Apply(c, l)) == Sent(c) + if l.Issue? then 1 else 0
  {
  }

  lemma {:induction false} IssuedAlways(cs: seq<Client>, ls: seq<Step>, n: nat)
    requires IsRun(cs, ls) && n < |cs|
    ensures Sent(cs[n]) == Steps(ls[..n], Issue)
  {
    if n == 0 {
    } else {
      IssuedAlways(cs, ls, n - 1);
      SentStep(cs[n - 1], ls[n - 1]);
      assert ls[..n][..n - 1] == ls[..n - 1];
    }
  }

  /** In every run: every request issued has returned or is the one that waits; as many return a timeout as
      timers ran out, and as many a closed connection as saw the reader gone; the connection breaks at most
      once, and at most one request returns the read error. */
  lemma OutcomesAreCounted(cs: seq<Client>, ls: seq<Step>, n: nat)
    requires IsRun(cs, ls) && n < |cs|
    ensures var log, past := cs[n].log, ls[..n];
            && |log| + (if cs[n].waiting then 1 else 0) == Steps(past, Issue)
            && Tally(log, TimedOut) == Steps(past, Timeout)
            && Tally(log, Closed) == Steps(past, SeeClosed)
            && Tally(log, Failed) <= Steps(past, Break) <= 1
  {
    EndedAlways(cs, ls, n);
    IssuedAlways(cs, ls, n);
  }

  // ---------- What a timeout does ----------

  /** No response is under way and every request was answered. */
  predicate IdleInStep(c: Client) {
    c.wire == [] && c.respCh == [] && c.reader == Reading && !c.waiting && c.answered == |c.log|
  }

  /** One request that times out on an idle client. */
  lemma TimesOut(c: Client)
    requires !c.waiting
    ensures Enabled(c, Issue) && Enabled(Apply(c, Issue), Timeout)
    ensures Apply(Apply(c, Issue), Timeout) == Returned(c, TimedOut)
  {
  }

  /** One timeout and its late reply, on any idle client: the next request is handed that reply. The
      client starts out idle. */
  lemma LateReplyGoesToNextRequest(c: Client)
    requires IdleInStep(c)
    ensures Enabled(c, Issue)
            && var c1 := Apply(c, Issue);
            && Enabled(c1, Timeout)
            && var c2 := Apply(c1, Timeout);
            && Enabled(c2, Answer)
            && var c3 := Apply(c2, Answer);
            && Enabled(c3, Read)
            && var c4 := Apply(c3, Read);
            && Enabled(c4, Offer)
            && var c5 := Apply(c4, Offer);
            && Enabled(c5, Issue)
            && var c6 := Apply(c5, Issue);
            && Enabled(c6, Receive)
            && Apply(c6, Receive).log == c.log + [TimedOut] + [Got(c.answered)]
    ensures IdleInStep(Init)
  {
    TimesOut(c);
    assert Apply(Returned(c, TimedOut), Answer).wire == [Response(c.answered)];
  }

  /** The reader is stuck behind a full respCh, so EVENTs on the wire stay there. */
  predicate Stalled(c: Client) {
    c.reader.Offering? && |c.respCh| == 1 && !c.waiting
  }

  /** A stalled client stays stalled, reading no EVENT, until the next request is issued. */
  lemma StalledUntilNextRequest(c: Client, l: Step)
    requires Stalled(c) && Enabled(c, l) && !l.Issue?
    ensures var c' := Apply(c, l); Stalled(c') && c'.events == c.events && c.wire <= c'.wire
  {
  }

  /** A read error is the last thing the reader offers. */
  predicate ErrorsLast(c: Client) {
    && (c.reader.Offering? ==> (c.reader.last <==> c.reader.res.ReadError?))
    && (forall i :: 0 <= i < |c.respCh| ==> c.respCh[i].Reply? || c.reader.Exited?)
  }

  lemma {:induction false} ErrorsLastAlways(cs: seq<Client>, ls: seq<Step>, n: nat)
    requires IsRun(cs, ls) && n < |cs|
    ensures ErrorsLast(cs[n])
  {
    if n == 0 {
    } else {
      ErrorsLastAlways(cs, ls, n - 1);
      ErrorsLastStep(cs[n - 1], ls[n - 1]);
    }
  }

  lemma StallCount(c: Client)
    requires InOrder(c) && ErrorsLast(c) && Stalled(c)
    ensures NotAnswered(c.log) >= if Alive(c.reader) then 2 else 1
  {
    assert c.respCh == [c.respCh[0]] && c.respCh[1..] == [];
    assert |Pending(c)| >= |Held(c)|;
  }

  /** In every run a stalled client has at least two requests that returned no response, or one on a
      connection that failed. So a single timeout never stalls a living connection. */
  lemma StallNeedsTwoTimeouts(cs: seq<Client>, ls: seq<Step>, n: nat)
    requires IsRun(cs, ls) && n < |cs| && Stalled(cs[n])
    ensures NotAnswered(cs[n].log) >= if Alive(cs[n].reader) then 2 else 1
  {
    InOrderAlways(cs, ls, n);
    ErrorsLastAlways(cs, ls, n);
    StallCount(cs[n]);
  }

  /** Two do: two requests that time out and are answered late stall an otherwise idle client. */
  lemma TwoLateRepliesStall(c: Client)
    requires IdleInStep(c)
    ensures Enabled(c, Issue)
            && var c1 := Apply(c, Issue);
            && Enabled(c1, Timeout)
            && var c2 := Apply(c1, Timeout);
            && Enabled(c2, Issue)
            && var c3 := Apply(c2, Issue);
            && Enabled(c3, Timeout)
            && var c4 := Apply(c3, Timeout);
            && Enabled(c4, Answer)
            && var c5 := Apply(c4, Answer);
            && Enabled(c5, Answer)
            && StallsByReading(Apply(c5, Answer))
  {
    var n := c.answered;
    TimesOut(c);
    TimesOut(Returned(c, TimedOut));
    var c1 := Returned(Returned(c, TimedOut), TimedOut);
    assert Apply(Apply(c1, Answer), Answer).wire == [Response(n), Response(n + 1)];
  }

  /** Reading two messages is all it takes. */
  predicate StallsByReading(c: Client) {
    && Enabled(c, Read)
    && var c1 := Apply(c, Read);
    && Enabled(c1, Offer)
    && var c2 := Apply(c1, Offer);
    && Enabled(c2, Read)
    && Stalled(Apply(c2, Read))
  }

  // ---------- When a client can stall by itself ----------

  /** A continuation from c in which no request is issued. */
  ghost predicate Quiet(c: Client, cs: seq<Client>, ls: seq<Step>) {
    && |cs| == |ls| + 1 && cs[0] == c
    && (forall i :: 0 <= i < |ls| ==> !ls[i].Issue? && Enabled(cs[i], ls[i]) && cs[i + 1] == Apply(cs[i], ls[i]))
  }

  /** Some continuation without a request stalls the reader, on a connection that lives if `alive`. */
  ghost predicate CanStall(c: Client, alive: bool) {
    exists cs, ls :: Quiet(c, cs, ls) && var r := cs[|ls|]; Stalled(r) && (alive ==> Alive(r.reader))
  }

  lemma QuietStep(c: Client, l: Step)
    requires InOrder(c) && ErrorsLast(c) && !c.waiting && Enabled(c, l) && !l.Issue?
    ensures var c' := Apply(c, l); InOrder(c') && !c'.waiting && c'.log == c.log
  {
    StepInOrder(c, l);
  }

  lemma ErrorsLastStep(c: Client, l: Step)
    requires ErrorsLast(c) && Enabled(c, l)
    ensures ErrorsLast(Apply(c, l))
  {
  }

  lemma {:induction false} QuietKeeps(c: Client, cs: seq<Client>, ls: seq<Step>, n: nat)
    requires InOrder(c) && ErrorsLast(c) && !c.waiting && Quiet(c, cs, ls) && n < |cs|
    ensures InOrder(cs[n]) && ErrorsLast(cs[n]) && !cs[n].waiting && cs[n].log == c.log
  {
    if n == 0 {
    } else {
      QuietKeeps(c, cs, ls, n - 1);
      QuietStep(cs[n - 1], ls[n - 1]);
      ErrorsLastStep(cs[n - 1], ls[n - 1]);
    }
  }

  lemma {:induction false} StallsAtOnce(c: Client, alive: bool)
    requires Stalled(c) && (alive ==> Alive(c.reader))
    ensures CanStall(c, alive)
  {
    assert Quiet(c, [c], []);
  }

  lemma {:induction false} StepsToStall(c: Client, l: Step, alive: bool)
    requires Enabled(c, l) && !l.Issue? && CanStall(Apply(c, l), alive)
    ensures CanStall(c, alive)
  {
    var cs, ls :| Quiet(Apply(c, l), cs, ls) && var r := cs[|ls|]; Stalled(r) && (alive ==> Alive(r.reader));
    var cs', ls' := [c] + cs, [l] + ls;
    forall i | 0 <= i < |ls'| ensures !ls'[i].Issue? && Enabled(cs'[i], ls'[i]) && cs'[i + 1] == Apply(cs'[i], ls'[i]) {
      if i > 0 {
        assert ls'[i] == ls[i - 1] && cs'[i] == cs[i - 1] && cs'[i + 1] == cs[i];
      }
    }
    assert Quiet(c, cs', ls') && cs'[|ls'|] == cs[|ls|];
  }

  /** A living client that waits for nobody and whose peer has answered everything. */
  ghost predicate Settled(c: Client) {
    InOrder(c) && ErrorsLast(c) && !c.waiting && Alive(c.reader) && c.answered == |c.log|
  }

  /** What the reader has still to do before it blocks. */
  function Work(c: Client): nat {
    2 * |c.wire| + if c.reader.Offering? then 1 else 0
  }

  lemma {:induction false} HeldSize(c: Client)
    requires Settled(c)
    ensures |Held(c)| == |c.respCh| + if c.reader.Offering? then 1 else 0
    ensures NotAnswered(c.log) == |Held(c)| + |ResponsesIn(c.wire)|
  {
    if c.respCh == [] {
    } else {
      assert c.respCh[0].Reply?;
      assert RepliesIn(c.respCh) == [c.respCh[0].n] + RepliesIn(c.respCh[1..]);
      assert c.respCh[1..] == [];
    }
  }

  lemma {:induction false} SettledStep(c: Client, l: Step)
    requires Settled(c) && Enabled(c, l) && (l.Read? || l.Offer?)
    ensures var c' := Apply(c, l); Settled(c') && c'.log == c.log && Work(c') < Work(c)
  {
    StepInOrder(c, l);
    ErrorsLastStep(c, l);
  }

  /** A reader that waits for messages has more to read while too few responses are held. */
  lemma {:induction false} MoreToRead(c: Client, alive: bool)
    requires Settled(c) && c.reader.Reading? && NotAnswered(c.log) >= if alive then 2 else 1
    requires alive || c.respCh == []
    ensures Enabled(c, Read)
  {
    HeldSize(c);
    assert c.wire == [] ==> ResponsesIn(c.wire) == [];
  }

  /** With two responses under way the reader goes on until the first fills respCh and the second blocks;
      with one, a connection that fails then blocks it. */
  lemma {:induction false} ReadsOn(c: Client, alive: bool)
    requires Settled(c) && NotAnswered(c.log) >= if alive then 2 else 1
    ensures CanStall(c, alive)
    decreases Work(c)
  {
    if Stalled(c) {
      StallsAtOnce(c, alive);
    } else if c.reader.Offering? {
      SettledStep(c, Offer);
      ReadsOn(Apply(c, Offer), alive);
      StepsToStall(c, Offer, alive);
    } else if !alive && c.respCh != [] {
      StallsAtOnce(Apply(c, Break), alive);
      StepsToStall(c, Break, alive);
    } else {
      MoreToRead(c, alive);
      SettledStep(c, Read);
      ReadsOn(Apply(c, Read), alive);
      StepsToStall(c, Read, alive);
    }
  }

  /** First the peer answers what is left. */
  lemma {:induction false} AnswersThenReads(c: Client, alive: bool)
    requires InOrder(c) && ErrorsLast(c) && !c.waiting && Alive(c.reader)
    requires NotAnswered(c.log) >= if alive then 2 else 1
    ensures CanStall(c, alive)
    decreases |c.log| - c.answered
  {
    if c.answered == |c.log| {
      ReadsOn(c, alive);
    } else {
      StepInOrder(c, Answer);
      AnswersThenReads(Apply(c, Answer), alive);
      StepsToStall(c, Answer, alive);
    }
  }

  /** From any state of any run in which the connection lives and no request waits: without another
      request the reader can come to a stall on the living connection if and only if at least two requests
      have returned no response, and to any stall at all if and only if one has. */
  lemma StallReachableIff(cs: seq<Client>, ls: seq<Step>, n: nat)
    requires IsRun(cs, ls) && n < |cs| && !cs[n].waiting && Alive(cs[n].reader)
    ensures CanStall(cs[n], true) <==> NotAnswered(cs[n].log) >= 2
    ensures CanStall(cs[n], false) <==> NotAnswered(cs[n].log) >= 1
  {
    var c := cs[n];
    InOrderAlways(cs, ls, n);
    ErrorsLastAlways(cs, ls, n);
    forall alive: bool ensures CanStall(c, alive) <==> NotAnswered(c.log) >= if alive then 2 else 1 {
      if NotAnswered(c.log) >= if alive then 2 else 1 {
        AnswersThenReads(c, alive);
      }
      if CanStall(c, alive) {
        var ds, ms :| Quiet(c, ds, ms) && var r := ds[|ms|]; Stalled(r) && (alive ==> Alive(r.reader));
        QuietKeeps(c, ds, ms, |ms|);
        StallCount(ds[|ms|]);
      }
    }
  }
}
