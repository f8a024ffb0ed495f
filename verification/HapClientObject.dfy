/** The client's channels and the reader as an object; each method is what a goroutine does between
    two points where it may wait. */
module HapClientObject {
  import opened HapClient

  class ClientState {
    var wire: seq<Msg>
    var reader: Reader
    var respCh: seq<Result>
    var eventCh: seq<nat>
    var reqMuHeld: bool
    // Peer and history.
    var answered: nat
    var log: seq<Outcome>
    var taken: seq<nat>
    var lost: nat
    var events: seq<nat>

    ghost function Abs(): Client
      reads this
    {
      Client(wire, reader, respCh, eventCh, reqMuHeld, answered, log, taken, lost, events)
    }

    constructor ()
      ensures Abs() == Init
    {
      wire, reader, respCh, eventCh, reqMuHeld := [], Reading, [], [], false;
      answered, log, taken, lost, events := 0, [], [], 0, [];
    }

    /** readLoop up to a send on respCh: one message is read and, if it is an EVENT, dealt with. */
    method ReadMessage()
      requires Enabled(Abs(), Read)
      modifies this`wire, this`reader, this`eventCh, this`lost, this`events
      ensures Abs() == Apply(old(Abs()), Read)
    {
      var m := wire[0];
      wire := wire[1..];
      if m.EventMsg? {
        if !m.parses {
          return;
        }
        events := events + [m.id];
        if |eventCh| < EVENT_CAP {
          eventCh := eventCh + [m.id];
        } else {
          lost := lost + 1;
        }
      } else {
        reader := Offering(Reply(m.n), false);
      }
    }

    method ConnectionFails()
      requires Enabled(Abs(), Break)
      modifies this`reader
      ensures Abs() == Apply(old(Abs()), Break)
    {
      reader := Offering(ReadError, true);
    }

    /** The send goes through; after an error the loop returns and closes `done`. */
    method OfferResult()
      requires Enabled(Abs(), Offer)
      modifies this`respCh, this`reader
      ensures Abs() == Apply(old(Abs()), Offer)
    {
      respCh := respCh + [reader.res];
      if reader.last {
        reader := Exited;
      } else {
        reader := Reading;
      }
    }

    /** doRequest up to its select; `wrote` tells whether the encrypted connection took the request. */
    method BeginRequest(wrote: bool)
      requires Enabled(Abs(), if wrote then Issue else IssueFails)
      modifies this`reqMuHeld
      ensures Abs() == Apply(old(Abs()), if wrote then Issue else IssueFails)
    {
      reqMuHeld := true;
      if !wrote {
        reqMuHeld := false;
      }
    }

    /** doRequest's select takes a result. */
    method ReceiveResult() returns (o: Outcome)
      requires Enabled(Abs(), Receive)
      modifies this`respCh, this`reqMuHeld, this`log
      ensures Abs() == Apply(old(Abs()), Receive) && log == old(log) + [o]
    {
      var result := respCh[0];
      respCh := respCh[1..];
      if result.ReadError? {
        o := Failed;
      } else {
        o := Got(result.n);
      }
      reqMuHeld := false;
      log := log + [o];
    }

    /** doRequest's select takes the timer or the closed `done`; respCh is left as it is. */
    method GiveUp(closed: bool) returns (o: Outcome)
      requires Enabled(Abs(), if closed then SeeClosed else Timeout)
      modifies this`reqMuHeld, this`log
      ensures Abs() == Apply(old(Abs()), if closed then SeeClosed else Timeout) && log == old(log) + [o]
    {
      o := if closed then Closed else TimedOut;
      reqMuHeld := false;
      log := log + [o];
    }

    method NextEvent() returns (id: nat)
      requires Enabled(Abs(), TakeEvent)
      modifies this`eventCh, this`taken
      ensures Abs() == Apply(old(Abs()), TakeEvent) && taken == old(taken) + [id]
    {
      id := eventCh[0];
      eventCh := eventCh[1..];
      taken := taken + [id];
    }
  }
}
