/** The subscription object and the table of subscriptions, changed in place. Each method runs under
    the lock its source holds; the clock is a parameter. */
module PullPointManager {
  import opened PullPoint
  import opened Seqs

  const MAX_SUBSCRIPTIONS := 64

  class Subscription {
    const id: string
    var terminationTime: int
    var events: seq<MotionEvent>
    var notify: bool

    constructor (id: string, now: int, timeout: int)
      ensures this.id == id && terminationTime == now + timeout && QueueOf() == Queue([], false)
      ensures forall t: int :: IsExpired(t) <==> t > now + timeout
    {
      this.id := id;
      terminationTime, events, notify := now + timeout, [], false;
    }

    ghost function QueueOf(): Queue
      reads this
    {
      Queue(events, notify)
    }

    predicate IsExpired(now: int)
      reads this`terminationTime
    {
      now > terminationTime
    }

    /** The region of PushEvent under the mutex. */
    method AppendEvent(evt: MotionEvent)
      modifies this`events
      ensures QueueOf() == Appended(old(QueueOf()), evt)
    {
      events := events + [evt];
    }

    /** PushEvent's non-blocking send into the one-slot channel. */
    method SignalPuller()
      modifies this`notify
      ensures QueueOf() == Signalled(old(QueueOf()))
    {
      if !notify {
        notify := true;
      }
    }

    /** Both regions in a row, as a pusher that nobody interrupts runs them. */
    method PushEvent(evt: MotionEvent)
      modifies this`events, this`notify
      ensures QueueOf() == Signalled(Appended(old(QueueOf()), evt))
    {
      AppendEvent(evt);
      SignalPuller();
    }

    /** PullMessages' first region: everything there is, or nothing and the caller must wait. */
    method CheckEvents() returns (batch: Option<seq<MotionEvent>>)
      modifies this`events
      ensures batch == if old(events) == [] then None else Some(old(events))
      ensures QueueOf() == Emptied(old(QueueOf()))
    {
      if |events| > 0 {
        batch := Some(events);
        events := [];
      } else {
        batch := None;
      }
    }

    /** PullMessages' wait ends with a token. */
    method TakeToken()
      requires notify
      modifies this`notify
      ensures QueueOf() == TokenTaken(old(QueueOf()))
    {
      notify := false;
    }

    /** PullMessages after its wait, however it ended. */
    method DrainEvents() returns (batch: seq<MotionEvent>)
      modifies this`events
      ensures batch == old(events) && QueueOf() == Emptied(old(QueueOf()))
    {
      batch := events;
      events := [];
    }

    method Renew(now: int, timeout: int)
      modifies this`terminationTime
      ensures terminationTime == now + timeout
      ensures forall t: int :: IsExpired(t) <==> t > now + timeout
    {
      terminationTime := now + timeout;
    }
  }

  class Manager {
    var subscriptions: map<string, Subscription>

    /** No two names share a subscription, and the table is bounded. */
    ghost predicate Valid()
      reads this
    {
      && |subscriptions| <= 64
      && (forall a, b :: a in subscriptions && b in subscriptions && a != b ==> subscriptions[a] != subscriptions[b])
    }

    /** The entries that have not expired. */
    ghost function Live(now: int): map<string, Subscription>
      reads this, subscriptions.Values
    {
      map n | n in subscriptions && !subscriptions[n].IsExpired(now) :: subscriptions[n]
    }

    constructor ()
      ensures Valid() && subscriptions == map[]
    {
      subscriptions := map[];
    }

    /** Deleting the expired entries while iterating over the table. */
    method CleanExpired(now: int)
      requires Valid()
      modifies this`subscriptions
      ensures Valid() && subscriptions == old(Live(now))
    {
      ghost var before := subscriptions;
      var todo := subscriptions.Keys;
      while todo != {}
        invariant todo <= before.Keys && subscriptions.Keys <= before.Keys
        invariant forall n :: n in before ==>
                    (n in subscriptions <==> n in todo || !before[n].IsExpired(now))
        invariant forall n :: n in subscriptions ==> subscriptions[n] == before[n]
        decreases todo
      {
        var id :| id in todo;
        todo := todo - {id};
        if subscriptions[id].IsExpired(now) {
          subscriptions := subscriptions - {id};
        }
      }
      assert subscriptions == old(Live(now));
      SmallerTable(subscriptions, before);
    }

    static lemma SmallerTable(a: map<string, Subscription>, b: map<string, Subscription>)
      requires a.Keys <= b.Keys
      ensures |a| <= |b|
    {
      SubsetSize(a.Keys, b.Keys);
    }

    static lemma SubsetSize(a: set<string>, b: set<string>)
      requires a <= b
      ensures |a| <= |b|
    {
      if a != {} {
        var x :| x in a;
        SubsetSize(a - {x}, b - {x});
      }
    }

    /** A new subscription is refused if and only if the table already holds 64 that have not expired;
        otherwise it is entered, after evicting the expired ones if the table was full. */
    method Create(id: string, now: int, timeout: int) returns (sub: Subscription?)
      requires Valid()
      modifies this`subscriptions
      ensures Valid()
      ensures sub == null <==> |old(Live(now))| == 64
      ensures sub == null ==> subscriptions == old(Live(now))
      ensures sub != null ==> fresh(sub) && sub.id == id && sub.QueueOf() == Queue([], false) && sub.terminationTime == now + timeout
      ensures sub != null ==>
                (subscriptions ==
                 (if |old(subscriptions)| == 64 then old(Live(now)) else old(subscriptions))[id := sub])
    {
      ghost var live := Live(now);
      SmallerTable(live, subscriptions);
      if |subscriptions| >= MAX_SUBSCRIPTIONS {
        CleanExpired(now);
        if |subscriptions| >= MAX_SUBSCRIPTIONS {
          return null;
        }
      }
      sub := Enter(id, now, timeout);
    }

    method Enter(id: string, now: int, timeout: int) returns (sub: Subscription)
      requires Valid() && |subscriptions| < MAX_SUBSCRIPTIONS
      modifies this`subscriptions
      ensures Valid() && subscriptions == old(subscriptions)[id := sub]
      ensures fresh(sub) && sub.id == id && sub.QueueOf() == Queue([], false) && sub.terminationTime == now + timeout
    {
      sub := new Subscription(id, now, timeout);
      ghost var before := subscriptions;
      subscriptions := subscriptions[id := sub];
      assert subscriptions.Keys == before.Keys + {id};
    }

    method Remove(id: string)
      requires Valid()
      modifies this`subscriptions
      ensures Valid() && subscriptions == old(subscriptions) - {id}
    {
      ghost var before := subscriptions;
      subscriptions := subscriptions - {id};
      SmallerTable(subscriptions, before);
    }

    /** Every subscription that has not expired gets the event, appended and signalled; the expired
        ones are left alone. */
    method FanOut(evt: MotionEvent, now: int)
      requires Valid()
      modifies subscriptions.Values
      ensures forall n :: n in subscriptions ==>
                var s := subscriptions[n];
                && s.terminationTime == old(s.terminationTime)
                && s.QueueOf() == (if old(s.IsExpired(now)) then old(s.QueueOf()) else Signalled(Appended(old(s.QueueOf()), evt)))
    {
      var todo := subscriptions.Keys;
      while todo != {}
        invariant todo <= subscriptions.Keys
        invariant forall n :: n in subscriptions ==>
                    var s := subscriptions[n];
                    && s.terminationTime == old(s.terminationTime)
                    && s.QueueOf() == (if n in todo || old(s.IsExpired(now)) then old(s.QueueOf())
                                       else Signalled(Appended(old(s.QueueOf()), evt)))
        decreases todo
      {
        var id :| id in todo;
        todo := todo - {id};
        var sub := subscriptions[id];
        if !sub.IsExpired(now) {
          sub.PushEvent(evt);
        }
      }
    }
  }
}
