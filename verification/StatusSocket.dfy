/**
 * How the media latency benchmark hears that items have finished: its class
 * `StatusSocket`. A promise is a number; resolving it adds it to `resolved`.
 * Opening and closing the connection are not part of the model.
 */
module StatusSocket {
  /** What can happen to the socket: the server pushes an item, or an upload asks for its next push. */
  datatype Event = Pushed(mediaId: string) | Asked(mediaId: string)

  /** The nth event, when it asks, creates promise n. */
  datatype State = State(finished: set<string>, waiters: map<string, nat>, resolved: set<nat>)

  function Step(s: State, n: nat, event: Event): State {
    match event
    case Pushed(id) =>
      State(s.finished + {id}, s.waiters, if id in s.waiters then s.resolved + {s.waiters[id]} else s.resolved)
    case Asked(id) =>
      if id in s.finished then s.(resolved := s.resolved + {n})
      else s.(waiters := s.waiters[id := n])
  }

  function After(events: seq<Event>): State {
    if events == [] then State({}, map[], {})
    else
      var last := |events| - 1;
      Step(After(events[..last]), last, events[last])
  }

  lemma {:induction false} FinishedAfter(events: seq<Event>, id: string)
    ensures id in After(events).finished <==> Pushed(id) in events
  {
    if events != [] {
      var before := events[..|events| - 1];
      FinishedAfter(before, id);
      assert events == before + [events[|events| - 1]];
    }
  }

  /** Event `n` asks for an item of which nothing has been pushed before. */
  ghost predicate AskedFirst(events: seq<Event>, n: nat) {
    && n < |events|
    && events[n].Asked?
    && (forall i :: 0 <= i < n ==> events[i] != Pushed(events[n].mediaId))
  }

  /** The one waiter of an item is its latest request made before any push of it. */
  lemma {:induction false} WaiterAfter(events: seq<Event>, id: string)
    ensures var s := After(events);
            if id in s.waiters then
              var n := s.waiters[id];
              n < |events| && events[n] == Asked(id) && AskedFirst(events, n)
              && (forall j :: n < j < |events| && events[j] == Asked(id) ==> !AskedFirst(events, j))
            else forall j :: 0 <= j < |events| && events[j] == Asked(id) ==> !AskedFirst(events, j)
  {
    if events != [] {
      var last := |events| - 1;
      var before := events[..last];
      WaiterAfter(before, id);
      FinishedAfter(before, id);
      assert forall j :: 0 <= j < last ==> events[j] == before[j];
    }
  }

  lemma {:induction false} ResolvedBelow(events: seq<Event>, n: nat)
    requires n in After(events).resolved
    ensures n < |events|
  {
    var before := events[..|events| - 1];
    if n in After(before).resolved {
      ResolvedBelow(before, n);
    } else if events[|events| - 1].Pushed? {
      WaiterAfter(before, events[|events| - 1].mediaId);
    }
  }

  class StatusSocket {
    var finished: set<string>
    var waiters: map<string, nat>
    /** Every promise handed out so far is below `promises`; these are the resolved ones. */
    var promises: nat
    var resolved: set<nat>
    ghost var events: seq<Event>

    ghost predicate Valid()
      reads this
    {
      State(finished, waiters, resolved) == After(events) && promises == |events|
    }

    constructor ()
      ensures Valid() && events == []
    {
      finished, waiters, promises, resolved := {}, map[], 0, {};
      events := [];
    }

    /** The `media.status` handler. */
    method OnStatus(mediaId: string)
      requires Valid()
      modifies this
      ensures Valid() && events == old(events) + [Pushed(mediaId)]
    {
      finished := finished + {mediaId};
      if mediaId in waiters {
        resolved := resolved + {waiters[mediaId]};
      }
      promises := promises + 1;
      events := events + [Pushed(mediaId)];
      assert events[..|events| - 1] == old(events);
    }

    /** A new promise for `mediaId`: already resolved, or now the one the next push resolves. */
    method Next(mediaId: string) returns (promise: nat)
      requires Valid()
      modifies this
      ensures Valid() && events == old(events) + [Asked(mediaId)]
      ensures promise == |old(events)|
      ensures promise in resolved <==> Pushed(mediaId) in old(events)
    {
      promise := promises;
      FinishedAfter(events, mediaId);
      if promise in resolved {
        ResolvedBelow(events, promise);
      }
      if mediaId in finished {
        resolved := resolved + {promise};
      } else {
        waiters := waiters[mediaId := promise];
      }
      promises := promises + 1;
      events := events + [Asked(mediaId)];
      assert events[..|events| - 1] == old(events);
    }
  }

  /** Another request for the same item, made between `n` and `end`. */
  ghost predicate Superseded(events: seq<Event>, n: nat, end: nat)
    requires n < end <= |events|
  {
    exists j :: n < j < end && events[j] == Asked(events[n].mediaId)
  }

  /** A push of the item asked for at `n` that the promise made there hears. */
  ghost predicate Heard(events: seq<Event>, n: nat, push: nat)
    requires n < |events|
  {
    && push < |events|
    && events[push] == Pushed(events[n].mediaId)
    && (push <= n || !Superseded(events, n, push))
  }

  lemma {:induction false} FirstPush(events: seq<Event>, id: string, end: nat) returns (first: nat)
    requires end < |events| && events[end] == Pushed(id)
    ensures first <= end && events[first] == Pushed(id)
    ensures forall i :: 0 <= i < first ==> events[i] != Pushed(id)
  {
    first := end;
    if i: nat :| i < end && events[i] == Pushed(id) {
      first := FirstPush(events, id, i);
    }
  }

  lemma SupersededLater(events: seq<Event>, n: nat, end: nat, later: nat)
    requires n < end <= later <= |events|
    ensures Superseded(events, n, end) ==> Superseded(events, n, later)
  {
  }

  /** The registered waiter hears the first push, which comes before any other request could register. */
  lemma WaiterHears(events: seq<Event>, n: nat, push: nat)
    requires AskedFirst(events, n) && push < |events| && events[push] == Pushed(events[n].mediaId)
    requires forall j :: n < j < |events| && events[j] == events[n] ==> !AskedFirst(events, j)
    ensures exists push :: Heard(events, n, push)
  {
    var first := FirstPush(events, events[n].mediaId, push);
    assert forall j: nat :: n < j < first && events[j] == events[n] ==> AskedFirst(events, j);
    assert Heard(events, n, first);
  }

  /** Every push but the last is heard as it was before the last event. */
  lemma HeardBefore(events: seq<Event>, n: nat)
    requires n + 1 < |events| && events[n].Asked?
    ensures forall push: nat :: push < |events| - 1 ==>
              (Heard(events, n, push) <==> Heard(events[..|events| - 1], n, push))
  {
  }

  /** Of the promises no earlier push reached, the last push reaches the registered one alone. */
  lemma LastPushHeard(events: seq<Event>, n: nat)
    requires n + 1 < |events| && events[n].Asked? && events[|events| - 1] == Pushed(events[n].mediaId)
    ensures var before := events[..|events| - 1];
            var waiters := After(before).waiters;
            var id := events[n].mediaId;
            ((id in waiters && waiters[id] == n) || exists push :: Heard(before, n, push))
            <==> (!Superseded(events, n, |events| - 1) || exists push :: Heard(before, n, push))
  {
    var last := |events| - 1;
    var before, id := events[..last], events[n].mediaId;
    WaiterAfter(before, id);
    var waiters := After(before).waiters;
    assert forall j :: 0 <= j < last ==> before[j] == events[j];
    if push: nat :| push < last && before[push] == Pushed(id) {
      if id in waiters && waiters[id] == n {
        WaiterHears(before, n, push);
      } else if !Superseded(events, n, last) {
        HeardBefore(events, n);
        assert Heard(events, n, push) by {
          if n < push { SupersededLater(events, n, push, last); }
        }
      }
    } else {
      assert AskedFirst(before, n);
      assert forall j: nat :: j < last && before[j] == before[n] ==> AskedFirst(before, j);
    }
  }

  /**
   * The promises that are resolved, exactly: each request that some push follows
   * before the next request for the same item, or that came after a push.
   */
  lemma {:induction false} ResolvedIffHeard(events: seq<Event>, n: nat)
    requires n < |events| && events[n].Asked?
    ensures n in After(events).resolved <==> exists push :: Heard(events, n, push)
  {
    var last := |events| - 1;
    var before, id := events[..last], events[n].mediaId;
    FinishedAfter(before, id);
    WaiterAfter(before, events[last].mediaId);
    if n == last {
      if n in After(before).resolved {
        ResolvedBelow(before, n);
      }
      if Pushed(id) in before {
        var push :| 0 <= push < last && before[push] == Pushed(id);
        assert Heard(events, n, push);
      }
      forall push: nat | Heard(events, n, push)
        ensures Pushed(id) in before
      {
        assert before[push] == events[push];
      }
    } else {
      ResolvedIffHeard(before, n);
      HeardBefore(events, n);
      if push: nat :| Heard(before, n, push) {
        assert Heard(events, n, push);
      }
      if events[last] == Pushed(id) {
        LastPushHeard(events, n);
        assert Heard(events, n, last) <==> !Superseded(events, n, last);
      }
    }
  }

  /**
   * No wake-up is lost, over every interleaving of pushes and requests: the
   * latest request for an item is resolved exactly when the item has been
   * pushed, before or after; a request that stays pending although its item was
   * pushed has been superseded.
   */
  lemma NoLostWakeUp(events: seq<Event>, n: nat)
    requires n < |events| && events[n].Asked?
    ensures !Superseded(events, n, |events|) ==>
              (n in After(events).resolved <==> Pushed(events[n].mediaId) in events)
    ensures n in After(events).resolved ==> Pushed(events[n].mediaId) in events
  {
    ResolvedIffHeard(events, n);
    var id := events[n].mediaId;
    if Pushed(id) in events && !Superseded(events, n, |events|) {
      var push :| 0 <= push < |events| && events[push] == Pushed(id);
      if n < push {
        SupersededLater(events, n, push, |events|);
      }
      assert Heard(events, n, push);
    }
  }

  lemma AfterNext(events: seq<Event>, event: Event)
    ensures After(events + [event]) == Step(After(events), |events|, event)
  {
    assert (events + [event])[..|events|] == events;
  }

  /** A push resolves at most one promise, and only one made for its own item. */
  lemma PushResolvesItsItem(events: seq<Event>, id: string, n: nat)
    requires n in After(events + [Pushed(id)]).resolved && n !in After(events).resolved
    ensures n < |events| && events[n] == Asked(id)
    ensures forall m :: m in After(events + [Pushed(id)]).resolved && m !in After(events).resolved ==> m == n
  {
    AfterNext(events, Pushed(id));
    WaiterAfter(events, id);
  }
}
