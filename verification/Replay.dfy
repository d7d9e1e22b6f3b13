/** The guard against applying the same intent twice, over whole runs of the ledger. */
module Replay {
  import opened Basics
  import opened FixedPoint
  import opened Trie
  import opened TimeKeys
  import opened TimeFilter

  datatype Error = IntentAlreadyExists | IntentTtlExpired | IntentTtlTooFarInFuture

  datatype Result<+R> = Ok(value: R) | Err(error: Error)

  /** An intent as the guard sees it: its hash and its time to live. */
  datatype Member<T> = Member(hash: T, ttl: U64)

  function ApplyMember<T(==)>(m: TimeMap<T>, x: Member<T>, tblock: U64, globalTtl: Duration): Result<TimeMap<T>>
    requires Shaped(m.entries)
  {
    if Contains(m, x.hash) then Err(IntentAlreadyExists)
    else if x.ttl < tblock then Err(IntentTtlExpired)
    else if x.ttl > Plus(tblock, globalTtl) then Err(IntentTtlTooFarInFuture)
    else Ok(Upsert(m, x.ttl, {x.hash}))
  }

  /** The intents of a transaction one after the other; any failure is the transaction's. */
  function ApplyTx<T(==)>(m: TimeMap<T>, xs: seq<Member<T>>, tblock: U64, globalTtl: Duration): Result<TimeMap<T>>
    requires Valid(m)
    decreases |xs|
  {
    if xs == [] then Ok(m) else
    match ApplyMember(m, xs[0], tblock, globalTtl)
    case Err(e) => Err(e)
    case Ok(next) =>
      UpsertKeeps(m, xs[0].ttl, {xs[0].hash});
      ApplyTx(next, xs[1..], tblock, globalTtl)
  }

  function PostBlockUpdate<T>(m: TimeMap<T>, tblock: U64): TimeMap<T>
    requires Shaped(m.entries)
  {
    Filter(m, tblock)
  }

  // ----- the state and what it stands for -----

  ghost predicate Known<T>(m: TimeMap<T>, live: set<Member<T>>, t: U64, x: T)
    requires Shaped(m.entries)
  {
    x in ItemsAt(m, t) <==> Member(x, t) in live
  }

  /** The state holds exactly the live members, and counts each of them once. */
  ghost predicate Tracks<T(!new)>(m: TimeMap<T>, live: set<Member<T>>) {
    && Valid(m) && (forall x :: Excess(m, x) == 0)
    && (forall t: U64, x :: Known(m, live, t, x))
  }

  ghost predicate HashIn<T>(x: T, live: set<Member<T>>) { exists y :: y in live && y.hash == x }

  lemma TracksContained<T(!new)>(m: TimeMap<T>, live: set<Member<T>>, x: T)
    requires Tracks(m, live)
    ensures Contains(m, x) <==> HashIn(x, live)
  {
    ContainedIsHeld(m, x);
    if Held(m, x) {
      var t: U64 :| x in ItemsAt(m, t);
      assert Known(m, live, t, x);
      assert Member(x, t) in live;
    }
    if HashIn(x, live) {
      var y :| y in live && y.hash == x;
      assert Known(m, live, y.ttl, x) && y == Member(x, y.ttl);
    }
  }

  ghost predicate InWindow<T>(x: Member<T>, tblock: U64, globalTtl: Duration) {
    tblock <= x.ttl <= Plus(tblock, globalTtl)
  }

  /** A member goes through exactly if it is in its window and its hash is not live. */
  lemma MemberStep<T(!new)>(m: TimeMap<T>, live: set<Member<T>>, x: Member<T>, tblock: U64, globalTtl: Duration)
    requires Tracks(m, live)
    ensures var r := ApplyMember(m, x, tblock, globalTtl);
            && (r.Ok? <==> InWindow(x, tblock, globalTtl) && !HashIn(x.hash, live))
            && (r.Ok? ==> Tracks(r.value, live + {x}))
            && (r.Err? ==> r.error == if HashIn(x.hash, live) then IntentAlreadyExists
                                      else if x.ttl < tblock then IntentTtlExpired else IntentTtlTooFarInFuture)
  {
    TracksContained(m, live, x.hash);
    if ApplyMember(m, x, tblock, globalTtl).Ok? { MemberTracked(m, live, x); }
  }

  lemma MemberTracked<T(!new)>(m: TimeMap<T>, live: set<Member<T>>, x: Member<T>)
    requires Tracks(m, live) && !HashIn(x.hash, live)
    ensures Tracks(Upsert(m, x.ttl, {x.hash}), live + {x})
  {
    var r := Upsert(m, x.ttl, {x.hash});
    UpsertKeeps(m, x.ttl, {x.hash});
    forall y ensures Excess(r, y) == 0 {
      assert Known(m, live, x.ttl, x.hash);
      UpsertCounts(m, x.ttl, {x.hash}, y);
    }
    forall t: U64, y ensures Known(r, live + {x}, t, y) {
      assert Known(m, live, t, y);
      assert ItemsAt(r, t) == if t == x.ttl then ItemsAt(m, t) + {x.hash} else ItemsAt(m, t);
    }
  }

  ghost function Elements<T>(xs: seq<Member<T>>): set<Member<T>> { set x | x in xs }

  /** The members are in their windows, of different hashes, and no hash is live. */
  ghost predicate Fresh<T>(xs: seq<Member<T>>, live: set<Member<T>>, tblock: U64, globalTtl: Duration) {
    && (forall i :: 0 <= i < |xs| ==> InWindow(xs[i], tblock, globalTtl) && !HashIn(xs[i].hash, live))
    && (forall i, j :: 0 <= i < j < |xs| ==> xs[i].hash != xs[j].hash)
  }

  lemma HashInPlus<T>(h: T, live: set<Member<T>>, x: Member<T>)
    ensures HashIn(h, live + {x}) <==> HashIn(h, live) || h == x.hash
  {
    assert x in live + {x};
    if HashIn(h, live) { var y :| y in live && y.hash == h; assert y in live + {x}; }
  }

  lemma FreshSplits<T>(xs: seq<Member<T>>, live: set<Member<T>>, tblock: U64, globalTtl: Duration)
    requires xs != []
    ensures Fresh(xs, live, tblock, globalTtl) <==>
            && InWindow(xs[0], tblock, globalTtl) && !HashIn(xs[0].hash, live)
            && Fresh(xs[1..], live + {xs[0]}, tblock, globalTtl)
  {
    var rest, more := xs[1..], live + {xs[0]};
    forall i | 0 <= i < |rest|
      ensures HashIn(rest[i].hash, more) <==> HashIn(xs[i + 1].hash, live) || xs[i + 1].hash == xs[0].hash
    {
      HashInPlus(rest[i].hash, live, xs[0]);
    }
    if Fresh(rest, more, tblock, globalTtl) {
      forall i | 1 <= i < |xs|
        ensures InWindow(xs[i], tblock, globalTtl) && !HashIn(xs[i].hash, live) && xs[i].hash != xs[0].hash
      {
        assert xs[i] == rest[i - 1];
      }
    }
  }

  /** A transaction goes through exactly if all its members are fresh. */
  lemma {:induction false} TxStep<T(!new)>(m: TimeMap<T>, live: set<Member<T>>, xs: seq<Member<T>>,
                                           tblock: U64, globalTtl: Duration)
    requires Tracks(m, live)
    ensures var r := ApplyTx(m, xs, tblock, globalTtl);
            && (r.Ok? <==> Fresh(xs, live, tblock, globalTtl))
            && (r.Ok? ==> Tracks(r.value, live + Elements(xs)))
    decreases |xs|
  {
    if xs == [] {
      assert live + Elements(xs) == live;
    } else {
      MemberStep(m, live, xs[0], tblock, globalTtl);
      FreshSplits(xs, live, tblock, globalTtl);
      var first := ApplyMember(m, xs[0], tblock, globalTtl);
      if first.Ok? {
        TxStep(first.value, live + {xs[0]}, xs[1..], tblock, globalTtl);
        assert xs == [xs[0]] + xs[1..];
        assert live + Elements(xs) == live + {xs[0]} + Elements(xs[1..]);
      }
    }
  }

  ghost function Surviving<T>(live: set<Member<T>>, tblock: U64): set<Member<T>> {
    set x | x in live && tblock <= x.ttl
  }

  /** The end of a block forgets exactly the members that have expired. */
  lemma BlockStep<T(!new)>(m: TimeMap<T>, live: set<Member<T>>, tblock: U64)
    requires Tracks(m, live)
    ensures Tracks(PostBlockUpdate(m, tblock), Surviving(live, tblock))
  {
    var r := PostBlockUpdate(m, tblock);
    FilterKeeps(m, tblock);
    forall y ensures Excess(r, y) == 0 { FilterCounts(m, tblock, y); }
    forall t: U64, y ensures Known(r, Surviving(live, tblock), t, y) {
      assert Known(m, live, t, y);
      assert ItemsAt(r, t) == if t < tblock then {} else ItemsAt(m, t);
    }
  }

  // ----- runs -----

  datatype Event<T> =
    | Tx(members: seq<Member<T>>, tblock: U64, globalTtl: Duration)
    | BlockEnd(tblock: U64)

  /** Payouts of the system and claims of rewards: their hashes say nothing of time, and live
      for the global time to live. */
  function Payout<T>(hashes: seq<T>, tblock: U64, globalTtl: Duration): Event<T> {
    Tx(seq(|hashes|, i requires 0 <= i < |hashes| => Member(hashes[i], Plus(tblock, globalTtl))), tblock, globalTtl)
  }

  /** The state after the events; a failed transaction leaves it as it was. */
  ghost function State<T>(events: seq<Event<T>>): (m: TimeMap<T>)
    ensures Valid(m)
  {
    if events == [] then New() else
    var m := State(events[..|events| - 1]);
    match events[|events| - 1]
    case Tx(xs, tblock, globalTtl) =>
      TxValid(m, xs, tblock, globalTtl);
      (match ApplyTx(m, xs, tblock, globalTtl) case Ok(next) => next case Err(_) => m)
    case BlockEnd(tblock) => FilterKeeps(m, tblock); PostBlockUpdate(m, tblock)
  }

  lemma {:induction false} TxValid<T>(m: TimeMap<T>, xs: seq<Member<T>>, tblock: U64, globalTtl: Duration)
    requires Valid(m)
    ensures ApplyTx(m, xs, tblock, globalTtl).Ok? ==> Valid(ApplyTx(m, xs, tblock, globalTtl).value)
    decreases |xs|
  {
    if xs != [] && ApplyMember(m, xs[0], tblock, globalTtl).Ok? {
      UpsertKeeps(m, xs[0].ttl, {xs[0].hash});
      TxValid(ApplyMember(m, xs[0], tblock, globalTtl).value, xs[1..], tblock, globalTtl);
    }
  }

  /** Whether the i-th event is a transaction that goes through. */
  ghost predicate Succeeds<T>(events: seq<Event<T>>, i: nat)
    requires i < |events|
  {
    events[i].Tx? && ApplyTx(State(events[..i]), events[i].members, events[i].tblock, events[i].globalTtl).Ok?
  }

  /** No block after the i-th event ended after the given time. */
  ghost predicate NoneEnded<T>(events: seq<Event<T>>, i: nat, ttl: U64) {
    forall j :: i < j < |events| && events[j].BlockEnd? ==> events[j].tblock <= ttl
  }

  /** The i-th event recorded the member, and no later block ended after its time to live. */
  ghost predicate LiveFrom<T>(events: seq<Event<T>>, x: Member<T>, i: nat)
    requires i < |events|
  {
    Succeeds(events, i) && x in events[i].members && NoneEnded(events, i, x.ttl)
  }

  /** What an event left: the members it recorded, if any, or the end of a block. */
  datatype Entry<T> = Noted(members: seq<Member<T>>) | Ended(tblock: U64)

  ghost function EntryOf<T>(events: seq<Event<T>>, i: nat): Entry<T>
    requires i < |events|
  {
    match events[i]
    case Tx(xs, _, _) => Noted(if Succeeds(events, i) then xs else [])
    case BlockEnd(tblock) => Ended(tblock)
  }

  ghost function Log<T>(events: seq<Event<T>>): (log: seq<Entry<T>>)
    ensures |log| == |events|
  {
    if events == [] then [] else Log(events[..|events| - 1]) + [EntryOf(events, |events| - 1)]
  }

  ghost function LiveOf<T>(log: seq<Entry<T>>): set<Member<T>> {
    if log == [] then {} else
    var before := LiveOf(log[..|log| - 1]);
    match log[|log| - 1]
    case Noted(xs) => before + Elements(xs)
    case Ended(tblock) => Surviving(before, tblock)
  }

  /** The members recorded and not expired, event by event. */
  ghost function Live<T>(events: seq<Event<T>>): set<Member<T>> { LiveOf(Log(events)) }

  ghost predicate LiveIn<T>(log: seq<Entry<T>>, x: Member<T>, i: nat)
    requires i < |log|
  {
    log[i].Noted? && x in log[i].members && NoneLogged(log, i, x.ttl)
  }

  ghost predicate NoneLogged<T>(log: seq<Entry<T>>, i: nat, ttl: U64) {
    forall j :: i < j < |log| && log[j].Ended? ==> log[j].tblock <= ttl
  }

  lemma LiveInStep<T>(log: seq<Entry<T>>, x: Member<T>, i: nat)
    requires i < |log| - 1
    ensures var k := |log| - 1;
            LiveIn(log, x, i) <==> LiveIn(log[..k], x, i) && (log[k].Ended? ==> log[k].tblock <= x.ttl)
  {
    var k := |log| - 1;
    assert forall j :: 0 <= j < k ==> log[..k][j] == log[j];
  }

  lemma {:induction false} LiveSince<T>(log: seq<Entry<T>>, x: Member<T>) returns (i: nat)
    requires x in LiveOf(log)
    ensures i < |log| && LiveIn(log, x, i)
  {
    var k := |log| - 1;
    if x in LiveOf(log[..k]) {
      i := LiveSince(log[..k], x);
      LiveInStep(log, x, i);
    } else {
      i := k;
    }
  }

  lemma {:induction false} LiveStays<T>(log: seq<Entry<T>>, x: Member<T>, i: nat)
    requires i < |log| && LiveIn(log, x, i)
    ensures x in LiveOf(log)
    decreases |log|
  {
    var k := |log| - 1;
    if i < k {
      LiveInStep(log, x, i);
      LiveStays(log[..k], x, i);
    }
  }

  lemma SucceedsBefore<T>(events: seq<Event<T>>, k: nat, i: nat)
    requires i < k <= |events|
    ensures Succeeds(events[..k], i) <==> Succeeds(events, i)
    ensures EntryOf(events[..k], i) == EntryOf(events, i)
  {
    assert events[..k][..i] == events[..i];
  }

  lemma {:induction false} LogAt<T>(events: seq<Event<T>>, i: nat)
    requires i < |events|
    ensures Log(events)[i] == EntryOf(events, i)
    decreases |events|
  {
    var k := |events| - 1;
    var before, last := Log(events[..k]), EntryOf(events, k);
    assert Log(events) == before + [last];
    if i < k {
      assert before[i] == EntryOf(events, i) by {
        LogAt(events[..k], i);
        SucceedsBefore(events, k, i);
      }
    }
  }

  lemma LiveLogged<T>(events: seq<Event<T>>, x: Member<T>, i: nat)
    requires i < |events|
    ensures LiveFrom(events, x, i) <==> LiveIn(Log(events), x, i)
  {
    var log := Log(events);
    assert log[i].Noted? && x in log[i].members <==> Succeeds(events, i) && x in events[i].members by { LogAt(events, i); }
    EndsLogged(events, i, x.ttl);
  }

  lemma EndsLogged<T>(events: seq<Event<T>>, i: nat, ttl: U64)
    ensures NoneEnded(events, i, ttl) <==> NoneLogged(Log(events), i, ttl)
  {
    forall j | 0 <= j < |events| ensures EndLogged(events, Log(events), j) { LogAt(events, j); }
    EndsAgree(events, Log(events), i, ttl);
  }

  lemma EndsAgree<T>(events: seq<Event<T>>, log: seq<Entry<T>>, i: nat, ttl: U64)
    requires |log| == |events| && forall j :: 0 <= j < |events| ==> EndLogged(events, log, j)
    ensures NoneEnded(events, i, ttl) <==> NoneLogged(log, i, ttl)
  {
    if NoneEnded(events, i, ttl) {
      forall j | i < j < |log| && log[j].Ended? ensures log[j].tblock <= ttl { assert EndLogged(events, log, j); }
    } else {
      var j :| i < j < |events| && events[j].BlockEnd? && events[j].tblock > ttl;
      assert EndLogged(events, log, j);
    }
  }

  ghost predicate EndLogged<T>(events: seq<Event<T>>, log: seq<Entry<T>>, j: nat)
    requires j < |events| == |log|
  {
    if events[j].BlockEnd? then log[j] == Ended(events[j].tblock) else log[j].Noted?
  }

  lemma NewTracks<T(!new)>()
    ensures Tracks(New<T>(), {})
  {
    assert forall t: U64 :: At(New<T>(), t) == None;
  }

  lemma LastTx<T(!new)>(events: seq<Event<T>>)
    requires events != [] && events[|events| - 1].Tx?
    requires var before := events[..|events| - 1]; Tracks(State(before), Live(before))
    ensures Tracks(State(events), Live(events))
  {
    var before, e := events[..|events| - 1], events[|events| - 1];
    var m, live := State(before), Live(before);
    TxStep(m, live, e.members, e.tblock, e.globalTtl);
    var r := ApplyTx(m, e.members, e.tblock, e.globalTtl);
    assert State(events) == if r.Ok? then r.value else m;
    assert Succeeds(events, |before|) <==> r.Ok?;
    LiveLast(events);
    assert Live(events) == if r.Ok? then live + Elements(e.members) else live;
  }

  lemma LiveLast<T>(events: seq<Event<T>>)
    requires events != []
    ensures var k := |events| - 1;
            Live(events) == match EntryOf(events, k)
                            case Noted(xs) => Live(events[..k]) + Elements(xs)
                            case Ended(tblock) => Surviving(Live(events[..k]), tblock)
  {
    var k := |events| - 1;
    assert Log(events)[..k] == Log(events[..k]);
  }

  /** In every run at all, the state holds exactly the live members, each counted once. */
  lemma {:induction false} RunTracks<T(!new)>(events: seq<Event<T>>)
    ensures Tracks(State(events), Live(events))
  {
    if events == [] {
      NewTracks<T>();
    } else {
      var before, e := events[..|events| - 1], events[|events| - 1];
      RunTracks(before);
      if e.Tx? {
        LastTx(events);
      } else {
        BlockStep(State(before), Live(before), e.tblock);
        LiveLast(events);
      }
    }
  }

  /** An earlier event recorded the hash, and no block has ended since after its time to live. */
  ghost predicate Recorded<T>(events: seq<Event<T>>, h: T) {
    exists i, t: U64 :: 0 <= i < |events| && LiveFrom(events, Member(h, t), i)
  }

  lemma RecordedIsLive<T>(events: seq<Event<T>>, h: T)
    ensures Recorded(events, h) <==> HashIn(h, Live(events))
  {
    if Recorded(events, h) {
      var i, t: U64 :| 0 <= i < |events| && LiveFrom(events, Member(h, t), i);
      LiveLogged(events, Member(h, t), i);
      LiveStays(Log(events), Member(h, t), i);
    }
    if HashIn(h, Live(events)) {
      var y :| y in Live(events) && y.hash == h;
      var i := LiveSince(Log(events), y);
      LiveLogged(events, y, i);
      assert y == Member(h, y.ttl);
    }
  }

  /** In every run at all, a transaction goes through exactly if its members are in their
      windows and of different hashes, and every transaction that recorded one of those hashes
      before has been followed by the end of a block after the time to live it recorded. */
  lemma RunAccepts<T(!new)>(events: seq<Event<T>>, i: nat)
    requires i < |events| && events[i].Tx?
    ensures var e := events[i];
            Succeeds(events, i) <==>
            && (forall k :: 0 <= k < |e.members| ==> InWindow(e.members[k], e.tblock, e.globalTtl))
            && (forall j, k :: 0 <= j < k < |e.members| ==> e.members[j].hash != e.members[k].hash)
            && (forall k :: 0 <= k < |e.members| ==> !Recorded(events[..i], e.members[k].hash))
  {
    var before, e := events[..i], events[i];
    RunTracks(before);
    TxStep(State(before), Live(before), e.members, e.tblock, e.globalTtl);
    forall k | 0 <= k < |e.members|
      ensures Recorded(before, e.members[k].hash) <==> HashIn(e.members[k].hash, Live(before))
    {
      RecordedIsLive(before, e.members[k].hash);
    }
  }

  /** If a hash goes through twice, a block ended in between, after the first time to live. */
  lemma AgainAfterExpiry<T(!new)>(events: seq<Event<T>>, i: nat, j: nat, x: Member<T>, y: Member<T>) returns (k: nat)
    requires i < j < |events| && Succeeds(events, i) && Succeeds(events, j)
    requires x in events[i].members && y in events[j].members && x.hash == y.hash
    ensures i < k < j && events[k].BlockEnd? && x.ttl < events[k].tblock
  {
    RunAccepts(events, j);
    var before := events[..j];
    assert !Recorded(before, y.hash) by { var n :| 0 <= n < |events[j].members| && events[j].members[n] == y; }
    SucceedsBefore(events, j, i);
    assert x == Member(y.hash, x.ttl) && before[i] == events[i];
    assert !LiveFrom(before, x, i) && !NoneEnded(before, i, x.ttl);
    k :| i < k < |before| && before[k].BlockEnd? && x.ttl < before[k].tblock;
  }

  /** Time does not run backwards. */
  ghost predicate Ordered<T>(events: seq<Event<T>>) {
    forall i, j :: 0 <= i <= j < |events| ==> events[i].tblock <= events[j].tblock
  }

  /** An intent, whose hash fixes its time to live, never goes through twice. */
  lemma NeverTwice<T(!new)>(events: seq<Event<T>>, i: nat, j: nat, x: Member<T>)
    requires Ordered(events) && i < j < |events| && Succeeds(events, i) && x in events[i].members
    requires events[j].Tx? && x in events[j].members
    ensures !Succeeds(events, j)
  {
    if Succeeds(events, j) {
      var k := AgainAfterExpiry(events, i, j, x, x);
      RunAccepts(events, j);
    }
  }

  /** A single payout goes through exactly if no earlier record of its hash is live. */
  lemma PayoutExactly<T(!new)>(events: seq<Event<T>>, i: nat, h: T, tblock: U64, globalTtl: Duration)
    requires i < |events| && events[i] == Payout([h], tblock, globalTtl) && 0 <= globalTtl
    ensures Succeeds(events, i) <==> !Recorded(events[..i], h)
  {
    RunAccepts(events, i);
    assert events[i].members[0] == Member(h, Plus(tblock, globalTtl));
  }

  /** Once made, a payout is not made again before a block ends after its time and the global time to
      live together. */
  lemma PayoutWaits<T(!new)>(events: seq<Event<T>>, i: nat, j: nat, hashes: seq<T>, h: T, t: U64, globalTtl: Duration)
      returns (k: nat)
    requires i < j < |events| && Succeeds(events, i) && Succeeds(events, j)
    requires events[i] == Payout(hashes, t, globalTtl) && 0 <= globalTtl < U64_END && h in hashes
    requires exists y :: y in events[j].members && y.hash == h
    ensures i < k < j && events[k].BlockEnd? && t + globalTtl < events[k].tblock
  {
    var n :| 0 <= n < |hashes| && hashes[n] == h;
    var x := events[i].members[n];
    var y :| y in events[j].members && y.hash == h;
    assert x == Member(h, Plus(t, globalTtl));
    k := AgainAfterExpiry(events, i, j, x, y);
    PlusIsExact(t, globalTtl);
  }

  /** So it is made again once a block has ended after the global time to live. */
  lemma PayoutAgain<T(!new)>(h: T, t: U64, u: U64, globalTtl: Duration)
    requires 0 <= globalTtl && t + globalTtl < u && u + globalTtl < U64_END
    ensures var events := [Payout([h], t, globalTtl), BlockEnd(u), Payout([h], u, globalTtl)];
            Succeeds(events, 0) && Succeeds(events, 2)
  {
    var events := [Payout([h], t, globalTtl), BlockEnd(u), Payout([h], u, globalTtl)];
    PayoutExactly(events, 0, h, t, globalTtl);
    PayoutExactly(events, 2, h, u, globalTtl);
    PayoutExpires(events[..2], h, t, u, globalTtl);
  }

  lemma PayoutExpires<T>(events: seq<Event<T>>, h: T, t: U64, u: U64, globalTtl: Duration)
    requires 0 <= globalTtl && t + globalTtl < u && |events| == 2
    requires events[0] == Payout([h], t, globalTtl) && events[1] == BlockEnd(u)
    ensures !Recorded(events, h)
  {
    forall i, s: U64 | 0 <= i < 2 ensures !LiveFrom(events, Member(h, s), i) {
      assert Plus(t, globalTtl) < u;
    }
  }
}
