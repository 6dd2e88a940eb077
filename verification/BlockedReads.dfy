/** Blocking stream reads against additions, as interleaved atomic steps: the locked parts of XADD and
    XREAD, and the sends, receives and timeouts that happen outside the lock. */
module BlockedReads {
  import opened Bytes
  import opened StreamIds
  import opened WaiterLine

  datatype Phase = Waiting | Woken | TimedOut | Returned(delivers: bool)

  /** A read that found nothing and blocked: its streams, its cursors and where it stands. */
  datatype Reader = Reader(keys: seq<Bytes>, cursors: seq<Id>, phase: Phase)

  /** `slots` are the one-place channels holding a message, `sending` the notifications that additions
      have taken over under the lock and not attempted yet. */
  datatype Sys = Sys(streams: map<Bytes, seq<Id>>, waiters: map<Bytes, seq<nat>>, readers: map<nat, Reader>,
                     slots: set<nat>, sending: multiset<nat>)

  const INIT := Sys(map[], map[], map[], {}, multiset{})

  datatype Step =
    | Add(key: Bytes, id: Id)                              // XADD under the lock
    | Notify(chan: nat)                                    // one of XADD's sends, never blocking
    | Register(chan: nat, keys: seq<Bytes>, cursors: seq<Id>) // XREAD found nothing and blocks
    | Receive(chan: nat)                                   // the read is woken by its channel
    | Finish(chan: nat)                                    // ... and collects under the lock
    | Expire(chan: nat)                                    // the read's timer wins
    | GiveUp(chan: nat)                                    // ... and it leaves, draining its channel

  function IdsOf(s: Sys, key: Bytes): seq<Id>
  {
    if key in s.streams then s.streams[key] else []
  }

  function WaitersOf(waiters: map<Bytes, seq<nat>>, key: Bytes): seq<nat>
  {
    if key in waiters then waiters[key] else []
  }

  function Top(s: Sys, key: Bytes): Id
  {
    var ids := IdsOf(s, key);
    if |ids| == 0 then ZERO_ID else ids[|ids| - 1]
  }

  ghost predicate Above(s: Sys, key: Bytes, cursor: Id)
  {
    exists i :: 0 <= i < |IdsOf(s, key)| && IdLess(cursor, IdsOf(s, key)[i])
  }

  /** A read of these streams from these cursors has something to deliver. */
  ghost predicate SomethingNew(s: Sys, keys: seq<Bytes>, cursors: seq<Id>)
    requires |keys| == |cursors|
  {
    exists i :: 0 <= i < |keys| && Above(s, keys[i], cursors[i])
  }

  /** The channel joins the waiters of each key in turn. */
  function RegisterOn(waiters: map<Bytes, seq<nat>>, keys: seq<Bytes>, c: nat): map<Bytes, seq<nat>>
  {
    if |keys| == 0 then waiters
    else
      var before := RegisterOn(waiters, keys[..|keys| - 1], c);
      var key := keys[|keys| - 1];
      before[key := WaitersOf(before, key) + [c]]
  }

  /** The channel leaves the waiters of each key in turn, one place per mention. */
  function LeaveAll(waiters: map<Bytes, seq<nat>>, keys: seq<Bytes>, c: nat): map<Bytes, seq<nat>>
  {
    if |keys| == 0 then waiters
    else
      var before := LeaveAll(waiters, keys[..|keys| - 1], c);
      var key := keys[|keys| - 1];
      before[key := RemoveFirst(WaitersOf(before, key), c)]
  }

  ghost predicate Enabled(s: Sys, step: Step)
  {
    match step
    case Add(key, id) => IdLess(Top(s, key), id)
    case Notify(c) => c in s.sending
    case Register(c, keys, cursors) => c !in s.readers && |keys| == |cursors| && !SomethingNew(s, keys, cursors)
    case Receive(c) => c in s.readers && s.readers[c].phase == Waiting && c in s.slots
    case Finish(c) => c in s.readers && s.readers[c].phase == Woken && |s.readers[c].keys| == |s.readers[c].cursors|
    case Expire(c) => c in s.readers && s.readers[c].phase == Waiting
    case GiveUp(c) => c in s.readers && s.readers[c].phase == TimedOut && |s.readers[c].keys| == |s.readers[c].cursors|
  }

  ghost function After(s: Sys, step: Step): Sys
    requires Enabled(s, step)
  {
    match step
    case Add(key, id) =>
      s.(streams := s.streams[key := IdsOf(s, key) + [id]],
         sending := s.sending + multiset(WaitersOf(s.waiters, key)),
         waiters := s.waiters[key := []])
    case Notify(c) => s.(sending := s.sending - multiset{c}, slots := s.slots + {c})
    case Register(c, keys, cursors) =>
      s.(readers := s.readers[c := Reader(keys, cursors, Waiting)], waiters := RegisterOn(s.waiters, keys, c))
    case Receive(c) => s.(readers := s.readers[c := s.readers[c].(phase := Woken)], slots := s.slots - {c})
    case Finish(c) =>
      var r := s.readers[c];
      s.(waiters := LeaveAll(s.waiters, r.keys, c),
         readers := s.readers[c := r.(phase := Returned(SomethingNew(s, r.keys, r.cursors)))])
    case Expire(c) => s.(readers := s.readers[c := s.readers[c].(phase := TimedOut)])
    case GiveUp(c) =>
      var r := s.readers[c];
      s.(waiters := LeaveAll(s.waiters, r.keys, c), slots := s.slots - {c},
         readers := s.readers[c := r.(phase := Returned(c in s.slots && SomethingNew(s, r.keys, r.cursors)))])
  }

  ghost predicate Runs(s: Sys, steps: seq<Step>)
    decreases |steps|
  {
    |steps| == 0 || (Enabled(s, steps[0]) && Runs(After(s, steps[0]), steps[1..]))
  }

  ghost function Final(s: Sys, steps: seq<Step>): Sys
    requires Runs(s, steps)
    decreases |steps|
  {
    if |steps| == 0 then s else Final(After(s, steps[0]), steps[1..])
  }

  // What every step keeps

  /** A message for the channel is in it or on its way. */
  predicate Notified(s: Sys, c: nat)
  {
    c in s.slots || c in s.sending
  }

  /** A blocked read is either notified or registered everywhere with nothing new to deliver. */
  ghost predicate WaitingOk(s: Sys, c: nat)
    requires c in s.readers && |s.readers[c].keys| == |s.readers[c].cursors|
  {
    var r := s.readers[c];
    r.phase == Waiting && !Notified(s, c) ==>
      && !SomethingNew(s, r.keys, r.cursors)
      && forall i :: 0 <= i < |r.keys| ==> c in WaitersOf(s.waiters, r.keys[i])
  }

  ghost predicate Inv(s: Sys)
  {
    && (forall c :: c in s.readers ==> |s.readers[c].keys| == |s.readers[c].cursors| && WaitingOk(s, c))
    && (forall key, c :: key in s.waiters && c in s.waiters[key] ==> c in s.readers && key in s.readers[c].keys)
    && (forall c :: Notified(s, c) ==> c in s.readers)
    && (forall key, i :: key in s.streams && 0 <= i < |s.streams[key]| ==> IdAtMost(s.streams[key][i], Top(s, key)))
  }

  lemma {:induction false} LeaveAllKeeps(waiters: map<Bytes, seq<nat>>, keys: seq<Bytes>, c: nat, key: Bytes, d: nat)
    ensures d in WaitersOf(LeaveAll(waiters, keys, c), key) ==> d in WaitersOf(waiters, key)
    ensures d != c && d in WaitersOf(waiters, key) ==> d in WaitersOf(LeaveAll(waiters, keys, c), key)
  {
    if |keys| > 0 {
      var before := LeaveAll(waiters, keys[..|keys| - 1], c);
      LeaveAllKeeps(waiters, keys[..|keys| - 1], c, key, d);
      RemoveFirstKeeps(WaitersOf(before, key), c, d);
    }
  }

  lemma {:induction false} RegisterOnAdds(waiters: map<Bytes, seq<nat>>, keys: seq<Bytes>, c: nat, key: Bytes, d: nat)
    ensures d in WaitersOf(RegisterOn(waiters, keys, c), key) <==>
      d in WaitersOf(waiters, key) || (d == c && key in keys)
  {
    if |keys| > 0 {
      RegisterOnAdds(waiters, keys[..|keys| - 1], c, key, d);
      assert keys == keys[..|keys| - 1] + [keys[|keys| - 1]];
    }
  }

  function Mentions(keys: seq<Bytes>, key: Bytes): nat
  {
    if |keys| == 0 then 0 else Mentions(keys[..|keys| - 1], key) + if keys[|keys| - 1] == key then 1 else 0
  }

  /** Whoever registers stands at the end of each line, once for each mention of its key. */
  lemma {:induction false} RegisterAtEnd(waiters: map<Bytes, seq<nat>>, keys: seq<Bytes>, c: nat, key: Bytes)
    ensures WaitersOf(RegisterOn(waiters, keys, c), key) == WaitersOf(waiters, key) + seq(Mentions(keys, key), _ => c)
  {
    if |keys| > 0 {
      RegisterAtEnd(waiters, keys[..|keys| - 1], c, key);
    }
  }

  /** Leaving takes one of the reader's places for each mention, as far as there are any, and nobody else's. */
  lemma {:induction false} LeaveTakesOwn(waiters: map<Bytes, seq<nat>>, keys: seq<Bytes>, c: nat, key: Bytes, d: nat)
    ensures var places, n := multiset(WaitersOf(waiters, key))[d], Mentions(keys, key);
      multiset(WaitersOf(LeaveAll(waiters, keys, c), key))[d] ==
        if d != c then places else if n < places then places - n else 0
  {
    if |keys| > 0 {
      var before := keys[..|keys| - 1];
      LeaveTakesOwn(waiters, before, c, key, d);
      FirstIsTaken(WaitersOf(LeaveAll(waiters, before, c), key), c, d);
    }
  }

  lemma {:induction false} FirstIsTaken(cs: seq<nat>, c: nat, d: nat)
    ensures var places := multiset(cs)[d];
      multiset(RemoveFirst(cs, c))[d] == if d == c && places > 0 then places - 1 else places
  {
    if |cs| > 0 {
      assert cs == [cs[0]] + cs[1..];
      if cs[0] != c {
        FirstIsTaken(cs[1..], c, d);
      }
    }
  }

  /** A channel holds a message exactly from a notification to the next receipt. */
  lemma SlotAfter(s: Sys, step: Step, c: nat)
    requires Enabled(s, step)
    ensures c in After(s, step).slots <==>
      step == Notify(c) || (c in s.slots && step != Receive(c) && step != GiveUp(c))
  {
  }

  /** A read waits, and then is either woken and collects, or times out and gives up; the two collect under the
      lock, the second only if its channel holds a message after all. */
  lemma Lifecycle(s: Sys, step: Step, c: nat)
    requires Enabled(s, step) && c in s.readers && step != Register(c, s.readers[c].keys, s.readers[c].cursors)
    ensures c in After(s, step).readers
    ensures var r, was := After(s, step).readers[c], s.readers[c];
      && r.keys == was.keys && r.cursors == was.cursors
      && match was.phase
         case Waiting =>
           r.phase == (if step == Receive(c) then Woken else if step == Expire(c) then TimedOut else Waiting)
         case Woken => if step == Finish(c) then r.phase == Returned(SomethingNew(s, r.keys, r.cursors)) else r == was
         case TimedOut =>
           if step == GiveUp(c) then r.phase == Returned(c in s.slots && SomethingNew(s, r.keys, r.cursors))
           else r == was
         case Returned(_) => r == was
  {
    hide SomethingNew;
  }

  /** Entries are only ever added. */
  lemma NewsStays(s: Sys, step: Step, keys: seq<Bytes>, cursors: seq<Id>)
    requires Enabled(s, step) && |keys| == |cursors|
    ensures SomethingNew(s, keys, cursors) ==> SomethingNew(After(s, step), keys, cursors)
    ensures !step.Add? ==> (SomethingNew(After(s, step), keys, cursors) <==> SomethingNew(s, keys, cursors))
    ensures step.Add? && step.key !in keys ==>
      (SomethingNew(After(s, step), keys, cursors) <==> SomethingNew(s, keys, cursors))
  {
    var t := After(s, step);
    forall i | 0 <= i < |keys|
      ensures Above(s, keys[i], cursors[i]) ==> Above(t, keys[i], cursors[i])
      ensures !step.Add? || step.key != keys[i] ==> (Above(t, keys[i], cursors[i]) <==> Above(s, keys[i], cursors[i]))
    {
      var key := keys[i];
      assert IdsOf(s, key) <= IdsOf(t, key);
      if Above(s, key, cursors[i]) {
        var j :| 0 <= j < |IdsOf(s, key)| && IdLess(cursors[i], IdsOf(s, key)[j]);
        assert IdsOf(t, key)[j] == IdsOf(s, key)[j];
      }
      if !step.Add? || step.key != key {
        assert IdsOf(t, key) == IdsOf(s, key);
      }
    }
  }

  lemma WaitersStep(s: Sys, step: Step, key: Bytes, d: nat)
    requires Enabled(s, step)
    ensures d in WaitersOf(After(s, step).waiters, key) ==>
      d in WaitersOf(s.waiters, key) || (step.Register? && d == step.chan && key in step.keys)
    ensures d in WaitersOf(s.waiters, key) ==>
      || d in WaitersOf(After(s, step).waiters, key)
      || (step.Add? && key == step.key)
      || ((step.Finish? || step.GiveUp?) && d == step.chan)
    ensures step.Register? && d == step.chan && key in step.keys ==> d in WaitersOf(After(s, step).waiters, key)
  {
    match step
    case Register(c, keys, _) => RegisterOnAdds(s.waiters, keys, c, key, d);
    case Finish(c) => LeaveAllKeeps(s.waiters, s.readers[c].keys, c, key, d);
    case GiveUp(c) => LeaveAllKeeps(s.waiters, s.readers[c].keys, c, key, d);
    case _ =>
  }

  lemma WaitingKept(s: Sys, step: Step, c: nat)
    requires Inv(s) && Enabled(s, step) && c in After(s, step).readers
    ensures var r := After(s, step).readers[c]; |r.keys| == |r.cursors| && WaitingOk(After(s, step), c)
  {
    var t := After(s, step);
    var r := t.readers[c];
    if r.phase == Waiting && !Notified(t, c) {
      NewsStays(s, step, r.keys, r.cursors);
      if step.Register? && step.chan == c {
        forall i | 0 <= i < |r.keys| ensures c in WaitersOf(t.waiters, r.keys[i]) {
          WaitersStep(s, step, r.keys[i], c);
        }
      } else {
        assert c in s.readers && s.readers[c] == r && WaitingOk(s, c) && !Notified(s, c);
        if step.Add? {
          assert c !in WaitersOf(s.waiters, step.key);
        }
        forall i | 0 <= i < |r.keys| ensures c in WaitersOf(t.waiters, r.keys[i]) {
          WaitersStep(s, step, r.keys[i], c);
        }
      }
    }
  }

  lemma TopsKept(s: Sys, step: Step)
    requires Inv(s) && Enabled(s, step)
    ensures forall key, i :: key in After(s, step).streams && 0 <= i < |After(s, step).streams[key]| ==>
      IdAtMost(After(s, step).streams[key][i], Top(After(s, step), key))
  {
    var t := After(s, step);
    forall key, i | key in t.streams && 0 <= i < |t.streams[key]| ensures IdAtMost(t.streams[key][i], Top(t, key)) {
      if step.Add? && key == step.key && i < |IdsOf(s, key)| {
        assert IdAtMost(IdsOf(s, key)[i], Top(s, key));
      }
    }
  }

  lemma InvKept(s: Sys, step: Step)
    requires Inv(s) && Enabled(s, step)
    ensures Inv(After(s, step))
  {
    var t := After(s, step);
    forall c | c in t.readers ensures |t.readers[c].keys| == |t.readers[c].cursors| && WaitingOk(t, c) {
      WaitingKept(s, step, c);
    }
    forall key, c | key in t.waiters && c in t.waiters[key] ensures c in t.readers && key in t.readers[c].keys {
      WaitersStep(s, step, key, c);
      assert c in WaitersOf(t.waiters, key);
      assert c in WaitersOf(s.waiters, key) ==> key in s.waiters && c in s.waiters[key];
    }
    forall c | Notified(t, c) ensures c in t.readers {
      if step.Add? && !Notified(s, c) {
        assert c in WaitersOf(s.waiters, step.key);
      }
    }
    TopsKept(s, step);
  }

  lemma {:induction false} InvAlongRun(s: Sys, steps: seq<Step>)
    requires Inv(s) && Runs(s, steps)
    ensures Inv(Final(s, steps))
    decreases |steps|
  {
    if |steps| > 0 {
      InvKept(s, steps[0]);
      InvAlongRun(After(s, steps[0]), steps[1..]);
    }
  }

  /** No lost wakeup: in every interleaving, a read that is still blocked although an entry above its
      cursor exists has a message in its channel or on its way. */
  lemma NoLostWakeup(steps: seq<Step>, c: nat)
    requires Runs(INIT, steps)
    ensures var s := Final(INIT, steps);
      c in s.readers && s.readers[c].phase == Waiting ==>
        var r := s.readers[c];
        |r.keys| == |r.cursors| && (SomethingNew(s, r.keys, r.cursors) ==> Notified(s, c))
  {
    assert Inv(INIT);
    InvAlongRun(INIT, steps);
    var s := Final(INIT, steps);
    assert c in s.readers ==> WaitingOk(s, c);
  }

  // When a wakeup is sure to deliver

  /** For each of its streams the read has a cursor that is not beyond the stream's end. */
  ghost predicate NotBeyond(s: Sys, keys: seq<Bytes>, cursors: seq<Id>)
    requires |keys| == |cursors|
  {
    forall i :: 0 <= i < |keys| ==> SomeCursorWithin(s, keys, cursors, keys[i])
  }

  ghost predicate SomeCursorWithin(s: Sys, keys: seq<Bytes>, cursors: seq<Id>, key: Bytes)
    requires |keys| == |cursors|
  {
    exists j :: 0 <= j < |keys| && keys[j] == key && IdAtMost(cursors[j], Top(s, key))
  }

  /** In no continuation is the read woken with nothing to deliver. */
  ghost predicate WakesWithNews(s: Sys, c: nat, keys: seq<Bytes>, cursors: seq<Id>)
    requires |keys| == |cursors|
  {
    forall steps :: Runs(s, steps) ==> !WokenForNothing(Final(s, steps), c, keys, cursors)
  }

  ghost predicate WokenForNothing(s: Sys, c: nat, keys: seq<Bytes>, cursors: seq<Id>)
    requires |keys| == |cursors|
  {
    c in s.readers && s.readers[c].phase == Woken && !SomethingNew(s, keys, cursors)
  }

  ghost predicate Sure(s: Sys, c: nat, keys: seq<Bytes>, cursors: seq<Id>)
    requires |keys| == |cursors|
  {
    && c in s.readers && s.readers[c].keys == keys && s.readers[c].cursors == cursors
    && NotBeyond(s, keys, cursors)
    && (Notified(s, c) || s.readers[c].phase == Woken ==> SomethingNew(s, keys, cursors))
  }

  lemma TopGrows(s: Sys, step: Step, key: Bytes, cursor: Id)
    requires Enabled(s, step) && IdAtMost(cursor, Top(s, key))
    ensures IdAtMost(cursor, Top(After(s, step), key))
    ensures step.Add? && step.key == key ==> Above(After(s, step), key, cursor)
  {
    var t := After(s, step);
    if step.Add? && step.key == key {
      assert IdsOf(t, key)[|IdsOf(s, key)|] == step.id;
    }
  }

  lemma NotBeyondKept(s: Sys, step: Step, keys: seq<Bytes>, cursors: seq<Id>)
    requires Enabled(s, step) && |keys| == |cursors| && NotBeyond(s, keys, cursors)
    ensures NotBeyond(After(s, step), keys, cursors)
  {
    var t := After(s, step);
    hide After;
    forall i | 0 <= i < |keys| ensures SomeCursorWithin(t, keys, cursors, keys[i]) {
      assert SomeCursorWithin(s, keys, cursors, keys[i]);
      var j :| 0 <= j < |keys| && keys[j] == keys[i] && IdAtMost(cursors[j], Top(s, keys[i]));
      TopGrows(s, step, keys[i], cursors[j]);
    }
  }

  /** The step that takes a channel for notification has put an entry above a cursor within the stream. */
  lemma NewsWhenTaken(s: Sys, step: Step, c: nat, keys: seq<Bytes>, cursors: seq<Id>)
    requires Inv(s) && Enabled(s, step) && |keys| == |cursors| && Sure(s, c, keys, cursors)
    requires Notified(After(s, step), c) && !Notified(s, c)
    ensures SomethingNew(After(s, step), keys, cursors)
  {
    var t := After(s, step);
    assert c in WaitersOf(s.waiters, step.key) && step.key in keys;
    var i :| 0 <= i < |keys| && keys[i] == step.key;
    assert SomeCursorWithin(s, keys, cursors, keys[i]);
    var j :| 0 <= j < |keys| && keys[j] == keys[i] && IdAtMost(cursors[j], Top(s, keys[i]));
    TopGrows(s, step, keys[j], cursors[j]);
    assert Above(t, keys[j], cursors[j]);
  }

  lemma SureKept(s: Sys, step: Step, c: nat, keys: seq<Bytes>, cursors: seq<Id>)
    requires Inv(s) && Enabled(s, step) && |keys| == |cursors| && Sure(s, c, keys, cursors)
    ensures Sure(After(s, step), c, keys, cursors)
  {
    hide SomethingNew, NotBeyond;
    NotBeyondKept(s, step, keys, cursors);
    NewsStays(s, step, keys, cursors);
    if Notified(After(s, step), c) && !Notified(s, c) {
      NewsWhenTaken(s, step, c, keys, cursors);
    }
  }

  lemma {:induction false} SureAlongRun(s: Sys, steps: seq<Step>, c: nat, keys: seq<Bytes>, cursors: seq<Id>)
    requires Inv(s) && Runs(s, steps) && |keys| == |cursors| && Sure(s, c, keys, cursors)
    ensures Sure(Final(s, steps), c, keys, cursors)
    decreases |steps|
  {
    if |steps| > 0 {
      InvKept(s, steps[0]);
      SureKept(s, steps[0], c, keys, cursors);
      SureAlongRun(After(s, steps[0]), steps[1..], c, keys, cursors);
    }
  }

  /** Against a cursor beyond the stream's end: an entry at the next ID wakes the read for nothing. */
  lemma WokenForNothingRun(s: Sys, c: nat, keys: seq<Bytes>, cursors: seq<Id>) returns (steps: seq<Step>)
    requires Inv(s) && Enabled(s, Register(c, keys, cursors)) && !NotBeyond(s, keys, cursors)
    ensures var t := After(s, Register(c, keys, cursors));
      Runs(t, steps) && WokenForNothing(Final(t, steps), c, keys, cursors)
  {
    hide Inv, SomethingNew, SomeCursorWithin, RegisterOn;
    var t := After(s, Register(c, keys, cursors));
    var i :| 0 <= i < |keys| && !SomeCursorWithin(s, keys, cursors, keys[i]);
    var key := keys[i];
    var top := Top(s, key);
    var id := Id(top.ms, top.sq + 1);
    RegisterOnAdds(s.waiters, keys, c, key, c);
    var t1 := After(t, Add(key, id));
    assert c in t1.sending;
    var t2 := After(t1, Notify(c));
    var t3 := After(t2, Receive(c));
    NextIdIsNoNews(s, t3, keys, cursors, key, id);
    steps := [Add(key, id)] + ([Notify(c)] + ([Receive(c)] + []));
    RunsCons(t2, Receive(c), []);
    RunsCons(t1, Notify(c), [Receive(c)] + []);
    RunsCons(t, Add(key, id), [Notify(c)] + ([Receive(c)] + []));
  }

  lemma RunsCons(s: Sys, step: Step, rest: seq<Step>)
    requires Enabled(s, step) && Runs(After(s, step), rest)
    ensures Runs(s, [step] + rest) && Final(s, [step] + rest) == Final(After(s, step), rest)
  {
    assert ([step] + rest)[1..] == rest;
  }

  lemma NextIdIsNoNews(s: Sys, t: Sys, keys: seq<Bytes>, cursors: seq<Id>, key: Bytes, id: Id)
    requires |keys| == |cursors| && !SomethingNew(s, keys, cursors) && !SomeCursorWithin(s, keys, cursors, key)
    requires id == Id(Top(s, key).ms, Top(s, key).sq + 1)
    requires t.streams == s.streams[key := IdsOf(s, key) + [id]]
    ensures !SomethingNew(t, keys, cursors)
  {
    forall j | 0 <= j < |keys| ensures !Above(t, keys[j], cursors[j]) {
      assert !Above(s, keys[j], cursors[j]);
      if keys[j] == key {
        assert !IdAtMost(cursors[j], Top(s, key));
        assert IdsOf(t, key) == IdsOf(s, key) + [id];
      } else {
        assert IdsOf(t, keys[j]) == IdsOf(s, keys[j]);
      }
    }
  }

  /** Registering within every named stream's entries makes the read sure to find news when woken. */
  lemma SureOnRegistering(s: Sys, c: nat, keys: seq<Bytes>, cursors: seq<Id>)
    requires Inv(s) && Enabled(s, Register(c, keys, cursors)) && NotBeyond(s, keys, cursors)
    ensures Sure(After(s, Register(c, keys, cursors)), c, keys, cursors)
  {
    var t := After(s, Register(c, keys, cursors));
    assert !Notified(t, c);
    hide Inv, SomethingNew, RegisterOn;
    forall i | 0 <= i < |keys| ensures SomeCursorWithin(t, keys, cursors, keys[i]) {
      assert SomeCursorWithin(s, keys, cursors, keys[i]);
      var j :| 0 <= j < |keys| && keys[j] == keys[i] && IdAtMost(cursors[j], Top(s, keys[i]));
      assert Top(t, keys[i]) == Top(s, keys[i]);
    }
  }

  /** A read that blocks is sure to deliver when its channel wakes it, whatever happens in between,
      exactly when no stream it names ends before all its cursors for it. */
  lemma WakeupDeliversIffNotBeyond(s: Sys, c: nat, keys: seq<Bytes>, cursors: seq<Id>)
    requires Inv(s) && Enabled(s, Register(c, keys, cursors))
    ensures WakesWithNews(After(s, Register(c, keys, cursors)), c, keys, cursors) <==> NotBeyond(s, keys, cursors)
  {
    hide Inv, Sure, NotBeyond, WokenForNothing, After, SomeCursorWithin, SomethingNew;
    var t := After(s, Register(c, keys, cursors));
    if NotBeyond(s, keys, cursors) {
      InvKept(s, Register(c, keys, cursors));
      SureOnRegistering(s, c, keys, cursors);
      forall steps | Runs(t, steps) ensures !WokenForNothing(Final(t, steps), c, keys, cursors) {
        SureAlongRun(t, steps, c, keys, cursors);
        SureNotForNothing(Final(t, steps), c, keys, cursors);
      }
    } else {
      var steps := WokenForNothingRun(s, c, keys, cursors);
    }
  }

  lemma SureNotForNothing(s: Sys, c: nat, keys: seq<Bytes>, cursors: seq<Id>)
    requires |keys| == |cursors| && Sure(s, c, keys, cursors)
    ensures !WokenForNothing(s, c, keys, cursors)
  {
  }
}
