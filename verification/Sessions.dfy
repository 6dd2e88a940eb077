/** The string store and a client's transaction state, updated in place. EXEC is one step. */
module Sessions {
  import opened Bytes
  import opened Decimal
  import opened Database
  import opened Transactions
  import opened ExecRuns

  class StringStore {
    var data: map<Bytes, Cell>

    constructor ()
      ensures data == map[]
    {
      data := map[];
    }

    method Set(key: Bytes, value: Bytes)
      modifies this
      ensures data == Applied(old(data), SetOp(key, value))
    {
      if key !in data {
        data := data[key := Cell(value, 1)];
        return;
      }
      var e := data[key];
      data := data[key := Cell(value, Bump(e.version))];
    }

    method INCR(key: Bytes) returns (ok: bool, n: int)
      modifies this
      ensures data == Applied(old(data), IncrOp(key))
      ensures ok <==> Touches(old(data), IncrOp(key), key)
      ensures ok ==> key in data && data[key].value == Itoa(n)
    {
      if key !in data {
        data := data[key := Cell([49], 1)];
        assert Itoa(1) == [49];
        return true, 1;
      }
      var entry := data[key];
      match Atoi(entry.value)
      case NotANumber =>
        return false, 0;
      case Num(val) =>
        data := data[key := Cell(Itoa(Increment(val)), Bump(entry.version))];
        return true, Increment(val);
    }

    /** Stops at the first missing key. */
    method Watch(watchedKeys: map<Bytes, nat>, keys: seq<Bytes>) returns (watched: map<Bytes, nat>)
      ensures watched == Recorded(watchedKeys, data, keys)
    {
      watched := watchedKeys;
      for i := 0 to |keys|
        invariant Recorded(watchedKeys, data, keys) == Recorded(watched, data, keys[i..])
      {
        var key := keys[i];
        assert keys[i..][0] == key && keys[i..][1..] == keys[i + 1..];
        if key !in data {
          watched := watched[key := 0];
          return;
        }
        watched := watched[key := data[key].version];
      }
    }

    method CheckWatchedKeysForChange(watchedKeys: map<Bytes, nat>) returns (changed: bool)
      ensures changed <==> Changed(watchedKeys, data)
    {
      var remaining := watchedKeys.Keys;
      while remaining != {}
        invariant remaining <= watchedKeys.Keys
        invariant forall k :: k in watchedKeys && k !in remaining && k in data ==> data[k].version == watchedKeys[k]
        decreases |remaining|
      {
        var k :| k in remaining;
        remaining := remaining - {k};
        if k !in data {
          continue;
        }
        if data[k].version != watchedKeys[k] {
          return true;
        }
      }
      return false;
    }
  }

  class Session {
    const store: StringStore
    var cmdQueue: seq<Command>
    var isMultiActive: bool
    var watchedKeys: map<Bytes, nat>
    var isResponseQueued: bool
    /** The replies kept for EXEC's array, by their number. */
    var cmdQueueResponses: nat

    ghost function View(): Client
      reads this, store
    {
      Client(store.data, cmdQueue, isMultiActive, watchedKeys, isResponseQueued, cmdQueueResponses)
    }

    constructor (store: StringStore)
      ensures this.store == store && View() == Start(store.data).client
    {
      this.store := store;
      cmdQueue, isMultiActive, watchedKeys := [], false, map[];
      isResponseQueued, cmdQueueResponses := false, 0;
    }

    method SendResponse()
      modifies `cmdQueueResponses
      ensures View() == Replied(old(View()))
    {
      if isResponseQueued {
        cmdQueueResponses := cmdQueueResponses + 1;
      }
    }

    method DiscardWatch()
      modifies this
      ensures View() == Cleared(old(View()))
    {
      isMultiActive := false;
      isResponseQueued := false;
      cmdQueueResponses := 0;
      cmdQueue := [];
      watchedKeys := map[];
    }

    /** Outside MULTI nothing is discarded. */
    method DiscardCmd() returns (ok: bool)
      requires Idle(View())
      modifies this
      ensures ok <==> old(isMultiActive)
      ensures View() == Step(old(View()), SendDiscard)
      ensures !ok ==> View() == old(View())
      ensures ok ==> !isMultiActive && cmdQueue == [] && watchedKeys == map[] && View().data == old(View().data)
    {
      ok := isMultiActive;
      if ok {
        DiscardWatch();
      }
      SendResponse();
    }

    /** Refused inside MULTI. */
    method WatchCmd(keys: seq<Bytes>) returns (ok: bool)
      requires Idle(View())
      modifies `watchedKeys, `cmdQueueResponses
      ensures ok <==> !isMultiActive
      ensures View() == Step(old(View()), WatchKeys(keys))
      ensures !ok ==> View() == old(View())
    {
      ok := !isMultiActive;
      if ok {
        watchedKeys := store.Watch(watchedKeys, keys);
      }
      SendResponse();
    }

    /** Queued inside MULTI; at once outside. */
    method ExecuteBuiltIn(cmd: Command)
      modifies this, store
      ensures View() == Dispatch(old(View()), cmd)
    {
      if isMultiActive {
        cmdQueue := cmdQueue + [cmd];
        SendResponse();
        return;
      }
      match cmd
      case Write(op) =>
        RunOp(op);
        SendResponse();
      case Multi =>
        SendResponse();
        isMultiActive := true;
      case Unwatch =>
        DiscardWatch();
        SendResponse();
    }

    method RunOp(op: Op)
      modifies store
      ensures store.data == Applied(old(store.data), op)
    {
      match op
      case SetOp(key, value) => store.Set(key, value);
      case IncrOp(key) => var _, _ := store.INCR(key);
    }

    /** All of the queue goes through the dispatcher or none of it. Neither queue nor watched keys are
        cleared afterwards, and a MULTI of the queue turns queueing on again on the way. */
    method ExecCmd() returns (r: ExecReply)
      requires Idle(View())
      modifies this, store
      ensures (View(), r) == Exec(old(View()))
      ensures Idle(View())
      ensures old(isMultiActive && cmdQueue != [] && Changed(watchedKeys, store.data)) ==>
        r == Aborted && unchanged(store) && cmdQueue == [] && !isMultiActive && watchedKeys == map[]
      ensures old(isMultiActive && cmdQueue != [] && !Changed(watchedKeys, store.data)) ==>
        && store.data == AppliedAll(old(store.data), RanOf(old(cmdQueue)))
        && (isMultiActive <==> Multi in old(cmdQueue))
        && (OnlyWrites(old(cmdQueue)) ==>
              r == Replies(|old(cmdQueue)|) && RanOf(old(cmdQueue)) == WritesOf(old(cmdQueue)) &&
                unchanged(`cmdQueue, `watchedKeys))
    {
      hide DispatchAll, Changed, WritesOf, AppliedAll;
      ghost var c := View();
      if !isMultiActive {
        SendResponse();
        return WithoutMulti;
      }
      if |cmdQueue| == 0 {
        SendResponse();
        isMultiActive := false;
        return EmptyArray;
      }
      var isChanged := store.CheckWatchedKeysForChange(watchedKeys);
      if isChanged {
        DiscardWatch();
        SendResponse();
        return Aborted;
      }
      ExecDoes(c);
      if OnlyWrites(cmdQueue) {
        PlainQueue(cmdQueue);
        assert cmdQueue + [] == cmdQueue;
      }
      r := RunQueue();
    }

    /** The loop over the queue as it stands at its start. */
    method RunQueue() returns (r: ExecReply)
      requires Idle(View()) && isMultiActive
      modifies this, store
      ensures var done := DispatchAll(old(View()).(collecting := true, multi := false), old(cmdQueue));
        View() == done.(collecting := false, collected := 0) && r == Replies(done.collected)
    {
      hide DispatchAll;
      isResponseQueued := true;
      isMultiActive := false;
      ghost var c := View();
      var entries := cmdQueue;
      DispatchNone(c);
      for i := 0 to |entries|
        invariant View() == DispatchAll(c, entries[..i])
      {
        DispatchSnoc(c, entries[..i], entries[i]);
        assert entries[..i + 1] == entries[..i] + [entries[i]];
        ExecuteBuiltIn(entries[i]);
      }
      assert entries[..|entries|] == entries;
      isResponseQueued := false;
      r := Replies(cmdQueueResponses);
      cmdQueueResponses := 0;
    }

    /** The queue survives a successful EXEC of plain writes, and so do the watched keys: a transaction
        that adds nothing runs the queue again, or is aborted by the client's own writes. */
    method EmptyTransactionRepeatsQueue() returns (first: ExecReply, second: ExecReply)
      requires Idle(View()) && GoesThrough(View()) && OnlyWrites(cmdQueue)
      modifies this, store
      ensures first == Replies(|old(cmdQueue)|)
      ensures var once := AppliedAll(old(store.data), WritesOf(old(cmdQueue)));
        if Changed(old(watchedKeys), once) then second == Aborted && store.data == once
        else second == first && store.data == AppliedAll(once, WritesOf(old(cmdQueue)))
    {
      hide DispatchAll, Changed, WritesOf, AppliedAll;
      first := ExecCmd();
      PlainQueue(cmdQueue);
      ExecuteBuiltIn(Multi);
      second := ExecCmd();
    }
  }

  /** WATCH k, MULTI, SET k v, EXEC, MULTI, SET x v, EXEC by the only client: the second EXEC is aborted. */
  method OwnWriteAbortsNextTransaction(k: Bytes, x: Bytes, v: Bytes)
    returns (session: Session, first: ExecReply, second: ExecReply)
    requires k != x
    ensures first == Replies(1) && second == Aborted
    ensures session.store.data == map[k := Cell(v, 1)]
  {
    hide Dispatch, Exec, Step, Changed, AppliedAll, WritesOf, Idle;
    OwnWriteRun(k, x, v);
    var store := new StringStore();
    session := new Session(store);
    var _ := session.WatchCmd([k]);
    session.ExecuteBuiltIn(Multi);
    session.ExecuteBuiltIn(Write(SetOp(k, v)));
    first := session.ExecCmd();
    session.ExecuteBuiltIn(Multi);
    session.ExecuteBuiltIn(Write(SetOp(x, v)));
    second := session.ExecCmd();
  }

  lemma OwnWriteRun(k: Bytes, x: Bytes, v: Bytes)
    requires k != x
    ensures var c0 := Start(map[]).client;
      var c1 := Dispatch(Dispatch(Step(c0, WatchKeys([k])), Multi), Write(SetOp(k, v)));
      var c2 := Dispatch(Dispatch(Exec(c1).0, Multi), Write(SetOp(x, v)));
      && Idle(c0) && Idle(Step(c0, WatchKeys([k]))) && Idle(c1) && Idle(c2)
      && Exec(c1).1 == Replies(1) && Exec(c2).1 == Aborted && Exec(c2).0.data == map[k := Cell(v, 1)]
  {
    hide Exec, Changed;
    assert Recorded(map[], map[], [k]) == map[k := 0];
    var c0, op := Start(map[]).client, Write(SetOp(k, v));
    assert Dispatch(Dispatch(Step(c0, WatchKeys([k])), Multi), op).queue == [op];
    assert Dispatch(Dispatch(Step(c0, WatchKeys([k])), Multi), op) == Watching(k, v);
    FirstGoesThrough(k, v);
    assert [op] + [Write(SetOp(x, v))] == [op, Write(SetOp(x, v))];
    SecondAborts(k, v, Write(SetOp(x, v)));
  }

  /** The store and session that WATCH k, MULTI, SET k v of a missing key leave. */
  function Watching(k: Bytes, v: Bytes): Client
  {
    Client(map[], [Write(SetOp(k, v))], true, map[k := 0], false, 0)
  }

  lemma FirstGoesThrough(k: Bytes, v: Bytes)
    ensures Exec(Watching(k, v)) == (Watching(k, v).(data := map[k := Cell(v, 1)], multi := false), Replies(1))
  {
    hide Exec, RanOf, PutBack, ClearsItself, WritesOf, AppliedAll;
    var c, op := Watching(k, v), SetOp(k, v);
    assert GoesThrough(c);
    ExecDoes(c);
    SingleWrite(op);
    PlainQueue(c.queue);
    assert c.queue + [] == c.queue;
  }

  lemma SecondAborts(k: Bytes, v: Bytes, cmd: Command)
    ensures var c := Client(map[k := Cell(v, 1)], [Write(SetOp(k, v)), cmd], true, map[k := 0], false, 0);
      Exec(c) == (Cleared(c), Aborted)
  {
    hide DispatchAll;
    var watched: map<Bytes, nat> := map[k := 0];
    var data := map[k := Cell(v, 1)];
    assert k in watched && k in data && data[k].version != watched[k];
  }

  lemma SingleWrite(op: Op)
    ensures OnlyWrites([Write(op)]) && WritesOf([Write(op)]) == [op]
    ensures forall data :: AppliedAll(data, [op]) == Applied(data, op)
  {
    assert [Write(op)][..0] == [];
    assert WritesOf([]) == [];
    forall data ensures AppliedAll(data, [op]) == Applied(data, op) {
      AppliedOnce(data, op);
    }
  }

  /** MULTI, SET a v, MULTI, SET b v, EXEC: the second write is queued again instead of run. */
  method NestedMultiStopsQueue(a: Bytes, b: Bytes, v: Bytes) returns (session: Session, r: ExecReply)
    requires a != b
    ensures r == Replies(3) && session.store.data == map[a := Cell(v, 1)]
    ensures session.isMultiActive &&
      session.cmdQueue == [Write(SetOp(a, v)), Multi, Write(SetOp(b, v)), Write(SetOp(b, v))]
  {
    hide Dispatch, Exec, Step, Changed, AppliedAll, WritesOf, Idle, RanOf;
    NestedMultiRun(a, b, v);
    var store := new StringStore();
    session := new Session(store);
    session.ExecuteBuiltIn(Multi);
    session.ExecuteBuiltIn(Write(SetOp(a, v)));
    session.ExecuteBuiltIn(Multi);
    session.ExecuteBuiltIn(Write(SetOp(b, v)));
    r := session.ExecCmd();
  }

  lemma NestedMultiRun(a: Bytes, b: Bytes, v: Bytes)
    requires a != b
    ensures var c := Dispatch(Dispatch(Dispatch(Dispatch(Start(map[]).client, Multi), Write(SetOp(a, v))), Multi),
      Write(SetOp(b, v)));
      && Idle(c) && Exec(c).1 == Replies(3) && Exec(c).0.data == map[a := Cell(v, 1)]
      && Exec(c).0.multi && Exec(c).0.queue == [Write(SetOp(a, v)), Multi, Write(SetOp(b, v)), Write(SetOp(b, v))]
  {
    hide Exec;
    var first, second := Write(SetOp(a, v)), Write(SetOp(b, v));
    var c := Dispatch(Dispatch(Dispatch(Dispatch(Start(map[]).client, Multi), first), Multi), second);
    assert c.queue == [first, Multi, second];
    NestedMultiExec(SetOp(a, v), SetOp(b, v));
  }

  lemma NestedMultiExec(first: Op, second: Op)
    ensures var q := [Write(first), Multi, Write(second)];
      Exec(Client(map[], q, true, map[], false, 0)) ==
        (Client(Applied(map[], first), q + [Write(second)], true, map[], false, 0), Replies(3))
  {
    hide Exec, WritesOf, AppliedAll, Applied;
    var q := [Write(first), Multi, Write(second)];
    var c := Client(map[], q, true, map[], false, 0);
    assert FirstMulti(q) == 1 && q[..1] == [Write(first)] && q[2..] == [Write(second)];
    SingleWrite(first);
    assert GoesThrough(c);
    ExecDoes(c);
  }
}
