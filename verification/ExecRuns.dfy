/** A client's transactions over whole runs: what is queued, what EXEC runs, and what it leaves behind. */
module ExecRuns {
  import opened Bytes
  import opened Database
  import opened Transactions

  /** What is queued inside MULTI; WATCH is refused there, EXEC and DISCARD are not queued. */
  datatype Command = Write(op: Op) | Multi | Unwatch

  /** The string store and one client's session. While `collecting`, replies are kept for EXEC's array. */
  datatype Client = Client(data: map<Bytes, Cell>, queue: seq<Command>, multi: bool, watched: map<Bytes, nat>,
                           collecting: bool, collected: nat)

  datatype ExecReply = WithoutMulti | EmptyArray | Aborted | Replies(count: nat)

  function Replied(c: Client): Client
  {
    if c.collecting then c.(collected := c.collected + 1) else c
  }

  function Cleared(c: Client): Client
  {
    c.(queue := [], multi := false, watched := map[], collecting := false, collected := 0)
  }

  /** One command through the dispatcher. */
  function Dispatch(c: Client, cmd: Command): Client
  {
    if c.multi then Replied(c.(queue := c.queue + [cmd]))
    else match cmd
      case Write(op) => Replied(c.(data := Applied(c.data, op)))
      case Multi => Replied(c).(multi := true)
      case Unwatch => Replied(Cleared(c))
  }

  function DispatchAll(c: Client, cmds: seq<Command>): Client
  {
    if |cmds| == 0 then c else Dispatch(DispatchAll(c, cmds[..|cmds| - 1]), cmds[|cmds| - 1])
  }

  /** EXEC, as one step: refused, empty, aborted, or all of the queue through the dispatcher. */
  function Exec(c: Client): (Client, ExecReply)
  {
    if !c.multi then (c, WithoutMulti)
    else if c.queue == [] then (c.(multi := false), EmptyArray)
    else if Changed(c.watched, c.data) then (Cleared(c), Aborted)
    else
      var done := DispatchAll(c.(collecting := true, multi := false), c.queue);
      (done.(collecting := false, collected := 0), Replies(done.collected))
  }

  predicate Idle(c: Client)
  {
    !c.collecting && c.collected == 0
  }

  /** EXEC gets past its checks. */
  predicate GoesThrough(c: Client)
  {
    c.multi && c.queue != [] && !Changed(c.watched, c.data)
  }

  // What EXEC does with a queue

  /** The position of the first queued MULTI, or the length. */
  function FirstMulti(cmds: seq<Command>): (m: nat)
    ensures m <= |cmds|
    ensures m < |cmds| ==> cmds[m].Multi?
    ensures forall i :: 0 <= i < m ==> !cmds[i].Multi?
  {
    if |cmds| == 0 || cmds[0].Multi? then 0 else 1 + FirstMulti(cmds[1..])
  }

  function WritesOf(cmds: seq<Command>): (ops: seq<Op>)
    ensures |ops| <= |cmds|
  {
    if |cmds| == 0 then []
    else
      var last := cmds[|cmds| - 1];
      WritesOf(cmds[..|cmds| - 1]) + if last.Write? then [last.op] else []
  }

  /** The writes EXEC runs of a queue. */
  function RanOf(queue: seq<Command>): seq<Op>
  {
    WritesOf(queue[..FirstMulti(queue)])
  }

  /** EXEC runs an UNWATCH of the queue. */
  predicate ClearsItself(queue: seq<Command>)
  {
    Unwatch in queue[..FirstMulti(queue)]
  }

  /** What a queued MULTI, when EXEC runs it, puts back into the queue unrun. */
  function PutBack(queue: seq<Command>): seq<Command>
  {
    if FirstMulti(queue) == |queue| then [] else queue[FirstMulti(queue) + 1..]
  }

  lemma DispatchNone(c: Client)
    ensures DispatchAll(c, []) == c
  {
  }

  lemma DispatchSnoc(c: Client, cmds: seq<Command>, cmd: Command)
    ensures DispatchAll(c, cmds + [cmd]) == Dispatch(DispatchAll(c, cmds), cmd)
  {
    assert (cmds + [cmd])[..|cmds|] == cmds;
  }

  lemma {:induction false} DispatchConcat(c: Client, a: seq<Command>, b: seq<Command>)
    ensures DispatchAll(c, a + b) == DispatchAll(DispatchAll(c, a), b)
    decreases |b|
  {
    if |b| == 0 {
      assert a + b == a;
    } else {
      assert (a + b)[..|a + b| - 1] == a + b[..|b| - 1];
      DispatchConcat(c, a, b[..|b| - 1]);
    }
  }

  /** Up to the first MULTI, the writes run and an UNWATCH clears everything, the collected replies too. */
  lemma {:induction false} DispatchRuns(c: Client, cmds: seq<Command>)
    requires !c.multi && c.collecting && forall i :: 0 <= i < |cmds| ==> !cmds[i].Multi?
    ensures var t := DispatchAll(c, cmds);
      && !t.multi && t.data == AppliedAll(c.data, WritesOf(cmds))
      && if Unwatch in cmds
         then t.queue == [] && t.watched == map[] && !t.collecting && t.collected == 0
         else t.queue == c.queue && t.watched == c.watched && t.collecting && t.collected == c.collected + |cmds|
  {
    hide AppliedAll;
    AppliedSnoc(c.data, [], SetOp([], []));
    if |cmds| > 0 {
      var before, last := cmds[..|cmds| - 1], cmds[|cmds| - 1];
      assert cmds == before + [last];
      DispatchRuns(c, before);
      assert WritesOf(before) + [] == WritesOf(before);
      if last.Write? {
        AppliedSnoc(c.data, WritesOf(before), last.op);
      }
    }
  }

  lemma AppliedSnoc(data: map<Bytes, Cell>, ops: seq<Op>, op: Op)
    ensures AppliedAll(data, []) == data
    ensures AppliedAll(data, ops + [op]) == Applied(AppliedAll(data, ops), op)
  {
    assert (ops + [op])[..|ops|] == ops;
  }

  /** Behind a MULTI everything is queued. */
  lemma {:induction false} DispatchQueues(c: Client, cmds: seq<Command>)
    requires c.multi
    ensures DispatchAll(c, cmds) ==
      c.(queue := c.queue + cmds, collected := if c.collecting then c.collected + |cmds| else c.collected)
  {
    if |cmds| == 0 {
      assert c.queue + cmds == c.queue;
    } else {
      var before, last := cmds[..|cmds| - 1], cmds[|cmds| - 1];
      DispatchQueues(c, before);
      assert c.queue + cmds == c.queue + before + [last];
    }
  }

  /** A successful EXEC runs the queue up to its first MULTI and queues the rest again; the queue and the
      watched keys stay unless an UNWATCH ran, which also empties the reply. */
  lemma ExecDoes(c: Client)
    requires Idle(c) && GoesThrough(c)
    ensures var (t, r) := Exec(c);
      && Idle(t) && t.data == AppliedAll(c.data, RanOf(c.queue))
      && t.multi == (Multi in c.queue)
      && t.queue == (if ClearsItself(c.queue) then [] else c.queue) + PutBack(c.queue)
      && t.watched == (if ClearsItself(c.queue) then map[] else c.watched)
      && r == Replies(if ClearsItself(c.queue) then 0 else |c.queue|)
  {
    hide DispatchAll, WritesOf, AppliedAll;
    var q, m := c.queue, FirstMulti(c.queue);
    var start := c.(collecting := true, multi := false);
    DispatchRuns(start, q[..m]);
    if m == |q| {
      assert q[..m] == q;
    } else {
      assert q == q[..m] + [q[m]] + q[m + 1..];
      var t := DispatchAll(start, q[..m]);
      DispatchSnoc(start, q[..m], q[m]);
      DispatchConcat(start, q[..m] + [q[m]], q[m + 1..]);
      DispatchQueues(Dispatch(t, Multi), q[m + 1..]);
    }
  }

  lemma {:induction false} WritesConcat(a: seq<Command>, b: seq<Command>)
    ensures WritesOf(a + b) == WritesOf(a) + WritesOf(b)
    decreases |b|
  {
    if |b| == 0 {
      assert a + b == a;
    } else {
      assert (a + b)[..|a + b| - 1] == a + b[..|b| - 1];
      WritesConcat(a, b[..|b| - 1]);
    }
  }

  lemma {:induction false} NoWritesIff(cmds: seq<Command>)
    ensures WritesOf(cmds) == [] <==> forall i :: 0 <= i < |cmds| ==> !cmds[i].Write?
  {
    if |cmds| > 0 {
      NoWritesIff(cmds[..|cmds| - 1]);
    }
  }

  /** EXEC runs all writes of the queue exactly when none stands behind a MULTI. */
  lemma WholeQueueRunsIff(queue: seq<Command>)
    ensures RanOf(queue) == WritesOf(queue) <==>
      forall i, j :: 0 <= i < j < |queue| && queue[i].Multi? ==> !queue[j].Write?
  {
    hide WritesOf;
    var m := FirstMulti(queue);
    assert queue == queue[..m] + queue[m..];
    WritesConcat(queue[..m], queue[m..]);
    NoWritesFrom(queue, m);
    assert RanOf(queue) == WritesOf(queue) <==> WritesOf(queue[m..]) == [];
    hide RanOf, FirstMulti;
    if i, j :| 0 <= i < j < |queue| && queue[i].Multi? && queue[j].Write? {
      assert m <= i;
    }
  }

  lemma NoWritesFrom(queue: seq<Command>, m: nat)
    requires m <= |queue|
    ensures WritesOf(queue[m..]) == [] <==> forall j :: m <= j < |queue| ==> !queue[j].Write?
  {
    hide WritesOf;
    NoWritesIff(queue[m..]);
    forall j | m <= j < |queue| ensures queue[j] == queue[m..][j - m] {
    }
  }

  // Whole runs

  datatype Action =
    | Foreign(op: Op)               // a write of another client
    | Send(cmd: Command)
    | WatchKeys(keys: seq<Bytes>)
    | SendExec
    | SendDiscard

  function Step(c: Client, a: Action): Client
  {
    match a
    case Foreign(op) => c.(data := Applied(c.data, op))
    case Send(cmd) => Dispatch(c, cmd)
    case WatchKeys(keys) => if c.multi then c else c.(watched := Recorded(c.watched, c.data, keys))
    case SendExec => Exec(c).0
    case SendDiscard => if c.multi then Cleared(c) else c
  }

  /** A client with the history that its queue and its watched keys should follow: the writes to each
      recorded key since it was recorded, the commands of the open transaction, and whether a non-empty
      EXEC has succeeded since the queue was last cleared. `leftover` is what such EXECs left queued. */
  datatype State = State(client: Client, since: map<Bytes, nat>, intended: seq<Command>, stale: bool,
                         leftover: seq<Command>)

  function Start(data: map<Bytes, Cell>): State
  {
    State(Client(data, [], false, map[], false, 0), map[], [], false, [])
  }

  function After(s: State, a: Action): State
  {
    var c, c' := s.client, Step(s.client, a);
    match a
    case Foreign(op) => s.(client := c', since := SinceAfter(c.data, s.since, [op]))
    case Send(cmd) =>
      if c.multi then s.(client := c', intended := s.intended + [cmd])
      else (match cmd
            case Write(op) => s.(client := c', since := SinceAfter(c.data, s.since, [op]))
            case Multi => s.(client := c', intended := [])
            case Unwatch => State(c', map[], [], false, []))
    case WatchKeys(keys) =>
      s.(client := c', since := if c.multi then s.since else SinceWatch(c.data, c.watched, s.since, keys))
    case SendExec =>
      if !c.multi || c.queue == [] then s.(client := c')
      else if Changed(c.watched, c.data) then State(c', map[], [], false, [])
      else if ClearsItself(c.queue) then State(c', map[], PutBack(c.queue), false, [])
      else State(c', SinceAfter(c.data, s.since, RanOf(c.queue)), PutBack(c.queue), true, c.queue)
    case SendDiscard => if c.multi then State(c', map[], [], false, []) else s.(client := c')
  }

  function Run(s: State, actions: seq<Action>): State
  {
    if |actions| == 0 then s else After(Run(s, actions[..|actions| - 1]), actions[|actions| - 1])
  }

  ghost predicate Inv(s: State)
  {
    && Idle(s.client)
    && RecordOk(s.client.data, s.client.watched, s.since)
    && s.client.queue == (if s.client.multi then s.leftover + s.intended else s.leftover)
    && (s.stale <==> s.leftover != [])
    && (s.leftover != [] ==> !ClearsItself(s.leftover))
  }

  lemma AppliedOnce(data: map<Bytes, Cell>, op: Op)
    ensures AppliedAll(data, [op]) == Applied(data, op)
  {
    AppliedSnoc(data, [], op);
    assert [] + [op] == [op];
  }

  lemma ExecKeeps(s: State)
    requires Inv(s)
    ensures Inv(After(s, SendExec))
  {
    hide RecordOk, RanOf, AppliedAll, PutBack, ClearsItself, Exec, Changed, SinceAfter;
    var c := s.client;
    ExecOutcomes(c);
    if GoesThrough(c) {
      ExecDoes(c);
      NothingPutBack(c.queue);
      WritesKeepRecord(c.data, c.watched, s.since, RanOf(c.queue));
      NothingRecorded(AppliedAll(c.data, RanOf(c.queue)), c.watched, SinceAfter(c.data, s.since, RanOf(c.queue)));
    } else {
      NothingRecorded(c.data, c.watched, s.since);
    }
  }

  lemma ExecOutcomes(c: Client)
    ensures !c.multi ==> Exec(c).0 == c
    ensures c.multi && c.queue == [] ==> Exec(c).0 == c.(multi := false)
    ensures c.multi && c.queue != [] && Changed(c.watched, c.data) ==> Exec(c).0 == Cleared(c)
  {
  }

  /** Which answer EXEC gives, and that MULTI is over afterwards unless the queue has turned it on again. */
  lemma ExecAnswers(c: Client)
    requires Idle(c)
    ensures var (t, r) := Exec(c);
      && (r == WithoutMulti <==> !c.multi) && (r == EmptyArray <==> c.multi && c.queue == [])
      && (r == Aborted <==> c.multi && c.queue != [] && Changed(c.watched, c.data))
      && (t.multi <==> GoesThrough(c) && Multi in c.queue)
      && (!GoesThrough(c) ==> t.data == c.data)
  {
    hide Changed, DispatchAll;
    if GoesThrough(c) {
      ExecDoes(c);
    }
  }

  lemma NothingPutBack(queue: seq<Command>)
    ensures Multi !in queue ==> PutBack(queue) == []
  {
  }

  lemma NothingRecorded(data: map<Bytes, Cell>, watched: map<Bytes, nat>, since: map<Bytes, nat>)
    requires RecordOk(data, watched, since)
    ensures RecordOk(data, map[], map[])
  {
  }

  lemma StepKeeps(s: State, a: Action)
    requires Inv(s)
    ensures Inv(After(s, a))
  {
    hide RecordOk, ClearsItself, Applied, Recorded, SinceAfter, SinceWatch;
    var c := s.client;
    match a
    case Foreign(op) =>
      WritesKeepRecord(c.data, c.watched, s.since, [op]);
      AppliedOnce(c.data, op);
    case Send(cmd) =>
      if c.multi {
        assert s.leftover + s.intended + [cmd] == s.leftover + (s.intended + [cmd]);
      } else {
        match cmd
        case Write(op) =>
          WritesKeepRecord(c.data, c.watched, s.since, [op]);
          AppliedOnce(c.data, op);
        case Multi => assert s.leftover + [] == s.leftover;
        case Unwatch => NothingRecorded(c.data, c.watched, s.since);
      }
    case WatchKeys(keys) =>
      WatchKeepsRecord(c.data, c.watched, s.since, keys);
    case SendExec => ExecKeeps(s);
    case SendDiscard => NothingRecorded(c.data, c.watched, s.since);
  }

  lemma {:induction false} InvAlongRun(data: map<Bytes, Cell>, actions: seq<Action>)
    requires Versioned(data)
    ensures Inv(Run(Start(data), actions))
  {
    hide After;
    if |actions| > 0 {
      InvAlongRun(data, actions[..|actions| - 1]);
      StepKeeps(Run(Start(data), actions[..|actions| - 1]), actions[|actions| - 1]);
    }
  }

  /** Over every run: EXEC has before it exactly the commands sent since its MULTI if and only if no
      non-empty EXEC has succeeded since the queue was last cleared. */
  lemma QueueIsTransactionIff(data: map<Bytes, Cell>, actions: seq<Action>)
    requires Versioned(data)
    ensures var s := Run(Start(data), actions);
      s.client.multi ==> (s.client.queue == s.intended <==> !s.stale)
  {
    hide Run;
    InvAlongRun(data, actions);
    var s := Run(Start(data), actions);
    assert |s.leftover + s.intended| == |s.leftover| + |s.intended|;
    if s.leftover == [] {
      assert s.leftover + s.intended == s.intended;
    }
  }

  /** ... and, with no MULTI in the queue, the writes it runs are those sent since its MULTI under the
      same condition. */
  lemma ExecRunsTransactionIff(data: map<Bytes, Cell>, actions: seq<Action>)
    requires Versioned(data)
    ensures var s := Run(Start(data), actions);
      s.client.multi && Multi !in s.client.queue ==> (RanOf(s.client.queue) == WritesOf(s.intended) <==> !s.stale)
  {
    hide Run, WritesOf;
    InvAlongRun(data, actions);
    var s := Run(Start(data), actions);
    var q := s.client.queue;
    if s.client.multi && Multi !in q {
      assert q[..FirstMulti(q)] == q;
      WritesConcat(s.leftover, s.intended);
      if s.leftover == [] {
        assert s.leftover + s.intended == s.intended;
      } else {
        assert forall i :: 0 <= i < |s.leftover| ==> s.leftover[i] == q[i];
        assert s.leftover[..FirstMulti(s.leftover)] == s.leftover;
        assert s.leftover[0] in s.leftover && s.leftover[0].Write?;
        NoWritesIff(s.leftover);
        assert |WritesOf(q)| > |WritesOf(s.intended)|;
      }
    }
  }

  /** Over every run: the check reports a change exactly when some recorded key was written since it was
      recorded, by whomever, a number of times that is not a multiple of 2^64. */
  lemma CheckDetectsWrites(data: map<Bytes, Cell>, actions: seq<Action>)
    requires Versioned(data)
    ensures var s := Run(Start(data), actions);
      && s.client.watched.Keys == s.since.Keys
      && (Changed(s.client.watched, s.client.data) <==> exists k :: k in s.since && Wrapped(s.since[k]) != 0)
  {
    hide Run, Changed, Wrapped;
    InvAlongRun(data, actions);
    var s := Run(Start(data), actions);
    ChangedIffTouched(s.client.data, s.client.watched, s.since);
  }

  /** After a successful EXEC of plain writes, a transaction that adds nothing is aborted exactly when
      the client's own queue wrote a key it had watched; otherwise it runs the queue again. */
  lemma NextExecIff(data: map<Bytes, Cell>, actions: seq<Action>)
    requires Versioned(data)
    ensures var c := Run(Start(data), actions).client;
      GoesThrough(c) && OnlyWrites(c.queue) && |c.queue| < TWO_TO_64 ==>
        var again := Dispatch(Exec(c).0, Multi);
        Exec(again).1 ==
          if exists k :: k in c.watched && TouchCount(c.data, WritesOf(c.queue), k) > 0
            then Aborted else Replies(|c.queue|)
  {
    hide Run, Changed, WritesOf, TouchCount, AppliedAll, DispatchAll;
    InvAlongRun(data, actions);
    var s := Run(Start(data), actions);
    var c := s.client;
    if GoesThrough(c) && OnlyWrites(c.queue) && |c.queue| < TWO_TO_64 {
      PlainQueue(c.queue);
      ExecDoes(c);
      WritesSeenIff(c.data, c.watched, s.since, WritesOf(c.queue));
      var again := Dispatch(Exec(c).0, Multi);
      if GoesThrough(again) {
        ExecDoes(again);
      }
    }
  }

  predicate OnlyWrites(queue: seq<Command>)
  {
    forall i :: 0 <= i < |queue| ==> queue[i].Write?
  }

  lemma PlainQueue(queue: seq<Command>)
    requires OnlyWrites(queue)
    ensures RanOf(queue) == WritesOf(queue) && !ClearsItself(queue) && PutBack(queue) == [] && Multi !in queue
  {
    assert queue[..FirstMulti(queue)] == queue;
  }
}
