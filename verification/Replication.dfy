/** Replication offsets: what the master counts as sent, what a replica counts as consumed, and what an
    acknowledgement says. Sending, consuming and acknowledging are interleaved steps. */
module Replication {
  import opened Bytes
  import opened Decimal
  import opened Resp
  import opened Database

  const REPLCONF: Bytes := [82, 69, 80, 76, 67, 79, 78, 70]
  const GETACK: Bytes := [71, 69, 84, 65, 67, 75]
  const GETACK_COMMAND: seq<Bytes> := [REPLCONF, GETACK, [STAR]]
  const GETACK_SIZE: nat := 37

  function Size(cmd: seq<Bytes>): nat
  {
    |Encode(cmd)|
  }

  lemma BulkSize(a: Bytes)
    requires |a| < 10
    ensures |Bulk(a)| == |a| + 6
  {
    assert |Itoa(|a|)| == 1;
  }

  /** A GETACK request takes 37 bytes on the wire. */
  lemma GetAckSize()
    ensures Size(GETACK_COMMAND) == GETACK_SIZE
  {
    BulksSnoc([], REPLCONF);
    BulksSnoc([REPLCONF], GETACK);
    BulksSnoc([REPLCONF, GETACK], [STAR]);
    assert [] + [REPLCONF] == [REPLCONF];
    assert [REPLCONF] + [GETACK] == [REPLCONF, GETACK] && [REPLCONF, GETACK] + [[STAR]] == GETACK_COMMAND;
    BulkSize(REPLCONF);
    BulkSize(GETACK);
    BulkSize([STAR]);
    assert |Itoa(3)| == 1;
  }

  lemma EncodeThree(a: Bytes, b: Bytes, c: Bytes)
    ensures Encode([a, b, c]) == ArrayHead(3) + Bulk(a) + Bulk(b) + Bulk(c)
  {
    hide Bulk;
    BulksSnoc([], a);
    BulksSnoc([a], b);
    BulksSnoc([a, b], c);
    assert [] + [a] == [a] && [a] + [b] == [a, b] && [a, b] + [c] == [a, b, c];
    assert ArrayHead(3) + (Bulk(a) + Bulk(b) + Bulk(c)) == ArrayHead(3) + Bulk(a) + Bulk(b) + Bulk(c);
  }

  /** ... and reads letter by letter. */
  lemma GetAckBytes()
    ensures Encode(GETACK_COMMAND) == Ascii("*3\r\n$8\r\nREPLCONF\r\n$6\r\nGETACK\r\n$1\r\n*\r\n")
  {
    hide Encode, ArrayHead, Bulk, Ascii;
    EncodeThree(REPLCONF, GETACK, [STAR]);
    GetAckParts();
    GetAckText();
  }

  lemma GetAckParts()
    ensures ArrayHead(3) == Ascii("*3\r\n") && Bulk(REPLCONF) == Ascii("$8\r\nREPLCONF\r\n")
    ensures Bulk(GETACK) == Ascii("$6\r\nGETACK\r\n") && Bulk([STAR]) == Ascii("$1\r\n*\r\n")
  {
    assert Itoa(8) == [56] && Itoa(6) == [54] && Itoa(1) == [49] && Itoa(3) == [51];
  }

  lemma GetAckText()
    ensures Ascii("*3\r\n$8\r\nREPLCONF\r\n$6\r\nGETACK\r\n$1\r\n*\r\n") ==
      Ascii("*3\r\n") + Ascii("$8\r\nREPLCONF\r\n") + Ascii("$6\r\nGETACK\r\n") + Ascii("$1\r\n*\r\n")
  {
    hide Ascii;
    var all := "*3\r\n" + "$8\r\nREPLCONF\r\n" + "$6\r\nGETACK\r\n" + "$1\r\n*\r\n";
    assert all == "*3\r\n$8\r\nREPLCONF\r\n$6\r\nGETACK\r\n$1\r\n*\r\n";
    AsciiAppend("*3\r\n", "$8\r\nREPLCONF\r\n");
    AsciiAppend("*3\r\n" + "$8\r\nREPLCONF\r\n", "$6\r\nGETACK\r\n");
    AsciiAppend("*3\r\n" + "$8\r\nREPLCONF\r\n" + "$6\r\nGETACK\r\n", "$1\r\n*\r\n");
  }

  /** An acknowledgement on its way back, with what the replica had consumed when it sent it. */
  datatype Ack = Ack(offset: nat, writes: nat, getAcks: nat, others: nat)

  /** One replica: the commands in flight to it, the offset it keeps (`MasterReplOffset`), its
      acknowledgements in flight, and the last one the master has noted. `joinedAt` is the master's
      offset at its PSYNC; `writes`, `getAcks` and `others` count what it has consumed: bytes of writes,
      GETACK requests, and bytes of commands from clients of its own. `asks` holds, for each GETACK request
      the master has sent it, the bytes of writes it had been sent before. */
  datatype Replica = Replica(link: seq<seq<Bytes>>, offset: nat, acks: seq<Ack>, noted: Ack,
                             joinedAt: nat, writes: nat, getAcks: nat, others: nat, asks: seq<nat>)

  datatype Sys = Sys(globalOffset: nat, replicas: map<Bytes, Replica>)

  const INIT := Sys(0, map[])

  const NO_ACK := Ack(0, 0, 0, 0)

  datatype Step =
    | Join(id: Bytes)
    | Write(cmd: seq<Bytes>)            // propagated to every replica
    | SendGetAck(id: Bytes)             // part of a WAIT's broadcast, skipped before the first write; not counted
    | Consume(id: Bytes)                // the replica takes the next command off the link
    | OwnClient(id: Bytes, bytes: nat)  // a command from a client of the replica
    | NoteAck(id: Bytes)                // the master receives the next acknowledgement

  /** A command that is propagated and that the master survives in some store: those that lack arguments
      are propagated too, but end it, except for a bare INCR or BLPOP. */
  predicate IsWrite(cmd: seq<Bytes>)
  {
    && |cmd| > 0
    && (cmd[0] == BLPOP || (IsLogged(cmd[0]) && Run(EMPTY, cmd[0], cmd[1..], 0).Ran?))
  }

  predicate Enabled(s: Sys, step: Step)
  {
    match step
    case Join(id) => id !in s.replicas
    case Write(cmd) => IsWrite(cmd)
    case SendGetAck(id) => id in s.replicas && s.globalOffset > 0
    case Consume(id) => id in s.replicas && s.replicas[id].link != []
    case OwnClient(id, _) => id in s.replicas
    case NoteAck(id) => id in s.replicas && s.replicas[id].acks != []
  }

  /** The replica handles a command first and counts its bytes afterwards: an acknowledgement does not
      count the request it answers. */
  function Consumed(r: Replica): Replica
    requires r.link != []
  {
    var cmd := r.link[0];
    var answered :=
      if cmd == GETACK_COMMAND
      then r.(acks := r.acks + [Ack(r.offset, r.writes, r.getAcks, r.others)], getAcks := r.getAcks + 1)
      else r.(writes := r.writes + Size(cmd));
    answered.(link := r.link[1..], offset := r.offset + Size(cmd))
  }

  function After(s: Sys, step: Step): Sys
    requires Enabled(s, step)
  {
    match step
    case Join(id) => s.(replicas := s.replicas[id := Replica([], 0, [], NO_ACK, s.globalOffset, 0, 0, 0, [])])
    case Write(cmd) =>
      Sys(s.globalOffset + Size(cmd), map id | id in s.replicas :: s.replicas[id].(link := s.replicas[id].link + [cmd]))
    case SendGetAck(id) =>
      var r := s.replicas[id];
      var sent := if r.joinedAt <= s.globalOffset then s.globalOffset - r.joinedAt else 0;
      s.(replicas := s.replicas[id := r.(link := r.link + [GETACK_COMMAND], asks := r.asks + [sent])])
    case Consume(id) => s.(replicas := s.replicas[id := Consumed(s.replicas[id])])
    case OwnClient(id, n) =>
      var r := s.replicas[id];
      s.(replicas := s.replicas[id := r.(offset := r.offset + n, others := r.others + n)])
    case NoteAck(id) =>
      var r := s.replicas[id];
      s.(replicas := s.replicas[id := r.(noted := r.acks[0], acks := r.acks[1..])])
  }

  predicate Runs(s: Sys, steps: seq<Step>)
    decreases |steps|
  {
    |steps| == 0 || (Enabled(s, steps[0]) && Runs(After(s, steps[0]), steps[1..]))
  }

  function Final(s: Sys, steps: seq<Step>): Sys
    requires Runs(s, steps)
    decreases |steps|
  {
    if |steps| == 0 then s else Final(After(s, steps[0]), steps[1..])
  }

  /** The bytes of the writes among commands in flight. */
  function WriteBytes(link: seq<seq<Bytes>>): nat
  {
    if |link| == 0 then 0 else (if link[0] == GETACK_COMMAND then 0 else Size(link[0])) + WriteBytes(link[1..])
  }

  lemma {:induction false} WriteBytesSnoc(link: seq<seq<Bytes>>, cmd: seq<Bytes>)
    ensures WriteBytes(link + [cmd]) == WriteBytes(link) + if cmd == GETACK_COMMAND then 0 else Size(cmd)
  {
    if |link| == 0 {
      assert link + [cmd] == [cmd] && [cmd][1..] == [];
      assert WriteBytes([cmd][1..]) == 0;
    } else {
      assert (link + [cmd])[1..] == link[1..] + [cmd];
      WriteBytesSnoc(link[1..], cmd);
    }
  }

  /** The acknowledgement counts exactly what was consumed before it: write bytes, 37 for each earlier
      GETACK, and the replica's own clients. */
  predicate AckOk(a: Ack, r: Replica)
  {
    a.offset == a.writes + GETACK_SIZE * a.getAcks + a.others && a.writes <= r.writes && a.getAcks <= r.getAcks &&
      a.others <= r.others
  }

  ghost predicate ReplicaOk(r: Replica, globalOffset: nat)
  {
    && r.offset == r.writes + GETACK_SIZE * r.getAcks + r.others
    && r.joinedAt + r.writes + WriteBytes(r.link) == globalOffset
    && AckOk(r.noted, r)
    && forall i :: 0 <= i < |r.acks| ==> AckOk(r.acks[i], r)
  }

  ghost predicate Inv(s: Sys)
  {
    forall id :: id in s.replicas ==> ReplicaOk(s.replicas[id], s.globalOffset)
  }

  lemma ConsumedOk(r: Replica, globalOffset: nat)
    requires ReplicaOk(r, globalOffset) && r.link != []
    ensures ReplicaOk(Consumed(r), globalOffset)
  {
    GetAckSize();
    hide Size;
  }

  lemma StepKeeps(s: Sys, step: Step)
    requires Inv(s) && Enabled(s, step)
    ensures Inv(After(s, step))
  {
    hide Size;
    match step
    case Join(_) =>
    case Write(cmd) =>
      forall id | id in s.replicas ensures ReplicaOk(After(s, step).replicas[id], After(s, step).globalOffset) {
        WriteBytesSnoc(s.replicas[id].link, cmd);
      }
    case SendGetAck(id) => WriteBytesSnoc(s.replicas[id].link, GETACK_COMMAND);
    case Consume(id) => ConsumedOk(s.replicas[id], s.globalOffset);
    case OwnClient(_, _) =>
    case NoteAck(_) =>
  }

  lemma {:induction false} InvAlongRun(s: Sys, steps: seq<Step>)
    requires Inv(s) && Runs(s, steps)
    ensures Inv(Final(s, steps))
    decreases |steps|
  {
    if |steps| > 0 {
      StepKeeps(s, steps[0]);
      InvAlongRun(After(s, steps[0]), steps[1..]);
    }
  }

  /** WAIT counts the replica for a target. */
  predicate Counted(r: Replica, target: nat)
  {
    r.noted.offset >= target
  }

  /** The noted acknowledgement, less 37 bytes for each earlier GETACK and less the replica's own
      clients, is the bytes of writes the replica had consumed. When that reaches a target, only writes
      behind the target are still in flight. */
  lemma AckMeansConsumed(steps: seq<Step>, id: Bytes, target: nat)
    requires Runs(INIT, steps) && id in Final(INIT, steps).replicas
    requires target <= Final(INIT, steps).globalOffset
    ensures var s := Final(INIT, steps); var r := s.replicas[id];
      && r.noted.offset - GETACK_SIZE * r.noted.getAcks - r.noted.others == r.noted.writes <= r.writes
      && r.joinedAt + r.writes + WriteBytes(r.link) == s.globalOffset
      && (r.noted.writes >= target ==> WriteBytes(r.link) <= s.globalOffset - target)
  {
    assert Inv(INIT);
    InvAlongRun(INIT, steps);
    assert ReplicaOk(Final(INIT, steps).replicas[id], Final(INIT, steps).globalOffset);
  }

  lemma RunsCons(s: Sys, step: Step, rest: seq<Step>)
    requires Enabled(s, step) && Runs(After(s, step), rest)
    ensures Runs(s, [step] + rest) && Final(s, [step] + rest) == Final(After(s, step), rest)
  {
    assert ([step] + rest)[1..] == rest;
  }

  lemma EncodeNotEmpty(cmd: seq<Bytes>)
    ensures Size(cmd) > 0
  {
  }

  lemma {:induction false} RunsConcat(s: Sys, a: seq<Step>, b: seq<Step>)
    requires Runs(s, a) && Runs(Final(s, a), b)
    ensures Runs(s, a + b) && Final(s, a + b) == Final(Final(s, a), b)
    decreases |a|
  {
    if |a| == 0 {
      assert a + b == b;
    } else {
      assert (a + b)[0] == a[0] && (a + b)[1..] == a[1..] + b;
      RunsConcat(After(s, a[0]), a[1..], b);
    }
  }

  /** One replica, one write and two GETACK requests behind it. */
  function TwoWaits(id: Bytes, first: seq<Bytes>): Sys
  {
    var n := Size(first);
    Sys(n, map[id := Replica([first, GETACK_COMMAND, GETACK_COMMAND], 0, [], NO_ACK, 0, 0, 0, 0, [n, n])])
  }

  lemma ReachTwoWaits(id: Bytes, first: seq<Bytes>) returns (steps: seq<Step>)
    requires IsWrite(first)
    ensures Runs(INIT, steps) && Final(INIT, steps) == TwoWaits(id, first)
  {
    EncodeNotEmpty(first);
    hide Size;
    var s1 := After(INIT, Join(id));
    var s2 := After(s1, Write(first));
    var s3 := After(s2, SendGetAck(id));
    var s4 := After(s3, SendGetAck(id));
    assert s4.replicas[id].link == [first, GETACK_COMMAND, GETACK_COMMAND] && s4.replicas.Keys == {id};
    assert s4.replicas[id].asks == [Size(first), Size(first)];
    assert s4.replicas == TwoWaits(id, first).replicas;
    var t2 := [SendGetAck(id)] + [];
    var t1 := [SendGetAck(id)] + t2;
    var t0 := [Write(first)] + t1;
    RunsCons(s3, SendGetAck(id), []);
    RunsCons(s2, SendGetAck(id), t2);
    RunsCons(s1, Write(first), t1);
    RunsCons(INIT, Join(id), t0);
    steps := [Join(id)] + t0;
  }

  /** The same replica with everything consumed and both acknowledgements noted. */
  function BothNoted(id: Bytes, first: seq<Bytes>): Sys
  {
    var n := Size(first);
    Sys(n, map[id := Replica([], n + 74, [], Ack(n + 37, n, 1, 0), 0, n, 2, 0, [n, n])])
  }

  lemma ReachBothNoted(id: Bytes, first: seq<Bytes>) returns (steps: seq<Step>)
    requires IsWrite(first)
    ensures Runs(TwoWaits(id, first), steps) && Final(TwoWaits(id, first), steps) == BothNoted(id, first)
  {
    GetAckSize();
    hide Size;
    var n := Size(first);
    var s0 := TwoWaits(id, first);
    var s1 := After(s0, Consume(id));
    var s2 := After(s1, Consume(id));
    var s3 := After(s2, Consume(id));
    assert s3.replicas[id].link == [] && s3.replicas[id].acks == [Ack(n, n, 0, 0), Ack(n + 37, n, 1, 0)];
    var s4 := After(s3, NoteAck(id));
    var s5 := After(s4, NoteAck(id));
    assert s5.replicas[id].acks == [] && s5.replicas.Keys == {id};
    assert s5.replicas == BothNoted(id, first).replicas;
    var t3 := [NoteAck(id)] + [];
    var t2 := [NoteAck(id)] + t3;
    var t1 := [Consume(id)] + t2;
    var t0 := [Consume(id)] + t1;
    RunsCons(s4, NoteAck(id), []);
    RunsCons(s3, NoteAck(id), t3);
    RunsCons(s2, Consume(id), t2);
    RunsCons(s1, Consume(id), t1);
    RunsCons(s0, Consume(id), t0);
    steps := [Consume(id)] + t0;
  }

  /** A write, two WAITs, then a short write: the replica counts as having it while it is still in flight. */
  lemma ShortWriteCountedInFlight(id: Bytes, first: seq<Bytes>, cmd: seq<Bytes>) returns (steps: seq<Step>)
    requires IsWrite(first) && IsWrite(cmd) && Size(cmd) <= GETACK_SIZE
    ensures Runs(INIT, steps)
    ensures var s := Final(INIT, steps);
      id in s.replicas && Counted(s.replicas[id], s.globalOffset) && s.replicas[id].link == [cmd] &&
        s.replicas[id].joinedAt == 0
  {
    hide Size;
    var a := ReachTwoWaits(id, first);
    var b := ReachBothNoted(id, first);
    RunsConcat(INIT, a, b);
    var s := BothNoted(id, first);
    RunsCons(s, Write(cmd), []);
    RunsConcat(INIT, a + b, [Write(cmd)] + []);
    steps := a + b + ([Write(cmd)] + []);
  }
}
