/** The master's side of replication, updated in place: what goes out to each replica and what is counted. */
module MasterNode {
  import opened Bytes
  import opened Resp
  import opened Replication

  /** What has been written to the replica's connection, and its last noted offset. */
  datatype ReplicaInfo = ReplicaInfo(sent: Bytes, offset: int)

  class MasterNode {
    var replicas: map<Bytes, ReplicaInfo>
    var globalOffset: nat

    constructor ()
      ensures replicas == map[] && globalOffset == 0
    {
      replicas, globalOffset := map[], 0;
    }

    /** The replicas of `m`, each with `data` written out behind what it had been sent. */
    ghost function AllSent(m: map<Bytes, ReplicaInfo>, data: Bytes): map<Bytes, ReplicaInfo>
    {
      map id | id in m :: m[id].(sent := m[id].sent + data)
    }

    /** What is sent later stands behind what was sent before, on every connection, and nothing else changes. */
    lemma SentInOrder(m: map<Bytes, ReplicaInfo>, a: Bytes, b: Bytes, id: Bytes)
      requires id in m
      ensures AllSent(AllSent(m, a), b) == AllSent(m, a + b) && AllSent(m, a).Keys == m.Keys
      ensures m[id].sent <= AllSent(m, a)[id].sent && AllSent(m, a)[id].sent[|m[id].sent|..] == a
      ensures AllSent(m, a)[id].offset == m[id].offset
    {
      forall k | k in m ensures AllSent(AllSent(m, a), b)[k] == AllSent(m, a + b)[k] {
        assert m[k].sent + a + b == m[k].sent + (a + b);
      }
    }

    method WriteToAll(data: Bytes)
      modifies `replicas
      ensures replicas == AllSent(old(replicas), data)
    {
      var remaining := replicas.Keys;
      while remaining != {}
        invariant remaining <= replicas.Keys == old(replicas).Keys
        invariant forall id :: id in replicas ==>
          replicas[id] == if id in remaining then old(replicas)[id] else AllSent(old(replicas), data)[id]
        decreases |remaining|
      {
        var id :| id in remaining;
        remaining := remaining - {id};
        replicas := replicas[id := replicas[id].(sent := replicas[id].sent + data)];
      }
    }

    /** Every replica is sent the command, and its bytes are counted once. */
    method PropagateToReplicas(cmd: Bytes, args: seq<Bytes>)
      modifies this
      ensures replicas == AllSent(old(replicas), Encode([cmd] + args))
      ensures globalOffset == old(globalOffset) + Size([cmd] + args)
    {
      var formatted := FormatPropagatedCommand(cmd, args);
      WriteToAll(formatted);
      globalOffset := globalOffset + |formatted|;
    }

    /** Every replica is asked for its offset, and nothing is counted. */
    method BroadcastGetAck()
      modifies `replicas
      ensures replicas == AllSent(old(replicas), Encode(GETACK_COMMAND))
    {
      var payload := Encode(GETACK_COMMAND);
      WriteToAll(payload);
    }

    method UpdateReplicaOffset(id: Bytes, offset: int)
      modifies `replicas
      ensures replicas == if id in old(replicas) then old(replicas)[id := old(replicas)[id].(offset := offset)]
        else old(replicas)
    {
      if id in replicas {
        replicas := replicas[id := replicas[id].(offset := offset)];
      }
    }

    method CountSyncedReplicas(targetOffset: int) returns (count: nat)
      ensures count == |set id | id in replicas && replicas[id].offset >= targetOffset|
    {
      var remaining := replicas.Keys;
      ghost var counted: set<Bytes> := {};
      count := 0;
      while remaining != {}
        invariant remaining <= replicas.Keys && |counted| == count
        invariant counted == set id | id in replicas && id !in remaining && replicas[id].offset >= targetOffset
        decreases |remaining|
      {
        var id :| id in remaining;
        remaining := remaining - {id};
        if replicas[id].offset >= targetOffset {
          count := count + 1;
          counted := counted + {id};
        }
      }
      assert counted == set id | id in replicas && replicas[id].offset >= targetOffset;
    }
  }
}
