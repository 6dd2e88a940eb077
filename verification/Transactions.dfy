/** Optimistic transactions: versions of string keys, WATCH, and the check EXEC makes. Nothing expires. */
module Transactions {
  import opened Bytes
  import opened Database

  /** A write to a string key. */
  datatype Op = SetOp(key: Bytes, value: Bytes) | IncrOp(key: Bytes)

  function Applied(data: map<Bytes, Cell>, op: Op): map<Bytes, Cell>
  {
    match op
    case SetOp(key, value) => SetString(data, key, value)
    case IncrOp(key) =>
      match IncrString(data, key)
      case NotCounted => data
      case Counted(after) => after
  }

  function AppliedAll(data: map<Bytes, Cell>, ops: seq<Op>): map<Bytes, Cell>
  {
    if |ops| == 0 then data else Applied(AppliedAll(data, ops[..|ops| - 1]), ops[|ops| - 1])
  }

  /** The write succeeds and is to this key. */
  predicate Touches(data: map<Bytes, Cell>, op: Op, key: Bytes)
  {
    op.key == key && (op.IncrOp? ==> IncrString(data, key).Counted?)
  }

  /** A key's version, 0 when the key is missing. */
  function VersionOf(data: map<Bytes, Cell>, key: Bytes): nat
  {
    if key in data then data[key].version else 0
  }

  /** Records the keys' versions up to and including the first missing key. */
  function Recorded(watched: map<Bytes, nat>, data: map<Bytes, Cell>, keys: seq<Bytes>): map<Bytes, nat>
    decreases |keys|
  {
    if |keys| == 0 then watched
    else
      var next := watched[keys[0] := VersionOf(data, keys[0])];
      if keys[0] !in data then next else Recorded(next, data, keys[1..])
  }

  predicate Changed(watched: map<Bytes, nat>, data: map<Bytes, Cell>)
  {
    exists k :: k in watched && k in data && data[k].version != watched[k]
  }

  // What writes do to versions

  /** Counting in unsigned 64 bits. */
  function Wrapped(n: nat): (w: nat)
    ensures w < TWO_TO_64
  {
    n % TWO_TO_64
  }

  ghost predicate Versioned(data: map<Bytes, Cell>)
  {
    forall k :: k in data ==> data[k].version < TWO_TO_64
  }

  /** How many of the writes touch the key. */
  function TouchCount(data: map<Bytes, Cell>, ops: seq<Op>, key: Bytes): (n: nat)
    ensures n <= |ops|
  {
    if |ops| == 0 then 0
    else
      var before := ops[..|ops| - 1];
      TouchCount(data, before, key) + if Touches(AppliedAll(data, before), ops[|ops| - 1], key) then 1 else 0
  }

  lemma WrappedSum(n: nat, more: nat)
    ensures Wrapped(Wrapped(n) + more) == Wrapped(n + more) && Wrapped(n) == n % 0x1_0000_0000_0000_0000
  {
  }

  lemma WriteVersion(data: map<Bytes, Cell>, op: Op, k: Bytes)
    requires Versioned(data)
    ensures Versioned(Applied(data, op))
    ensures VersionOf(Applied(data, op), k) ==
      if Touches(data, op, k) then Bump(VersionOf(data, k)) else VersionOf(data, k)
    ensures k in Applied(data, op) <==> k in data || Touches(data, op, k)
  {
  }

  /** A key's version counts the writes that touched it, modulo 2^64. */
  lemma {:induction false} VersionsCount(data: map<Bytes, Cell>, ops: seq<Op>, k: Bytes)
    requires Versioned(data)
    ensures Versioned(AppliedAll(data, ops))
    ensures VersionOf(AppliedAll(data, ops), k) == Wrapped(VersionOf(data, k) + TouchCount(data, ops, k))
    ensures k in AppliedAll(data, ops) <==> k in data || TouchCount(data, ops, k) > 0
  {
    hide Applied, Touches, Wrapped, Versioned;
    SmallVersion(data, k);
    if |ops| > 0 {
      var before := ops[..|ops| - 1];
      VersionsCount(data, before, k);
      WriteVersion(AppliedAll(data, before), ops[|ops| - 1], k);
      BumpIsOneMore(VersionOf(data, k) + TouchCount(data, before, k));
    }
  }

  lemma SmallVersion(data: map<Bytes, Cell>, k: Bytes)
    requires Versioned(data)
    ensures VersionOf(data, k) < TWO_TO_64
    ensures Wrapped(VersionOf(data, k)) == VersionOf(data, k)
  {
  }

  lemma BumpIsOneMore(n: nat)
    ensures Bump(Wrapped(n)) == Wrapped(n + 1)
  {
  }

  lemma {:induction false} AppliedConcat(data: map<Bytes, Cell>, a: seq<Op>, b: seq<Op>)
    ensures AppliedAll(data, a + b) == AppliedAll(AppliedAll(data, a), b)
    decreases |b|
  {
    if |b| == 0 {
      assert a + b == a;
    } else {
      assert (a + b)[..|a + b| - 1] == a + b[..|b| - 1];
      AppliedConcat(data, a, b[..|b| - 1]);
    }
  }

  // What was recorded and what was written since

  /** Each recorded version, with the writes to its key since, gives the present one. */
  ghost predicate RecordOk(data: map<Bytes, Cell>, watched: map<Bytes, nat>, since: map<Bytes, nat>)
  {
    && Versioned(data) && watched.Keys == since.Keys
    && forall k :: k in watched ==>
         && VersionOf(data, k) == Wrapped(watched[k] + since[k])
         && watched[k] < TWO_TO_64
         && (k !in data ==> since[k] == 0)
  }

  /** The writes since, after some more. */
  function SinceAfter(data: map<Bytes, Cell>, since: map<Bytes, nat>, ops: seq<Op>): map<Bytes, nat>
  {
    map k | k in since :: since[k] + TouchCount(data, ops, k)
  }

  /** The writes since, after a WATCH. */
  function SinceWatch(data: map<Bytes, Cell>, watched: map<Bytes, nat>, since: map<Bytes, nat>,
                      keys: seq<Bytes>): map<Bytes, nat>
  {
    var anew := Recorded(map[], data, keys);
    map k | k in Recorded(watched, data, keys).Keys :: if k in anew || k !in since then 0 else since[k]
  }

  lemma {:induction false} RecordedIs(watched: map<Bytes, nat>, data: map<Bytes, Cell>, keys: seq<Bytes>)
    ensures var r, anew := Recorded(watched, data, keys), Recorded(map[], data, keys);
      && r.Keys == watched.Keys + anew.Keys
      && (forall k :: k in anew ==> k in keys && anew[k] == VersionOf(data, k) && r[k] == anew[k])
      && (forall k :: k in watched && k !in anew ==> r[k] == watched[k])
    decreases |keys|
  {
    if |keys| > 0 && keys[0] in data {
      var v := VersionOf(data, keys[0]);
      RecordedIs(watched[keys[0] := v], data, keys[1..]);
      RecordedIs(map[keys[0] := v], data, keys[1..]);
    }
  }

  lemma WritesKeepRecord(data: map<Bytes, Cell>, watched: map<Bytes, nat>, since: map<Bytes, nat>, ops: seq<Op>)
    requires RecordOk(data, watched, since)
    ensures RecordOk(AppliedAll(data, ops), watched, SinceAfter(data, since, ops))
  {
    hide Wrapped, AppliedAll, TouchCount, Versioned;
    VersionsCount(data, ops, []);
    forall k | k in watched
      ensures VersionOf(AppliedAll(data, ops), k) == Wrapped(watched[k] + (since[k] + TouchCount(data, ops, k)))
      ensures k !in AppliedAll(data, ops) ==> since[k] + TouchCount(data, ops, k) == 0
    {
      VersionsCount(data, ops, k);
      WrappedSum(watched[k] + since[k], TouchCount(data, ops, k));
    }
  }

  lemma WatchKeepsRecord(data: map<Bytes, Cell>, watched: map<Bytes, nat>, since: map<Bytes, nat>, keys: seq<Bytes>)
    requires RecordOk(data, watched, since)
    ensures RecordOk(data, Recorded(watched, data, keys), SinceWatch(data, watched, since, keys))
  {
    hide Wrapped, Recorded, Versioned;
    RecordedIs(watched, data, keys);
    forall k | k in Recorded(watched, data, keys)
      ensures var w, n := Recorded(watched, data, keys)[k], SinceWatch(data, watched, since, keys)[k];
        VersionOf(data, k) == Wrapped(w + n) && w < TWO_TO_64 && (k !in data ==> n == 0)
    {
      SmallVersion(data, k);
    }
  }

  lemma SameModulo(v: nat, n: nat)
    requires v < TWO_TO_64
    ensures Wrapped(v + n) == v <==> Wrapped(n) == 0
    ensures n < TWO_TO_64 ==> Wrapped(n) == n
  {
  }

  /** The check reports a change exactly when some recorded key was touched since it was recorded, a
      number of times that is not a multiple of 2^64. */
  lemma ChangedIffTouched(data: map<Bytes, Cell>, watched: map<Bytes, nat>, since: map<Bytes, nat>)
    requires RecordOk(data, watched, since)
    ensures Changed(watched, data) <==> exists k :: k in since && Wrapped(since[k]) != 0
  {
    hide Wrapped;
    forall k | k in watched
      ensures k in data && data[k].version != watched[k] <==> Wrapped(since[k]) != 0
    {
      SameModulo(watched[k], since[k]);
      SameModulo(watched[k], 0);
    }
    if Changed(watched, data) {
      var k :| k in watched && k in data && data[k].version != watched[k];
      assert k in since;
    }
    if exists k :: k in since && Wrapped(since[k]) != 0 {
      var k :| k in since && Wrapped(since[k]) != 0;
      assert k in watched;
    }
  }

  /** Nothing recorded has changed, some writes follow: the check sees them exactly when one of them
      touches a recorded key. */
  lemma WritesSeenIff(data: map<Bytes, Cell>, watched: map<Bytes, nat>, since: map<Bytes, nat>, ops: seq<Op>)
    requires RecordOk(data, watched, since) && !Changed(watched, data) && |ops| < TWO_TO_64
    ensures Changed(watched, AppliedAll(data, ops)) <==> exists k :: k in watched && TouchCount(data, ops, k) > 0
  {
    hide Wrapped, AppliedAll, TouchCount, Changed;
    ChangedIffTouched(data, watched, since);
    WritesKeepRecord(data, watched, since, ops);
    ChangedIffTouched(AppliedAll(data, ops), watched, SinceAfter(data, since, ops));
    forall k | k in watched
      ensures Wrapped(SinceAfter(data, since, ops)[k]) != 0 <==> TouchCount(data, ops, k) > 0
    {
      assert k in since && Wrapped(since[k]) == 0;
      WrappedSum(since[k], TouchCount(data, ops, k));
      SameModulo(0, TouchCount(data, ops, k));
    }
    if exists k :: k in SinceAfter(data, since, ops) && Wrapped(SinceAfter(data, since, ops)[k]) != 0 {
      var k :| k in SinceAfter(data, since, ops) && Wrapped(SinceAfter(data, since, ops)[k]) != 0;
      assert k in watched && TouchCount(data, ops, k) > 0;
    }
    if exists k :: k in watched && TouchCount(data, ops, k) > 0 {
      var k :| k in watched && TouchCount(data, ops, k) > 0;
      assert k in SinceAfter(data, since, ops);
    }
  }

  // Which keys a WATCH covers

  /** The keys up to the first that is missing, this one included. */
  function Prefix(data: map<Bytes, Cell>, keys: seq<Bytes>): (r: seq<Bytes>)
    ensures r <= keys
  {
    if |keys| == 0 then [] else if keys[0] !in data then [keys[0]] else [keys[0]] + Prefix(data, keys[1..])
  }

  lemma {:induction false} RecordedKeys(watched: map<Bytes, nat>, data: map<Bytes, Cell>, keys: seq<Bytes>)
    ensures forall k :: k in Recorded(watched, data, keys) <==> k in watched || k in Prefix(data, keys)
    decreases |keys|
  {
    if |keys| > 0 && keys[0] in data {
      RecordedKeys(watched[keys[0] := VersionOf(data, keys[0])], data, keys[1..]);
    }
  }

  /** No key comes for the first time after a missing one. */
  predicate NoneAfterMissing(data: map<Bytes, Cell>, keys: seq<Bytes>)
  {
    forall k :: k in keys ==> k in Prefix(data, keys)
  }

  /** The keys are watched, then the writes happen: does the check see them? */
  predicate SeenAfterWatch(data: map<Bytes, Cell>, keys: seq<Bytes>, ops: seq<Op>)
  {
    Changed(Recorded(map[], data, keys), AppliedAll(data, ops))
  }

  lemma SeenIffRecordedTouched(data: map<Bytes, Cell>, keys: seq<Bytes>, ops: seq<Op>)
    requires Versioned(data) && |ops| < TWO_TO_64
    ensures SeenAfterWatch(data, keys, ops) <==>
      exists k :: k in Recorded(map[], data, keys) && TouchCount(data, ops, k) > 0
  {
    hide Recorded, AppliedAll, TouchCount, Versioned;
    var watched, since := Recorded(map[], data, keys), SinceWatch(data, map[], map[], keys);
    WatchKeepsRecord(data, map[], map[], keys);
    ChangedIffTouched(data, watched, since);
    WritesSeenIff(data, watched, since, ops);
  }

  /** Every write to a watched key makes EXEC abort, and nothing else does, exactly when no
      watched key follows a missing one: recording stops at the first missing key. */
  lemma WatchExactIffNoneAfterMissing(data: map<Bytes, Cell>, keys: seq<Bytes>)
    requires Versioned(data)
    ensures NoneAfterMissing(data, keys) <==>
      forall ops: seq<Op> :: |ops| < TWO_TO_64 ==>
        (SeenAfterWatch(data, keys, ops) <==> exists k :: k in keys && TouchCount(data, ops, k) > 0)
  {
    RecordedKeys(map[], data, keys);
    if NoneAfterMissing(data, keys) {
      forall ops: seq<Op> | |ops| < TWO_TO_64
        ensures SeenAfterWatch(data, keys, ops) <==> exists k :: k in keys && TouchCount(data, ops, k) > 0
      {
        SeenIffRecordedTouched(data, keys, ops);
      }
    } else {
      var k :| k in keys && k !in Prefix(data, keys);
      var ops := [SetOp(k, [])];
      assert ops[..0] == [];
      assert TouchCount(data, ops, k) == 1;
      SeenIffRecordedTouched(data, keys, ops);
      forall j | j in Recorded(map[], data, keys) ensures TouchCount(data, ops, j) == 0 {
        assert j != k;
      }
      assert |ops| < TWO_TO_64;
      assert !SeenAfterWatch(data, keys, ops);
    }
  }
}
