/** The sorted-set commands over one stored skip list. */
module SortedSets {
  import opened Bytes
  import opened SkipListOrder
  import opened SkipChain
  import opened SkipList

  /** A negative index counts from the end, but never before the first element. */
  function Resolve(i: int, n: nat): nat
  {
    if i < 0 then (if n + i > 0 then n + i else 0) else i
  }

  function Members(ks: seq<Key>): (ms: seq<Bytes>)
    ensures |ms| == |ks|
    ensures forall i :: 0 <= i < |ks| ==> ms[i] == ks[i].member
  {
    seq(|ks|, i requires 0 <= i < |ks| => ks[i].member)
  }

  /** What ZRANGE promises: the members from one resolved index to another, both included. */
  function PromisedRange(ks: seq<Key>, start: int, end: int): seq<Bytes>
  {
    var n := |ks|;
    var s, e := Resolve(start, n), Resolve(end, n);
    if s > e || s >= n then [] else Members(ks[s..if e < n then e + 1 else n])
  }

  /** What ZRANGE makes of a stored length: the positional lookup refuses that length's last index, takes
      the last element for any index beyond it, and finds the nameless head when there is no element. */
  function StoredRange(ks: seq<Key>, length: nat, start: int, end: int): seq<Bytes>
  {
    var s, e := Resolve(start, length), Resolve(end, length);
    if s > e || s + 1 >= length then []
    else if |ks| == 0 then [[]]
    else
      var from := if s < |ks| then s else |ks| - 1;
      var count := (if e > length then length - 1 else e) - s + 1;
      Members(ks[from..if count < |ks| - from then from + count else |ks|])
  }

  /** The sequence holds exactly the entries of the map. */
  ghost predicate Represents(ks: seq<Key>, m: map<Bytes, real>)
  {
    && (forall i :: 0 <= i < |ks| ==> ks[i].member in m && m[ks[i].member] == ks[i].score)
    && (forall x :: x in m ==> Key(m[x], x) in ks)
  }

  lemma RepresentsInsert(ks: seq<Key>, m: map<Bytes, real>, k: Key)
    requires Represents(ks, m) && k.member !in m
    ensures Represents(InsertKey(ks, k), m[k.member := k.score])
  {
    hide Position;
    PutIn(ks, Position(ks, k), k, InsertKey(ks, k));
    var r, m' := InsertKey(ks, k), m[k.member := k.score];
    forall i | 0 <= i < |r| ensures r[i].member in m' && m'[r[i].member] == r[i].score {
      if r[i] != k {
        var j :| 0 <= j < |ks| && ks[j] == r[i];
      }
    }
  }

  lemma PutIn(ks: seq<Key>, p: nat, k: Key, r: seq<Key>)
    requires p <= |ks| && r == ks[..p] + [k] + ks[p..]
    ensures forall x :: x in r <==> x in ks || x == k
  {
    assert r[p] == k;
    forall x | x in ks ensures x in r {
      var i :| 0 <= i < |ks| && ks[i] == x;
      assert r[if i < p then i else i + 1] == x;
    }
    forall x | x in r ensures x in ks || x == k {
      var i :| 0 <= i < |r| && r[i] == x;
      assert i != p ==> r[i] == ks[if i < p then i else i - 1];
    }
  }

  lemma RepresentsWithout(ks: seq<Key>, m: map<Bytes, real>, i: nat, r: seq<Key>)
    requires Represents(ks, m) && i < |ks| == |r| + 1
    requires forall j {:trigger r[j]} :: 0 <= j < |r| ==> r[j] == ks[if j < i then j else j + 1]
    requires forall j {:trigger ks[j]} :: 0 <= j < |ks| && j != i ==> ks[j].member != ks[i].member
    ensures Represents(r, m - {ks[i].member})
  {
    var rest := m - {ks[i].member};
    forall x | x in rest ensures Key(rest[x], x) in r {
      var j :| 0 <= j < |ks| && ks[j] == Key(m[x], x);
      assert r[if j < i then j else j - 1] == ks[j];
    }
  }

  lemma CutAt(ks: seq<Key>, i: nat, r: seq<Key>)
    requires i < |ks| && r == ks[..i] + ks[i + 1..]
    ensures |ks| == |r| + 1
    ensures forall j {:trigger r[j]} :: 0 <= j < |r| ==> r[j] == ks[if j < i then j else j + 1]
  {
  }

  lemma OthersDiffer(ks: seq<Key>, i: nat)
    requires MembersDistinct(ks) && i < |ks|
    ensures forall j {:trigger ks[j]} :: 0 <= j < |ks| && j != i ==> ks[j].member != ks[i].member
  {
  }

  lemma MemberPlace(ks: seq<Key>, m: map<Bytes, real>, member: Bytes) returns (i: nat)
    requires Represents(ks, m) && member in m
    ensures i < |ks| && ks[i].member == member
  {
    i :| i < |ks| && ks[i] == Key(m[member], member);
  }

  lemma RepresentsRemove(ks: seq<Key>, m: map<Bytes, real>, member: Bytes)
    requires Represents(ks, m) && MembersDistinct(ks)
    ensures Represents(if member in m then RemoveMember(ks, member) else ks, m - {member})
  {
    hide RemoveMember, Represents, MembersDistinct;
    if member in m {
      var i := MemberPlace(ks, m, member);
      var r := ks[..i] + ks[i + 1..];
      RemoveMemberAt(ks, i);
      CutAt(ks, i, r);
      OthersDiffer(ks, i);
      RepresentsWithout(ks, m, i, r);
    } else {
      assert m - {member} == m;
    }
  }

  datatype SetOp = ZAddOp(member: Bytes, score: real, height: nat) | ZRemOp(member: Bytes)

  /** The entries after a run, as a plain map. */
  function RunOnMap(m: map<Bytes, real>, ops: seq<SetOp>): map<Bytes, real>
  {
    if |ops| == 0 then m
    else
      var before := RunOnMap(m, ops[..|ops| - 1]);
      match ops[|ops| - 1]
      case ZAddOp(member, score, _) => before[member := score]
      case ZRemOp(member) => before - {member}
  }

  /** How many of a run's removals found their member. */
  function Removals(m: map<Bytes, real>, ops: seq<SetOp>): nat
  {
    if |ops| == 0 then 0
    else
      var before := RunOnMap(m, ops[..|ops| - 1]);
      Removals(m, ops[..|ops| - 1])
      + match ops[|ops| - 1]
        case ZAddOp(_, _, _) => 0
        case ZRemOp(member) => if member in before then 1 else 0
  }

  /** The sorted sequence after an operation; a present member is given its new score where it stands. */
  function KeyStep(ks: seq<Key>, op: SetOp): seq<Key>
  {
    match op
    case ZAddOp(member, score, _) =>
      if member in Members(ks) then Rescored(ks, member, score) else InsertKey(ks, Key(score, member))
    case ZRemOp(member) => RemoveMember(ks, member)
  }

  function KeysAfter(ks: seq<Key>, ops: seq<SetOp>): seq<Key>
  {
    if |ops| == 0 then ks else KeyStep(KeysAfter(ks, ops[..|ops| - 1]), ops[|ops| - 1])
  }

  /** The operation leaves the sequence sorted: a present member's new score stays between its neighbours. */
  ghost predicate Orderly(ks: seq<Key>, op: SetOp)
  {
    op.ZAddOp? && op.member in Members(ks) ==> KeepsNeighbours(ks, op.member, op.score)
  }

  /** A run with heights below the top level that only gives present members scores that fit. */
  ghost predicate OrderlyRun(ks: seq<Key>, ops: seq<SetOp>)
  {
    forall i {:trigger ops[i]} :: 0 <= i < |ops| ==>
      Orderly(KeysAfter(ks, ops[..i]), ops[i]) && (ops[i].ZAddOp? ==> 1 <= ops[i].height < MAX_LEVEL)
  }

  lemma RepresentsRescored(ks: seq<Key>, m: map<Bytes, real>, member: Bytes, score: real)
    requires Represents(ks, m) && member in Members(ks)
    ensures Represents(Rescored(ks, member, score), m[member := score])
  {
    var r, m' := Rescored(ks, member, score), m[member := score];
    forall x | x in m' ensures Key(m'[x], x) in r {
      if x == member {
        var i :| 0 <= i < |ks| && Members(ks)[i] == member;
        assert r[i] == Key(score, member);
      } else {
        var i :| 0 <= i < |ks| && ks[i] == Key(m[x], x);
        assert r[i] == ks[i];
      }
    }
  }

  lemma RepresentedMembers(ks: seq<Key>, m: map<Bytes, real>, x: Bytes)
    requires Represents(ks, m)
    ensures x in Members(ks) <==> x in m
  {
    if x in m {
      var i :| 0 <= i < |ks| && ks[i] == Key(m[x], x);
      assert Members(ks)[i] == x;
    }
  }

  lemma {:induction false} RemoveAbsent(ks: seq<Key>, x: Bytes)
    requires x !in Members(ks)
    ensures RemoveMember(ks, x) == ks
  {
    if |ks| > 0 {
      assert Members(ks)[0] == ks[0].member;
      forall i | 0 <= i < |ks| - 1 ensures Members(ks[1..])[i] == Members(ks)[i + 1] {
      }
      RemoveAbsent(ks[1..], x);
    }
  }

  /** The sequence and the map of a run go together. */
  lemma StepRepresents(ks: seq<Key>, m: map<Bytes, real>, op: SetOp)
    requires Represents(ks, m) && MembersDistinct(ks)
    ensures Represents(KeyStep(ks, op), match op case ZAddOp(x, score, _) => m[x := score] case ZRemOp(x) => m - {x})
  {
    hide Represents, MembersDistinct, InsertKey, Rescored, RemoveMember, Members;
    RepresentedMembers(ks, m, op.member);
    match op
    case ZAddOp(x, score, _) =>
      if x in m {
        RepresentsRescored(ks, m, x, score);
      } else {
        RepresentsInsert(ks, m, Key(score, x));
      }
    case ZRemOp(x) =>
      RepresentsRemove(ks, m, x);
      if x !in m {
        RemoveAbsent(ks, x);
      }
  }

  lemma RepresentsHead(ks: seq<Key>, m: map<Bytes, real>)
    requires Represents(ks, m) && MembersDistinct(ks)
    ensures ks == [] ==> m == map[]
    ensures ks != [] ==> ks[0].member in m && MembersDistinct(ks[1..])
  {
  }

  lemma OneLess(m: map<Bytes, real>, x: Bytes)
    requires x in m
    ensures |m - {x}| == |m| - 1
  {
    assert (m - {x}).Keys == m.Keys - {x};
    assert |m| == |m.Keys| && |m - {x}| == |(m - {x}).Keys|;
  }

  /** A sequence has as many elements as the map it stands for. */
  lemma {:induction false} RepresentsCount(ks: seq<Key>, m: map<Bytes, real>)
    requires Represents(ks, m) && MembersDistinct(ks)
    ensures |ks| == |m|
  {
    hide Represents, MembersDistinct;
    RepresentsHead(ks, m);
    if |ks| > 0 {
      assert [] + ks[1..] == ks[1..] == ks[..0] + ks[1..];
      CutAt(ks, 0, ks[1..]);
      OthersDiffer(ks, 0);
      RepresentsWithout(ks, m, 0, ks[1..]);
      RepresentsCount(ks[1..], m - {ks[0].member});
      OneLess(m, ks[0].member);
    }
  }

  /** One entry of the store's table of sorted sets. The table keeps a copy of the skip list's header
      with its own `length`; nodes and member table are shared with every other copy. */
  class StoredSet {
    const list: SkipList
    var length: int

    /** All levels are right, whatever the order and the length. */
    ghost predicate Usable()
      reads this, list, list.chain, list.arrays
    {
      && list.Levelled() && |list.chain| > 0
      && this as object != list && this as object !in list.arrays && list.head.member == []
    }

    /** ... the keys are in order, and the length is not below their number. */
    ghost predicate Valid()
      reads this, list, list.chain, list.arrays
    {
      Usable() && list.Linked() && length >= |list.Keys()|
    }

    /** No node but the head reaches the top level. */
    ghost predicate LowNodes()
      reads list
    {
      forall n :: n in list.chain && n != list.head ==> Height(n) < MAX_LEVEL
    }

    ghost function Keys(): seq<Key>
      requires |list.chain| > 0
      reads list, list.chain
    {
      list.Keys()
    }

    constructor ()
      ensures Valid() && LowNodes() && Keys() == [] && length == 0 && list.dictionary == map[]
      ensures fresh(list) && fresh(list.chain) && fresh(list.arrays)
    {
      list := new SkipList();
      length := 0;
    }

    /** Never too small; too large by what removals found, as `CountAfterRun` says. */
    method ZCard() returns (n: int)
      requires Valid()
      ensures n == length && n >= |Keys()|
    {
      n := length;
    }

    method ZScore(member: Bytes) returns (score: real, found: bool)
      requires Usable()
      ensures found <==> member in Members(Keys())
      ensures found ==> Key(score, member) in Keys()
    {
      list.KeysDistinct();
      found := member in list.dictionary;
      score := 0.0;
      if found {
        ghost var k := list.PositionOf(member);
        score := list.dictionary[member].score;
        assert Members(Keys())[k - 1] == member;
        assert Keys()[k - 1] == Key(score, member);
      }
    }

    method ZRank(member: Bytes) returns (rank: int, found: bool)
      requires Valid()
      ensures found <==> member in Members(Keys())
      ensures found ==> 0 <= rank < |Keys()| && Keys()[rank].member == member
    {
      list.KeysDistinct();
      found := member in list.dictionary;
      rank := 0;
      if found {
        rank := list.FindElementRank(member);
        assert Members(Keys())[rank] == member;
      }
    }

    /** Works on a copy of the header and stores the copy back. Returns how many members are new. */
    method ZAdd(member: Bytes, score: real, height: nat) returns (added: int)
      requires Usable() && 1 <= height <= MAX_LEVEL
      modifies this, list, list.chain, list.arrays
      ensures fresh(list.arrays - old(list.arrays)) && forall n :: n in list.chain ==> n in old(list.chain) || fresh(n)
      ensures Usable()
      ensures member !in old(list.dictionary) ==>
        && added == 1 && length == old(length) + 1 && list.PutIn(old(Keys()), Key(score, member), Keys())
        && (old(Valid()) ==> Valid() && Keys() == InsertKey(old(Keys()), Key(score, member)))
      ensures member in old(list.dictionary) ==>
        && added == 0 && length == old(length) && Keys() == Rescored(old(Keys()), member, score)
        && (old(Valid()) ==> (Valid() <==> KeepsNeighbours(old(Keys()), member, score)))
      ensures list.dictionary.Keys == old(list.dictionary.Keys) + {member}
      ensures old(LowNodes()) && height < MAX_LEVEL ==> LowNodes()
    {
      hide SkipList.Linked, SkipList.Levelled, SkipList.Framed, SkipList.Keys, InsertKey, Rescored, KeepsNeighbours,
        SkipList.PutIn;
      list.HeadFirst();
      list.length := length;
      var lenBefore := list.length;
      list.InsertElement(member, score, height);
      var lenAfter := list.length;
      length := list.length;
      added := lenAfter - lenBefore;
    }

    /** Works on a copy of the header and forgets to store it back: the table's `length` goes stale. */
    method ZRem(member: Bytes) returns (removed: int)
      requires Usable()
      modifies list, list.arrays
      ensures length == old(length) && list.arrays == old(list.arrays) && |list.chain| > 0
      ensures forall n :: n in list.chain ==> n in old(list.chain)
      ensures removed == if member in old(list.dictionary) then 1 else 0
      ensures member in old(list.dictionary) && old(list.StopsInFront(member)) ==>
        && list.Framed() && Keys() == RemoveMember(old(Keys()), member)
        && (Usable() <==> old(list.TopLevelBefore(member)))
        && (old(Valid()) ==> (Valid() <==> Usable()))
      ensures member in old(list.dictionary) && !old(list.StopsInFront(member)) ==>
        !list.Framed() && list.chain == old(list.chain) && Keys() == old(Keys()) && list.BottomInOrder()
      ensures old(Valid()) && member in old(list.dictionary) ==> old(list.StopsInFront(member))
      ensures member !in old(list.dictionary) ==> Usable() && Keys() == old(Keys()) && (old(Valid()) ==> Valid())
      ensures list.dictionary.Keys == old(list.dictionary.Keys) - {member}
      ensures old(Valid() && LowNodes()) ==> Valid() && LowNodes()
    {
      hide SkipList.Linked, SkipList.Levelled, SkipList.Framed, SkipList.Keys, SkipList.TopLevelBefore, RemoveMember,
        SkipList.StopsInFront, SkipList.BottomInOrder;
      list.HeadFirst();
      if member !in list.dictionary {
        return 0;
      }
      list.length := length;
      if LowNodes() {
        list.NoTopLevel(member);
      }
      list.RemoveElementByName(member);
      return 1;
    }

    /** Reads the stored length, however stale, and starts with a positional lookup. */
    method ZRange(start: int, end: int) returns (out: seq<Bytes>)
      requires Valid()
      modifies list
      ensures list.dictionary == old(list.dictionary) && list.chain == old(list.chain) &&
        list.arrays == old(list.arrays)
      ensures Keys() == old(Keys())
      ensures length >= 0 && out == StoredRange(Keys(), length, start, end)
    {
      hide SkipList.Linked, SkipList.Framed, SkipList.Keys, KeysOf, StoredRange, Resolve;
      list.HeadFirst();
      list.KeysAre();
      list.length := length;
      var s := Resolve(start, length);
      var e := Resolve(end, length);
      ghost var ks := Keys();
      if s > e || s >= length {
        NothingStored(ks, length, start, end);
        return [];
      }
      if e > length {
        e := length - 1;
      }
      out := RangeFrom(s, e - s + 1);
      if s + 1 >= length {
        NothingStored(ks, length, start, end);
      } else if |ks| == 0 {
        HeadStored(ks, length, start, end);
      } else {
        StoredIs(ks, length, start, end, s, e, out);
      }
    }

    /** The positional lookup and the loop behind it. */
    method RangeFrom(s: nat, count: nat) returns (out: seq<Bytes>)
      requires list.Linked() && list.length == length && |list.chain| > 0 && list.head.member == [] && count > 0
      requires length >= |Keys()|
      ensures s + 1 >= length ==> out == []
      ensures s + 1 < length && Keys() == [] ==> out == [[]]
      ensures s + 1 < length && Keys() != [] ==>
        var n := |Keys()|;
        var from := if s < n then s else n - 1;
        && |out| == (if count < n - from then count else n - from)
        && forall i :: 0 <= i < |out| ==> out[i] == Keys()[from + i].member
    {
      hide SkipList.Linked, SkipList.Framed, SkipList.Keys, KeysOf;
      list.HeadFirst();
      list.KeysAre();
      out := [];
      var curr := list.GetElement(s);
      if curr == null {
        return;
      }
      ghost var p := if s + 1 < |list.chain| then s + 1 else |list.chain| - 1;
      out := list.MembersFrom(curr, p, count);
      if p == 0 {
        assert out == [[]];
      } else {
        forall i | 0 <= i < |out| ensures out[i] == Keys()[p - 1 + i].member {
          assert list.chain[p + i] == list.chain[(p - 1 + i) + 1];
        }
      }
    }

    /** After any orderly run the list holds the run's keys in order, which stand for the map the run
        leaves, and the stale length counts every member a removal ever found. */
    method Run(ops: seq<SetOp>, ghost m: map<Bytes, real>)
      requires Valid() && LowNodes() && Represents(Keys(), m) && OrderlyRun(Keys(), ops)
      modifies this, list, list.chain, list.arrays
      ensures Valid() && LowNodes() && Keys() == KeysAfter(old(Keys()), ops) && Represents(Keys(), RunOnMap(m, ops))
      ensures length - |Keys()| == old(length - |Keys()|) + Removals(m, ops)
    {
      hide SkipList.Linked, SkipList.Framed, SkipList.Keys, InsertKey, RemoveMember, Rescored, Represents, RunOnMap,
        Removals, OrderlyRun, Orderly, KeepsNeighbours, KeysAfter, KeyStep, MembersDistinct;
      list.HeadFirst();
      ghost var ks0 := Keys();
      RunEmpty(ks0, m, ops);
      assert ops[..0] == [];
      for i := 0 to |ops|
        invariant Valid() && LowNodes() && Keys() == KeysAfter(ks0, ops[..i])
        invariant Represents(Keys(), RunOnMap(m, ops[..i]))
        invariant length - |Keys()| == old(length - |Keys()|) + Removals(m, ops[..i])
        invariant fresh(list.arrays - old(list.arrays))
        invariant forall n :: n in list.chain ==> n in old(list.chain) || fresh(n)
      {
        RunStep(ks0, m, ops, i);
        ghost var before := RunOnMap(m, ops[..i]);
        ghost var ks := Keys();
        RepresentsMembers(before);
        list.KeysDistinct();
        RepresentedMembers(ks, before, ops[i].member);
        StepRepresents(ks, before, ops[i]);
        match ops[i]
        case ZAddOp(member, score, height) =>
          AddedKeys(ks, ops[i]);
          assert forall p :: 0 <= p < |list.chain| ==> list.chain[p] in old(list.chain) || fresh(list.chain[p]);
          var _ := ZAdd(member, score, height);
        case ZRemOp(member) =>
          RemovedKeys(ks, ops[i]);
          RemovalShrinks(ks, before, member);
          var _ := ZRem(member);
      }
      assert ops[..|ops|] == ops;
    }

    lemma RepresentsMembers(m: map<Bytes, real>)
      requires Valid() && Represents(Keys(), m)
      ensures list.Framed()
      ensures forall x :: x in list.dictionary <==> x in m
    {
      list.KeysDistinct();
      forall x | x in list.dictionary ensures x in m {
        var k := list.PositionOf(x);
        assert Keys()[k - 1].member in m;
      }
    }
  }

  lemma RunEmpty(ks: seq<Key>, m: map<Bytes, real>, ops: seq<SetOp>)
    ensures RunOnMap(m, []) == m && Removals(m, []) == 0 && KeysAfter(ks, []) == ks
  {
  }

  lemma RunStep(ks: seq<Key>, m: map<Bytes, real>, ops: seq<SetOp>, i: nat)
    requires OrderlyRun(ks, ops) && i < |ops|
    ensures KeysAfter(ks, ops[..i + 1]) == KeyStep(KeysAfter(ks, ops[..i]), ops[i])
    ensures Orderly(KeysAfter(ks, ops[..i]), ops[i])
    ensures var before := RunOnMap(m, ops[..i]);
      match ops[i]
      case ZAddOp(member, score, height) =>
        && 1 <= height < MAX_LEVEL
        && RunOnMap(m, ops[..i + 1]) == before[member := score] && Removals(m, ops[..i + 1]) == Removals(m, ops[..i])
      case ZRemOp(member) =>
        && RunOnMap(m, ops[..i + 1]) == before - {member}
        && Removals(m, ops[..i + 1]) == Removals(m, ops[..i]) + if member in before then 1 else 0
  {
    hide Orderly, KeyStep;
    var upTo := ops[..i + 1];
    assert upTo[..|upTo| - 1] == ops[..i] && upTo[|upTo| - 1] == ops[i];
  }

  lemma AddedKeys(ks: seq<Key>, op: SetOp)
    requires op.ZAddOp? && Orderly(ks, op)
    ensures op.member in Members(ks) ==>
      KeyStep(ks, op) == Rescored(ks, op.member, op.score) && KeepsNeighbours(ks, op.member, op.score)
    ensures op.member !in Members(ks) ==> KeyStep(ks, op) == InsertKey(ks, Key(op.score, op.member))
  {
  }

  lemma RemovedKeys(ks: seq<Key>, op: SetOp)
    requires op.ZRemOp?
    ensures KeyStep(ks, op) == RemoveMember(ks, op.member)
    ensures op.member !in Members(ks) ==> RemoveMember(ks, op.member) == ks
  {
    if op.member !in Members(ks) {
      RemoveAbsent(ks, op.member);
    }
  }

  lemma RemovalShrinks(ks: seq<Key>, m: map<Bytes, real>, member: Bytes)
    requires Represents(ks, m) && MembersDistinct(ks)
    ensures member in m ==> |RemoveMember(ks, member)| == |ks| - 1
  {
    if member !in m {
      return;
    }
    var i :| 0 <= i < |ks| && ks[i] == Key(m[member], member);
    RemoveMemberAt(ks, i);
  }

  lemma NothingStored(ks: seq<Key>, length: nat, start: int, end: int)
    requires Resolve(start, length) > Resolve(end, length) || Resolve(start, length) + 1 >= length
    ensures StoredRange(ks, length, start, end) == []
  {
  }

  lemma HeadStored(ks: seq<Key>, length: nat, start: int, end: int)
    requires |ks| == 0 && Resolve(start, length) <= Resolve(end, length) && Resolve(start, length) + 1 < length
    ensures StoredRange(ks, length, start, end) == [[]]
  {
  }

  lemma StoredIs(ks: seq<Key>, length: nat, start: int, end: int, s: nat, e: nat, out: seq<Bytes>)
    requires |ks| > 0 && s == Resolve(start, length) <= Resolve(end, length) && s + 1 < length
    requires e == if Resolve(end, length) > length then length - 1 else Resolve(end, length)
    requires var from := if s < |ks| then s else |ks| - 1;
      && |out| == (if e - s + 1 < |ks| - from then e - s + 1 else |ks| - from)
      && forall i :: 0 <= i < |out| ==> out[i] == ks[from + i].member
    ensures out == StoredRange(ks, length, start, end)
  {
  }

  /** With a right length, ZRANGE keeps its promise exactly when it does not have to show a range from the
      last element on. */
  lemma RangeExactUnlessAtLast(ks: seq<Key>, start: int, end: int)
    ensures StoredRange(ks, |ks|, start, end) == PromisedRange(ks, start, end)
      <==> !(Resolve(start, |ks|) + 1 == |ks| <= Resolve(end, |ks|) + 1)
  {
  }

  /** The bounds of the slice ZRANGE promises, 0 and 0 when it promises nothing. */
  function PromisedBounds(n: nat, start: int, end: int): (int, int)
  {
    var s, e := Resolve(start, n), Resolve(end, n);
    if s > e || s >= n then (0, 0) else (s, if e < n then e + 1 else n)
  }

  /** The bounds of the slice it shows. */
  function StoredBounds(n: nat, length: nat, start: int, end: int): (int, int)
    requires 0 < n <= length
  {
    var s, e := Resolve(start, length), Resolve(end, length);
    if s > e || s + 1 >= length then (0, 0)
    else
      var from := if s < n then s else n - 1;
      var count := (if e > length then length - 1 else e) - s + 1;
      (from, if count < n - from then from + count else n)
  }

  /** Both bounds agree; without elements, nothing is to be shown at all. */
  predicate RangeRight(n: nat, length: nat, start: int, end: int)
    requires n <= length
  {
    if n == 0 then Resolve(start, length) > Resolve(end, length) || Resolve(start, length) + 1 >= length
    else PromisedBounds(n, start, end) == StoredBounds(n, length, start, end)
  }

  lemma SlicesDiffer(ks: seq<Key>, a: nat, b: nat, c: nat, d: nat)
    requires MembersDistinct(ks) && a <= b <= |ks| && c <= d <= |ks|
    ensures Members(ks[a..b]) == Members(ks[c..d]) <==> (a == c && b == d) || (a == b && c == d)
  {
    var x, y := Members(ks[a..b]), Members(ks[c..d]);
    if x == y && a < b {
      assert |x| == |y| && x[0] == ks[a].member && y[0] == ks[c].member;
    }
  }

  /** For every pair of indices, counted from either end, and every stored length, stale or not: ZRANGE
      shows what it promises exactly when the bounds agree. */
  lemma RangeRightIff(ks: seq<Key>, length: nat, start: int, end: int)
    requires MembersDistinct(ks) && |ks| <= length
    ensures StoredRange(ks, length, start, end) == PromisedRange(ks, start, end) <==>
      RangeRight(|ks|, length, start, end)
  {
    hide MembersDistinct;
    var n := |ks|;
    if n > 0 {
      var (a, b) := PromisedBounds(n, start, end);
      var (c, d) := StoredBounds(n, length, start, end);
      assert PromisedRange(ks, start, end) == Members(ks[a..b]);
      assert StoredRange(ks, length, start, end) == Members(ks[c..d]);
      SlicesDiffer(ks, a, b, c, d);
    }
  }

  /** Both indices counted from the front, after a removal: wrong exactly for a range wholly behind the
      elements that starts before the stale length's last index. */
  lemma StaleRangeExactIff(n: nat, length: nat, start: nat, end: nat)
    requires length > n
    ensures RangeRight(n, length, start, end) <==> !(n <= start <= end && start + 1 < length)
  {
  }

  /** From an element on, up to the `b`-th from the end, after a removal. */
  lemma StaleEndIff(n: nat, length: nat, start: nat, b: int)
    requires length > n > start && b >= 1
    ensures RangeRight(n, length, start, -b) <==> b == 1 || start + b > length || b >= length || n == 1
  {
  }

  /** From any index to the end, after a removal. */
  lemma StaleToEndIff(n: nat, length: nat, start: nat)
    requires length > n
    ensures RangeRight(n, length, start, -1) <==> start < n || start + 1 >= length
  {
  }

  /** The last `a` elements, after a removal: hardly ever. */
  lemma StaleSuffixIff(n: nat, length: nat, a: int)
    requires length > n >= 1 && a >= 1
    ensures RangeRight(n, length, -a, -1) <==> a >= length || (n == 1 && a >= 2)
  {
  }

  /** After one removal the last element is not shown for -1 to -1, and 0 to -2 shows it. */
  lemma StaleEndsMissed(ks: seq<Key>, length: nat)
    requires length > |ks| >= 2
    ensures StoredRange(ks, length, -1, -1) == [] && PromisedRange(ks, -1, -1) == [ks[|ks| - 1].member]
    ensures StoredRange(ks, length, 0, -2) == Members(ks) && PromisedRange(ks, 0, -2) == Members(ks)[..|ks| - 1]
  {
    assert ks[0..|ks|] == ks;
  }

  /** One element is enough to miss: the range from 0 to -1 of a one-element set comes out empty. */
  lemma RangeOfOneMissed(k: Key)
    ensures StoredRange([k], 1, 0, -1) == [] && PromisedRange([k], 0, -1) == [k.member]
  {
    assert [k][0..1] == [k];
  }

  /** ZCARD after any orderly run from an empty set: the members, and one more for each that a removal
      found. It is right exactly when no removal found its member. */
  method CountAfterRun(ops: seq<SetOp>) returns (z: StoredSet, n: int)
    requires OrderlyRun([], ops)
    ensures z.Valid() && n == |z.Keys()| + Removals(map[], ops) && |z.Keys()| == |RunOnMap(map[], ops)|
    ensures n == |RunOnMap(map[], ops)| <==> Removals(map[], ops) == 0
  {
    hide SkipList.Linked, SkipList.Framed, SkipList.Keys, OrderlyRun, RunOnMap, Removals;
    z := new StoredSet();
    z.Run(ops, map[]);
    z.list.HeadFirst();
    z.list.KeysDistinct();
    RepresentsCount(z.Keys(), RunOnMap(map[], ops));
    n := z.ZCard();
  }

  method TwoMembers(a: Bytes, b: Bytes, score: real) returns (z: StoredSet)
    requires a != b
    ensures fresh(z) && fresh(z.list) && fresh(z.list.arrays)
    ensures z.Valid() && z.LowNodes() && z.length == 2 && z.list.dictionary.Keys == {a, b}
  {
    hide SkipList.Linked, SkipList.Framed, SkipList.Keys, InsertKey, Rescored, KeepsNeighbours;
    z := new StoredSet();
    var _ := z.ZAdd(a, score, 1);
    forall p | 0 <= p < |z.list.chain| ensures fresh(z.list.chain[p]) {
      assert z.list.chain[p] in z.list.chain;
    }
    var _ := z.ZAdd(b, score, 1);
  }

  lemma FirstKnown(list: SkipList)
    requires list.Framed() && |list.chain| > 0 && |list.Keys()| > 0
    ensures list.Keys()[0].member in list.dictionary
  {
    list.KeysDistinct();
  }

  /** Two members added and removed: the full range of the emptied set shows one nameless element. */
  method EmptiedSetShowsHead(a: Bytes, b: Bytes, score: real) returns (z: StoredSet, out: seq<Bytes>)
    requires a != b
    ensures z.Valid() && z.Keys() == [] && out == [[]]
  {
    hide SkipList.Linked, SkipList.Levelled, SkipList.Framed, SkipList.Keys, RemoveMember, StoredRange,
      SkipList.StopsInFront, SkipList.BottomInOrder, SkipList.TopLevelBefore;
    z := TwoMembers(a, b, score);
    var _ := z.ZRem(a);
    var _ := z.ZRem(b);
    z.list.HeadFirst();
    if |z.Keys()| > 0 {
      FirstKnown(z.list);
    }
    HeadStored([], 2, 0, -1);
    out := z.ZRange(0, -1);
  }

  lemma OnlyKey(k: Key)
    ensures InsertKey([], k) == [k] && RemoveMember([k], k.member) == []
  {
  }

  method OneTallMember(member: Bytes, score: real) returns (sl: SkipList)
    ensures fresh(sl) && fresh(sl.arrays)
    ensures sl.Linked() && sl.Keys() == [Key(score, member)] && member in sl.dictionary && !sl.TopLevelBefore(member)
  {
    hide SkipList.Linked, SkipList.Levelled, SkipList.Framed, SkipList.Keys, Sorted, MembersDistinct, InsertKey,
      Less, SkipList.TopLevelBefore;
    sl := new SkipList();
    NobodyThere(sl, member);
    sl.InsertElement(member, score, MAX_LEVEL);
    assert sl.Linked();
    sl.HeadFirst();
    OnlyKey(Key(score, member));
    TallLast(sl, member);
  }

  lemma NobodyThere(sl: SkipList, member: Bytes)
    requires sl.Linked() && sl.Keys() == []
    ensures sl.chain == [sl.head] && member !in sl.dictionary
  {
    sl.HeadFirst();
  }

  lemma TallLast(sl: SkipList, member: Bytes)
    requires sl.Linked() && member in sl.dictionary
    requires forall n :: n in sl.chain ==> n == sl.head || Height(n) == MAX_LEVEL
    ensures !sl.TopLevelBefore(member)
  {
    hide SkipList.Linked, Sorted, MembersDistinct, Less;
    sl.HeadFirst();
    sl.Basics();
    var k := sl.PositionOf(member);
    assert sl.chain[1..][k - 1] == sl.chain[k];
    assert sl.chain[k] in sl.chain;
    BeforeIrreflexive(KeyOf(sl.chain[k]));
  }

  /** A removed node of full height stays linked on the top level. */
  method TallNodeStaysLinked(member: Bytes, score: real) returns (sl: SkipList)
    ensures sl.Framed() && member !in sl.dictionary && sl.Keys() == [] && !sl.Linked()
  {
    hide SkipList.Linked, SkipList.Framed, SkipList.TopLevelBefore, SkipList.Keys, RemoveMember, InsertKey;
    sl := OneTallMember(member, score);
    OnlyKey(Key(score, member));
    sl.RemoveElementByName(member);
  }

  lemma TwoKeys(a: Bytes, b: Bytes, low: real, high: real, above: real)
    requires a != b && low < high < above
    ensures var ks := InsertKey(InsertKey([], Key(low, a)), Key(high, b));
      ks == [Key(low, a), Key(high, b)] && !KeepsNeighbours(ks, a, above)
  {
    var ks := [Key(low, a), Key(high, b)];
    assert Position([Key(low, a)], Key(high, b)) == 1;
    assert ks[0].member == a && !Before(Key(above, a), ks[1]);
  }

  method TwoInOrder(a: Bytes, b: Bytes, low: real, high: real) returns (z: StoredSet)
    requires a != b && low < high
    ensures fresh(z) && fresh(z.list) && fresh(z.list.arrays)
    ensures forall p :: 0 <= p < |z.list.chain| ==> fresh(z.list.chain[p])
    ensures z.Valid() && z.Keys() == InsertKey(InsertKey([], Key(low, a)), Key(high, b)) &&
      z.list.dictionary.Keys == {a, b}
  {
    hide SkipList.Linked, SkipList.Framed, SkipList.Keys, InsertKey, Rescored, KeepsNeighbours;
    z := new StoredSet();
    var _ := z.ZAdd(a, low, 1);
    forall p | 0 <= p < |z.list.chain| ensures fresh(z.list.chain[p]) {
      assert z.list.chain[p] in z.list.chain;
    }
    var _ := z.ZAdd(b, high, 1);
    forall p | 0 <= p < |z.list.chain| ensures fresh(z.list.chain[p]) {
      assert z.list.chain[p] in z.list.chain;
    }
  }

  /** A member given a score above its neighbour's stays where it is, and the set is no longer in order. */
  method RescoringUnsorts(a: Bytes, b: Bytes, low: real, high: real, above: real) returns (z: StoredSet)
    requires a != b && low < high < above
    ensures fresh(z) && fresh(z.list) && fresh(z.list.arrays) && b in z.list.dictionary
    ensures z.Usable() && z.Keys() == [Key(above, a), Key(high, b)] && !z.Valid()
  {
    hide SkipList.Linked, SkipList.Levelled, SkipList.Framed, SkipList.Keys, InsertKey, KeepsNeighbours;
    z := TwoInOrder(a, b, low, high);
    TwoKeys(a, b, low, high, above);
    var _ := z.ZAdd(a, above, 1);
    z.list.HeadFirst();
  }

  /** The search for the upper member then stops in front of the rescored one: it is removed from the table
      only, and its node stays linked. */
  method RemovedMemberStaysLinked(a: Bytes, b: Bytes, low: real, high: real, above: real)
    returns (z: StoredSet, removed: int)
    requires a != b && low < high < above
    ensures removed == 1 && b !in z.list.dictionary
    ensures |z.list.chain| > 0 && z.Keys() == [Key(above, a), Key(high, b)] && z.list.BottomInOrder()
  {
    hide SkipList.Linked, SkipList.Levelled, SkipList.Framed, SkipList.Keys, SkipList.StopsInFront,
      SkipList.BottomInOrder;
    z := RescoringUnsorts(a, b, low, high, above);
    SearchStopsAtFront(z.list, Key(above, a), Key(high, b));
    removed := z.ZRem(b);
  }

  lemma SearchStopsAtFront(list: SkipList, first: Key, second: Key)
    requires list.Levelled() && |list.chain| > 0 && list.Keys() == [first, second]
    requires !Before(first, second) && second.member in list.dictionary && first.member != second.member
    ensures !list.StopsInFront(second.member)
  {
    hide SkipList.Levelled, Before, Less, SkipList.Stop;
    var k := list.PlaceOf(second.member);
    var key := KeyOf(list.dictionary[second.member]);
    list.SearchStopsAt(key);
    list.KeysAre();
  }
}
