/** The indexable skip list behind sorted sets. */
module SkipList {
  import opened Bytes
  import opened SkipListOrder
  import opened SkipChain
  import opened CellWindows

  class SkipList {
    const head: Node
    var length: int
    var dictionary: map<Bytes, Node>

    /** The nodes in level-0 order, the head first, and all their arrays. */
    ghost var chain: seq<Node>
    ghost var arrays: set<object>

    /** The sorted sequence the list stands for. */
    ghost function Keys(): (ks: seq<Key>)
      requires |chain| > 0
      reads `chain, chain
    {
      KeysOf(chain)[1..]
    }

    ghost predicate Framed()
      reads `chain, `arrays, `dictionary
    {
      this !in arrays && WellFramed(head, chain, arrays, dictionary)
    }

    /** Every level is the sublist of the nodes taller than it, with exact spans. */
    ghost predicate Levelled()
      reads `chain, `arrays, `dictionary, chain, arrays
    {
      && Framed()
      && forall level :: 0 <= level < MAX_LEVEL ==> LevelOk(chain, level)
    }

    /** ... and the chain is sorted. */
    ghost predicate Linked(): (linked: bool)
      reads `chain, `arrays, `dictionary, chain, arrays
      ensures linked ==> Levelled()
    {
      Levelled() && Sorted(Keys())
    }

    ghost predicate Valid()
      reads this, chain, arrays
    {
      Linked() && length == |Keys()|
    }

    constructor ()
      ensures Valid() && Keys() == [] && head.member == [] && Height(head) == 32
      ensures fresh(chain) && fresh(arrays)
    {
      var h := new Node([], 0.0, MAX_LEVEL);
      head := h;
      length := 0;
      dictionary := map[];
      chain := [h];
      arrays := {h.forward, h.span};
    }

    /** `curr` is the node at position `p`, and on `level` it points to the next node tall enough. */
    ghost predicate Here(curr: Node, p: nat, level: nat)
      reads this, curr.forward, curr.span
    {
      && p < |chain| && curr == chain[p]
      && level < curr.forward.Length && level < curr.span.Length
      && Link(chain, p, level, curr.forward[level], curr.span[level])
    }

    /** In a linked list this holds of every node on every level it has. */
    lemma EverywhereHere()
      requires Levelled()
      ensures forall p: nat, level: nat {:trigger Here(chain[p], p, level)} ::
        p < |chain| && level < Height(chain[p]) ==> Here(chain[p], p, level)
    {
      forall p: nat, level: nat | p < |chain| && level < Height(chain[p])
        ensures Here(chain[p], p, level)
      {
        assert LevelOk(chain, level);
        assert Forwards(chain, level)[p] == ForwardAt(chain[p], level) &&
          Spans(chain, level)[p] == SpanAt(chain[p], level);
      }
    }

    /** What the walks start from: the head on every level, and a bottom level that skips nobody. */
    lemma Basics()
      requires Levelled()
      ensures |chain| > 0 && chain[0] == head && Height(head) == MAX_LEVEL && |Keys()| == |chain| - 1
      ensures forall p: nat {:trigger Next(chain, p, 0)} :: p < |chain| ==> Next(chain, p, 0) == p + 1
    {
    }

    /** The position of a node the member table knows. */
    lemma PositionOf(member: Bytes) returns (k: nat)
      requires Levelled() && member in dictionary
      ensures 1 <= k < |chain| && chain[k] == dictionary[member] && chain[k].member == member
      ensures Height(chain[k]) >= 1 && |Keys()| == |chain| - 1 && Keys()[k - 1] == KeyOf(chain[k])
    {
      k :| 1 <= k < |chain| && chain[k] == dictionary[member];
    }

    method FindElementRank(member: Bytes) returns (r: int)
      requires Linked()
      ensures member !in dictionary ==> r == 0
      ensures member in dictionary ==> 0 <= r < |Keys()| && Keys()[r].member == member
    {
      hide Linked, Framed, WellFramed, Separate, LevelOk, Links, Sorted, Keys, KeysOf, Next, Less, Before, NotAfter;
      if member !in dictionary {
        return 0;
      }
      Basics();
      ghost var k := PositionOf(member);
      RanksUpTo(k);
      EverywhereHere();
      var node := dictionary[member];
      var target := node.score;
      var rank := 0;
      var curr: Node := head;
      ghost var p: nat := 0;
      for i := MAX_LEVEL downto 0
        invariant rank == p <= k && curr == chain[p] && Height(curr) >= i
        invariant i < MAX_LEVEL ==> Next(chain, p, i) > k
      {
        while curr.forward[i] != null && NotAfter(KeyOf(curr.forward[i]), Key(target, member))
          invariant rank == p <= k && Here(curr, p, i)
          decreases |chain| - p
        {
          p := Next(chain, p, i);
          assert NotAfter(KeyOf(chain[p]), KeyOf(chain[k]));
          rank := rank + curr.span[i];
          curr := curr.forward[i];
        }
      }
      return rank - 1;
    }

    /** The element at a 0-based rank. The bound refuses the last rank, and -1 finds the head. */
    method GetElement(rank: int) returns (n: Node?)
      requires Linked()
      ensures n == null <==> rank < -1 || rank + 1 >= length
      ensures n != null ==> n == chain[if rank + 1 < |chain| then rank + 1 else |chain| - 1]
      ensures Valid() && n != null && rank >= 0 ==> KeyOf(n) == Keys()[rank]
      ensures n != null && rank == -1 ==> n == head
    {
      hide Framed, WellFramed, Separate, LevelOk, Links, Sorted, KeysOf, Next;
      var target := rank + 1;
      if target < 0 || target >= length {
        return null;
      }
      Basics();
      EverywhereHere();
      var curr: Node := head;
      var currRank := 0;
      ghost var p: nat := 0;
      for i := MAX_LEVEL downto 0
        invariant currRank == p <= target && p < |chain| && curr == chain[p] && Height(curr) >= i
        invariant i < MAX_LEVEL ==> Next(chain, p, i) == |chain| || Next(chain, p, i) > target
      {
        while curr.forward[i] != null && currRank + curr.span[i] <= target
          invariant currRank == p <= target && Here(curr, p, i)
          decreases |chain| - p
        {
          p := Next(chain, p, i);
          currRank := currRank + curr.span[i];
          curr := curr.forward[i];
        }
      }
      KeyAt(p);
      return curr;
    }

    /** Rank and positional lookup undo each other wherever the positional bound lets them. */
    method RankOfElementAt(rank: nat) returns (r: int)
      requires Valid() && rank + 1 < length
      ensures r == rank
    {
      var n := GetElement(rank);
      KeysDistinct();
      r := FindElementRank(n.member);
    }

    method ElementAtRankOf(member: Bytes) returns (n: Node?)
      requires Valid() && member in dictionary
      ensures n != null ==> n.member == member
      ensures n == null <==> Keys()[|Keys()| - 1].member == member
    {
      var r := FindElementRank(member);
      KeysDistinct();
      n := GetElement(r);
    }

    lemma KeysAre()
      requires Levelled()
      ensures |Keys()| == |chain| - 1
      ensures forall p {:trigger Keys()[p]} :: 0 <= p < |Keys()| ==> Keys()[p] == KeyOf(chain[p + 1])
    {
    }

    lemma KeyAt(p: nat)
      requires Levelled() && p < |chain|
      ensures |Keys()| == |chain| - 1 && Height(chain[p]) >= 1
      ensures p > 0 ==> Keys()[p - 1] == KeyOf(chain[p])
    {
    }

    lemma Successor(p: nat)
      requires Levelled() && p < |chain|
      ensures 0 < chain[p].forward.Length && chain[p].forward[0] == if p + 1 < |chain| then chain[p + 1] else null
    {
      Basics();
      KeyAt(p);
      EverywhereHere();
      assert Here(chain[p], p, 0);
    }

    /** The loop of a range query: up to `count` members along level 0. */
    method MembersFrom(n: Node, ghost p: nat, count: nat) returns (out: seq<Bytes>)
      requires Linked() && p < |chain| && n == chain[p]
      ensures |out| == if count < |chain| - p then count else |chain| - p
      ensures forall i :: 0 <= i < |out| ==> out[i] == chain[p + i].member
    {
      hide Linked, Framed;
      out := [];
      var curr: Node? := n;
      ghost var at := p;
      while |out| < count && curr != null
        invariant |out| <= count && |out| <= |chain| - p && at == p + |out|
        invariant curr == if at < |chain| then chain[at] else null
        invariant forall i :: 0 <= i < |out| ==> out[i] == chain[p + i].member
      {
        Successor(at);
        out := out + [curr.member];
        curr := curr.forward[0];
        at := at + 1;
      }
    }

    /** The first node scoring at least `score`. */
    method FirstGE(score: real) returns (n: Node?)
      requires Linked()
      ensures var k := Below(Keys(), score) + 1; n == if k < |chain| then chain[k] else null
    {
      hide Linked, Framed, WellFramed, Separate, LevelOk, Links, Sorted, Keys, KeysOf, Next, Below;
      Basics();
      EverywhereHere();
      ghost var k := PrefixBelow(score);
      var curr: Node := head;
      ghost var p: nat := 0;
      for i := MAX_LEVEL downto 0
        invariant p <= k && curr == chain[p] && Height(curr) >= i
        invariant i < MAX_LEVEL ==> Here(curr, p, i) && Next(chain, p, i) > k
      {
        while curr.forward[i] != null && curr.forward[i].score < score
          invariant p <= k && Here(curr, p, i)
          decreases |chain| - p
        {
          p := Next(chain, p, i);
          curr := curr.forward[i];
        }
      }
      return curr.forward[0];
    }

    lemma PrefixBelow(score: real) returns (k: nat)
      requires Linked()
      ensures k == Below(Keys(), score) < |chain|
      ensures forall p {:trigger chain[p]} :: 1 <= p < |chain| ==> (chain[p].score < score <==> p <= k)
    {
      k := Below(Keys(), score);
      BelowSplits(Keys(), score);
      forall p {:trigger chain[p]} | 1 <= p < |chain| ensures chain[p].score < score <==> p <= k {
        assert Keys()[p - 1] == KeyOf(chain[p]);
      }
    }

    /** The walk of a radius search over its cells: each window from its first node on. The distance
        test is `near`, the code's shift a division by `width`. */
    method WalkCells(cells: seq<nat>, width: nat, near: real -> bool) returns (results: seq<Bytes>)
      requires Linked()
      ensures results == CellMembers(Keys(), cells, width, near)
    {
      hide Linked, Window, CellMembers, Keys, CellStart;
      Basics();
      CellMembersSnoc(Keys(), [], 0, width, near);
      results := [];
      for i := 0 to |cells|
        invariant results == CellMembers(Keys(), cells[..i], width, near)
      {
        var found := WalkWindow(CellStart(cells[i], width), CellStart(cells[i] + 1, width), near);
        results := results + found;
        CellMembersSnoc(Keys(), cells[..i], cells[i], width, near);
        assert cells[..i + 1] == cells[..i] + [cells[i]];
      }
      assert cells[..|cells|] == cells;
    }

    method WalkWindow(lo: real, hi: real, near: real -> bool) returns (results: seq<Bytes>)
      requires Linked()
      ensures results == Window(Keys(), lo, hi, near)
    {
      hide Linked, Framed, WellFramed, Separate, LevelOk, Links, Sorted, KeysOf, Keys, Next, Below, Window;
      results := [];
      Basics();
      EverywhereHere();
      ghost var k := PrefixBelow(lo);
      ghost var p: nat := k + 1;
      var n := FirstGE(lo);
      WindowStart(lo, hi, near);
      while n != null && n.score < hi
        invariant k < p <= |chain| && n == if p < |chain| then chain[p] else null
        invariant results == Window(Keys()[..p - 1], lo, hi, near)
        decreases |chain| - p
      {
        if near(n.score) {
          results := results + [n.member];
        }
        WindowStep(p, lo, hi, near);
        KeyAt(p);
        assert Here(n, p, 0);
        n := n.forward[0];
        p := p + 1;
      }
      WindowEnd(p, lo, hi, near);
    }

    lemma WindowStart(lo: real, hi: real, near: real -> bool)
      requires Linked()
      ensures Window(Keys()[..Below(Keys(), lo)], lo, hi, near) == []
    {
      BelowSplits(Keys(), lo);
      WindowNone(Keys()[..Below(Keys(), lo)], lo, hi, near);
    }

    lemma WindowStep(p: nat, lo: real, hi: real, near: real -> bool)
      requires Linked() && 1 <= p < |chain|
      ensures |Keys()| == |chain| - 1
      ensures Window(Keys()[..p], lo, hi, near) ==
        Window(Keys()[..p - 1], lo, hi, near)
        + if lo <= chain[p].score < hi && near(chain[p].score) then [chain[p].member] else []
    {
      KeyAt(p);
      assert Keys()[..p] == Keys()[..p - 1] + [Keys()[p - 1]];
      WindowSnoc(Keys()[..p - 1], Keys()[p - 1], lo, hi, near);
    }

    lemma WindowEnd(p: nat, lo: real, hi: real, near: real -> bool)
      requires Linked() && 1 <= p <= |chain| && (p < |chain| ==> chain[p].score >= hi)
      ensures Window(Keys()[..p - 1], lo, hi, near) == Window(Keys(), lo, hi, near)
    {
      var a, b := Keys()[..p - 1], Keys()[p - 1..];
      assert Keys() == a + b;
      forall i | 0 <= i < |b| ensures !Within(b[i], lo, hi) {
        KeyAt(p);
        assert b[i] == Keys()[p - 1 + i];
        assert i > 0 ==> Before(Keys()[p - 1], Keys()[p - 1 + i]);
      }
      WindowConcat(a, b, lo, hi, near);
      WindowNone(b, lo, hi, near);
    }

    /** The nodes up to position `k` are exactly those not after its key. */
    lemma RanksUpTo(k: nat)
      requires Linked() && 1 <= k < |chain|
      ensures forall p :: 1 <= p < |chain| ==> (NotAfter(KeyOf(chain[p]), KeyOf(chain[k])) <==> p <= k)
    {
      forall p | 1 <= p < |chain|
        ensures NotAfter(KeyOf(chain[p]), KeyOf(chain[k])) <==> p <= k
      {
        var a, b := Keys()[p - 1], Keys()[k - 1];
        if p > k {
          assert Before(b, a);
          BeforeIrreflexive(a);
          if Before(a, b) {
            BeforeTransitive(a, b, a);
          }
        }
      }
    }

    /** The result of a search from the top level down: on each level the last node before the
        searched position, with its distance from the head. */
    ghost predicate Located(update: seq<Node>, rank: seq<int>, k: nat)
      reads this
    {
      && |update| == |rank| == MAX_LEVEL && k < |chain| && rank[0] == k
      && forall j :: 0 <= j < MAX_LEVEL ==> LocatedAt(update[j], rank[j], k, j)
    }

    ghost predicate LocatedAt(u: Node, r: int, k: nat, level: nat)
      reads this
    {
      0 <= r <= k < |chain| && u == chain[r] && level < Height(u) && Next(chain, r, level) > k
    }

    /** The positions up to `k` are exactly those before `key`. */
    lemma PrefixBefore(key: Key) returns (k: nat)
      requires Linked()
      ensures k == Position(Keys(), key) < |chain|
      ensures forall p :: 1 <= p < |chain| ==> (Before(KeyOf(chain[p]), key) <==> p <= k)
    {
      k := Position(Keys(), key);
      PositionSplits(Keys(), key);
      forall p | 1 <= p < |chain| ensures Before(KeyOf(chain[p]), key) <==> p <= k {
        assert Keys()[p - 1] == KeyOf(chain[p]);
      }
    }

    /** Where a search for `key` that has come to position `p` stops, with `levels` levels to go. */
    ghost function Stop(key: Key, p: nat, levels: nat): (k: nat)
      requires p < |chain|
      reads `chain, chain
      ensures p <= k < |chain|
      decreases levels, |chain| - p
    {
      if levels == 0 then p
      else
        var q := Next(chain, p, levels - 1);
        if q < |chain| && Before(KeyOf(chain[q]), key) then Stop(key, q, levels) else Stop(key, p, levels - 1)
    }

    /** It stops behind a node before the key, in front of one that is not. */
    ghost predicate StopsAt(key: Key, k: nat)
      reads `chain, chain
    {
      && k < |chain| && (k > 0 ==> Before(KeyOf(chain[k]), key))
      && (k + 1 < |chain| ==> !Before(KeyOf(chain[k + 1]), key))
    }

    /** The node after `u` on its level is not before the key. */
    ghost predicate Turned(r: int, level: nat, key: Key)
      reads `chain, chain
    {
      0 <= r < |chain| && var q := Next(chain, r, level); q < |chain| ==> !Before(KeyOf(chain[q]), key)
    }

    /** Walking on at a lower level does not pass the node an upper level has turned at. */
    lemma StaysBehind(u: Node, r: int, p: nat, level: nat, lower: nat, key: Key)
      requires LocatedAt(u, r, p, level) && Turned(r, level, key) && lower < level
      requires Next(chain, p, lower) < |chain| && Before(KeyOf(chain[Next(chain, p, lower)]), key)
      ensures LocatedAt(u, r, Next(chain, p, lower), level)
    {
    }

    /** In a sorted list the search stops at the key's position. */
    lemma StopsAtPosition(key: Key, k: nat)
      requires Linked() && StopsAt(key, k)
      ensures k == Position(Keys(), key)
    {
      hide Less, Before, Position;
      var n := PrefixBefore(key);
      assert k > 0 ==> k <= n;
      assert k + 1 < |chain| ==> !(k + 1 <= n);
    }

    /** A position that the search for the key can come to. */
    ghost predicate Passed(r: int, key: Key)
      reads `chain, chain
    {
      0 <= r < |chain| && (r > 0 ==> Before(KeyOf(chain[r]), key))
    }

    /** The search of insertion and removal, from the top level down. */
    method Locate(key: Key) returns (update: seq<Node>, rank: seq<int>, ghost k: nat)
      requires Levelled()
      ensures Located(update, rank, k) && StopsAt(key, k) && k == Stop(key, 0, MAX_LEVEL)
      ensures forall j :: 0 <= j < MAX_LEVEL ==> Passed(rank[j], key)
    {
      hide Linked, Levelled, Framed, WellFramed, Separate, LevelOk, Links, Sorted, Keys, KeysOf, Next, Less, Before,
        Position, LocatedAt, Turned, Stop;
      Basics();
      EverywhereHere();
      update := seq(MAX_LEVEL, _ => head);
      rank := seq(MAX_LEVEL, _ => 0);
      var curr: Node := head;
      k := 0;
      for i := MAX_LEVEL downto 0
        invariant |update| == |rank| == MAX_LEVEL
        invariant k < |chain| && curr == chain[k] && Height(curr) >= i && (k > 0 ==> Before(KeyOf(chain[k]), key))
        invariant if i == MAX_LEVEL then k == 0 else rank[i] == k
        invariant forall j :: i <= j < MAX_LEVEL ==>
          LocatedAt(update[j], rank[j], k, j) && Turned(rank[j], j, key) && Passed(rank[j], key)
        invariant Stop(key, k, i) == Stop(key, 0, MAX_LEVEL)
      {
        rank := rank[i := if i == MAX_LEVEL - 1 then 0 else rank[i + 1]];
        curr, rank, k := WalkLevel(curr, key, i, update, rank, k);
        update := update[i := curr];
      }
      BottomTurn(key, rank[0]);
      NoLevelsLeft(key, k);
    }

    lemma NoLevelsLeft(key: Key, k: nat)
      requires k < |chain|
      ensures Stop(key, k, 0) == k
    {
    }

    /** The search on one level. */
    method WalkLevel(start: Node, key: Key, level: nat, ghost update: seq<Node>, ranks: seq<int>, ghost from: nat)
      returns (curr: Node, rank: seq<int>, ghost k: nat)
      requires Levelled() && level < MAX_LEVEL == |ranks| == |update|
      requires from < |chain| && start == chain[from] && level < Height(start) && ranks[level] == from
      requires from > 0 ==> Before(KeyOf(chain[from]), key)
      requires forall j :: level < j < MAX_LEVEL ==> LocatedAt(update[j], ranks[j], from, j) && Turned(ranks[j], j, key)
      ensures k < |chain| && curr == chain[k] && level < Height(curr) && (k > 0 ==> Before(KeyOf(chain[k]), key))
      ensures rank == ranks[level := k]
      ensures LocatedAt(curr, k, k, level) && Turned(k, level, key)
      ensures forall j :: level < j < MAX_LEVEL ==> LocatedAt(update[j], rank[j], k, j)
      ensures Stop(key, k, level) == Stop(key, from, level + 1)
    {
      hide Linked, Levelled, Framed, WellFramed, Separate, LevelOk, Links, Sorted, Keys, KeysOf, Next, Less, Before,
        Position, LocatedAt, Turned, Stop;
      EverywhereHere();
      curr, rank, k := start, ranks, from;
      while curr.forward[level] != null && Before(KeyOf(curr.forward[level]), key)
        invariant |rank| == MAX_LEVEL && rank == ranks[level := k] && Here(curr, k, level)
        invariant k > 0 ==> Before(KeyOf(chain[k]), key)
        invariant forall j :: level < j < MAX_LEVEL ==> LocatedAt(update[j], rank[j], k, j)
        invariant Stop(key, k, level + 1) == Stop(key, from, level + 1)
        decreases |chain| - k
      {
        ghost var next := Next(chain, k, level);
        StopHere(curr, k, level, key);
        forall j | level < j < MAX_LEVEL ensures LocatedAt(update[j], rank[j], next, j) {
          StaysBehind(update[j], rank[j], k, j, level, key);
        }
        rank := rank[level := rank[level] + curr.span[level]];
        curr := curr.forward[level];
        k := next;
      }
      TurnedHere(curr, k, level, key);
      StopHere(curr, k, level, key);
    }

    lemma StopHere(curr: Node, k: nat, level: nat, key: Key)
      requires Here(curr, k, level)
      ensures var f := curr.forward[level];
        if f != null && Before(KeyOf(f), key)
        then Next(chain, k, level) < |chain| && Stop(key, k, level + 1) == Stop(key, Next(chain, k, level), level + 1)
        else Stop(key, k, level + 1) == Stop(key, k, level)
    {
      hide Next, Before;
    }

    lemma TurnedHere(curr: Node, k: nat, level: nat, key: Key)
      requires Here(curr, k, level) && (curr.forward[level] != null ==> !Before(KeyOf(curr.forward[level]), key))
      ensures LocatedAt(curr, k, k, level) && Turned(k, level, key)
    {
    }

    lemma BottomTurn(key: Key, k: int)
      requires Levelled() && Turned(k, 0, key)
      ensures k + 1 < |chain| ==> !Before(KeyOf(chain[k + 1]), key)
    {
      hide Before, Less;
      Basics();
    }

    lemma NodesApart()
      requires Levelled()
      ensures this !in arrays && Separate(chain, arrays) && forall m :: m in chain ==> m !in arrays
    {
      forall m | m in chain ensures m !in arrays {
        var i :| 0 <= i < |chain| && chain[i] == m;
      }
    }

    lemma KeysDistinct()
      requires Framed()
      ensures MembersDistinct(Keys())
      ensures forall i :: 0 <= i < |Keys()| ==> Keys()[i].member in dictionary
    {
      forall i, j | 0 <= i < j < |Keys()| ensures Keys()[i].member != Keys()[j].member {
        assert Keys()[i].member == chain[i + 1].member && Keys()[j].member == chain[j + 1].member;
      }
    }

    lemma AbsentKey(key: Key)
      requires Levelled() && key.member !in dictionary
      ensures |KeysOf(chain)| == |chain| > 0 && key !in Keys()
    {
      KeysDistinct();
    }

    /** The key stands between one before it and one that is not; in a sorted list that is its one place. */
    ghost predicate PutIn(ks: seq<Key>, key: Key, r: seq<Key>)
    {
      exists k :: 0 <= k <= |ks| && PutAt(ks, key, k, r)
    }

    ghost predicate PutAt(ks: seq<Key>, key: Key, k: nat, r: seq<Key>)
      requires k <= |ks|
    {
      && r == ks[..k] + [key] + ks[k..]
      && (k > 0 ==> Before(ks[k - 1], key)) && (k < |ks| ==> !Before(ks[k], key))
    }

    /** Adds an absent member where the search stops, which in a sorted list is its sorted place; the
        server draws `height` at random. A present member only has its score overwritten where it stands. */
    method InsertElement(member: Bytes, score: real, height: nat)
      requires Levelled() && 1 <= height <= MAX_LEVEL
      modifies this, chain, arrays
      ensures fresh(arrays - old(arrays)) && |chain| > 0 && Levelled()
      ensures forall n :: n in chain ==> n in old(chain) || (fresh(n) && Height(n) == height)
      ensures member !in old(dictionary) ==>
        && PutIn(old(Keys()), Key(score, member), Keys()) && length == old(length) + 1
        && (old(Linked()) ==> Linked() && Keys() == InsertKey(old(Keys()), Key(score, member)))
      ensures member in old(dictionary) ==>
        && Framed() && Keys() == Rescored(old(Keys()), member, score) && length == old(length)
        && (old(Linked()) ==> (Linked() <==> KeepsNeighbours(old(Keys()), member, score)))
      ensures dictionary.Keys == old(dictionary.Keys) + {member}
    {
      hide Linked, Levelled, WellFramed, KeysOf, Keys, InsertKey, Rescored, KeepsNeighbours, PutIn;
      NodesApart();
      HeadFirst();
      if member in dictionary {
        Rescore(member, score);
      } else {
        var newNode := new Node(member, score, height);
        length := length + 1;
        Add(newNode);
        HeadFirst();
      }
    }

    /** Overwriting a score where it stands leaves a sorted skip list exactly when the neighbours allow it. */
    method Rescore(member: Bytes, score: real)
      requires Levelled() && member in dictionary
      modifies chain
      ensures Levelled() && Framed() && Keys() == Rescored(old(Keys()), member, score)
      ensures old(Linked()) ==> (Linked() <==> KeepsNeighbours(old(Keys()), member, score))
    {
      hide Before, Less, Rescored, Separate, Next, Links, Sorted, KeepsNeighbours, MembersDistinct;
      KeysDistinct();
      ghost var ks := Keys();
      var oldNode := dictionary[member];
      oldNode.score := score;
      forall i | 0 <= i < |ks| ensures Keys()[i] == Rescored(ks, member, score)[i] {
        assert KeysOf(chain)[i + 1] == KeyOf(chain[i + 1]) && ks[i] == old(KeysOf(chain)[i + 1]);
      }
      assert Keys() == Rescored(ks, member, score);
      if Sorted(ks) {
        RescoredSorted(ks, member, score);
      }
    }

    /** Links a new node in on all its levels and stretches the spans above it. */
    method Add(newNode: Node)
      requires Levelled() && Addable(newNode)
      modifies this, arrays, newNode.forward, newNode.span
      ensures Levelled() && PutIn(old(Keys()), KeyOf(newNode), Keys()) && length == old(length)
      ensures old(Linked()) ==> Linked() && Keys() == InsertKey(old(Keys()), KeyOf(newNode))
      ensures arrays == old(arrays) + {newNode.forward as object, newNode.span}
      ensures forall n :: n in chain ==> n in old(chain) || n == newNode
      ensures dictionary.Keys == old(dictionary.Keys) + {newNode.member}
    {
      hide WellFramed, Separate, Next, Link, Links, LevelOk, KeysOf, Before, Less, Sorted, Position, Insertion,
        InsertKey, PutIn;
      ghost var c := SearchAndSplice(newNode);
      dictionary := dictionary[newNode.member := newNode];
      chain, arrays := c, arrays + {newNode.forward as object, newNode.span};
    }

    ghost predicate Addable(n: Node)
      reads this
    {
      && n.member !in dictionary && n !in chain
      && 1 <= Height(n) == n.span.Length <= MAX_LEVEL
      && {n as object, n.forward, n.span} !! arrays
    }

    method SearchAndSplice(n: Node) returns (ghost c: seq<Node>)
      requires Levelled() && Addable(n)
      modifies arrays, n.forward, n.span
      ensures WellFramed(head, c, arrays + {n.forward as object, n.span}, dictionary[n.member := n])
      ensures forall j :: 0 <= j < MAX_LEVEL ==> LevelOk(c, j)
      ensures |c| > 0 && PutIn(old(Keys()), KeyOf(n), KeysOf(c)[1..])
      ensures old(Linked()) ==> KeysOf(c)[1..] == InsertKey(old(Keys()), KeyOf(n)) && Sorted(KeysOf(c)[1..])
      ensures forall m :: m in c ==> m in chain || m == n
    {
      hide WellFramed, Separate, Next, Link, Links, LevelOk, KeysOf, Before, Less, Sorted, Position, Insertion,
        InsertKey, Inserted, PutIn, StopsAt;
      NodesApart();
      AbsentKey(KeyOf(n));
      var update, rank, k := Locate(KeyOf(n));
      c := Insertion(chain, k, n);
      FramedInsert(head, chain, arrays, dictionary, k, n, c);
      StopPutsIn(n, k, c);
      InsertedContains(chain, k, n, c);
      ghost var keys := KeysOf(c);
      Splice(n, update, rank, k, c, arrays + {n.forward as object, n.span});
      assert KeysOf(c) == keys;
    }

    /** What a node put in where the search stops does to the keys. */
    lemma StopPutsIn(n: Node, k: nat, c: seq<Node>)
      requires Levelled() && n.member !in dictionary && StopsAt(KeyOf(n), k) && Inserted(chain, k, n, c)
      ensures |c| > 0 && PutIn(Keys(), KeyOf(n), KeysOf(c)[1..])
      ensures Linked() ==> KeysOf(c)[1..] == InsertKey(Keys(), KeyOf(n)) && Sorted(KeysOf(c)[1..])
    {
      hide Next, LevelOk, WellFramed, Before, Less, Sorted, Position, InsertKey, KeysOf;
      Basics();
      AbsentKey(KeyOf(n));
      KeysPutIn(chain, k, n, c);
      StopNeighbours(KeyOf(n), k);
      assert PutAt(Keys(), KeyOf(n), k, KeysOf(c)[1..]);
      if Linked() {
        StopsAtPosition(KeyOf(n), k);
        SortedInsert(Keys(), KeyOf(n));
        KeysInserted(chain, k, n, c);
      }
    }

    lemma StopNeighbours(key: Key, k: nat)
      requires Levelled() && StopsAt(key, k)
      ensures |Keys()| == |chain| - 1 && k <= |Keys()|
      ensures (k > 0 ==> Before(Keys()[k - 1], key)) && (k < |Keys()| ==> !Before(Keys()[k], key))
    {
      hide Before, Less, Levelled;
      KeyAt(k);
      if k + 1 < |chain| {
        KeyAt(k + 1);
      }
    }

    /** The insertion's second loop. */
    method Splice(n: Node, update: seq<Node>, rank: seq<int>, ghost k: nat, ghost c: seq<Node>, ghost all: set<object>)
      requires Located(update, rank, k) && Inserted(chain, k, n, c)
      requires all == arrays + {n.forward as object, n.span} && this !in all && Separate(c, all) &&
        Separate(chain, arrays)
      requires forall j :: 0 <= j < MAX_LEVEL ==> LevelOk(chain, j)
      modifies arrays, n.forward, n.span
      ensures forall j :: 0 <= j < MAX_LEVEL ==> LevelOk(c, j)
    {
      for i := 0 to MAX_LEVEL
        modifies arrays, n.forward, n.span
        invariant forall j :: 0 <= j < i ==> LevelOk(c, j)
        invariant forall j :: i <= j < MAX_LEVEL ==> LevelOk(chain, j)
      {
        assert LocatedAt(update[i], rank[i], k, i);
        SpliceLevel(update[i], rank[i], n, rank[0], i, c, all);
      }
    }

    /** One round of that loop, seen on the whole chain: its level turns from the old chain's into
        the new one's, and no other level changes. */
    method SpliceLevel(u: Node, r: int, n: Node, k: int, level: nat, ghost c: seq<Node>, ghost all: set<object>)
      requires 0 <= k && LocatedAt(u, r, k, level) && Inserted(chain, k, n, c) && Separate(c, all)
      requires LevelOk(chain, level)
      modifies u.forward, u.span, n.forward, n.span
      ensures LevelOk(c, level)
      ensures forall j: nat {:trigger LevelOk(c, j)} :: j != level && old(LevelOk(c, j)) ==> LevelOk(c, j)
      ensures forall j: nat {:trigger LevelOk(chain, j)} :: j != level && old(LevelOk(chain, j)) ==> LevelOk(chain, j)
    {
      hide Next, Link, Links, Separate, Inserted;
      ghost var fs, ss := Forwards(chain, level), Spans(chain, level);
      SplicedNodes(n, k, c, all, r);
      InsertOnLevel(u, r, n, k, level, c, all);
      forall j: nat | j != level
        ensures old(LevelOk(c, j)) ==> LevelOk(c, j)
        ensures old(LevelOk(chain, j)) ==> LevelOk(chain, j)
      {
        assert Forwards(c, j) == old(Forwards(c, j)) && Spans(c, j) == old(Spans(c, j));
        assert Forwards(chain, j) == old(Forwards(chain, j)) && Spans(chain, j) == old(Spans(chain, j));
      }
      forall p {:trigger chain[p]} | 0 <= p < |chain| && chain[p] != chain[r]
        ensures ForwardAt(chain[p], level) == fs[p] && SpanAt(chain[p], level) == ss[p]
      {
        assert chain[p] in c && chain[p] != n;
        assert fs[p] == old(ForwardAt(chain[p], level)) && ss[p] == old(SpanAt(chain[p], level));
      }
      LevelInserted(chain, k, n, c, all, r, level, fs, ss);
    }

    lemma SplicedNodes(n: Node, k: nat, c: seq<Node>, all: set<object>, r: nat)
      requires Inserted(chain, k, n, c) && Separate(c, all) && r <= k
      ensures forall m :: m in chain ==> m in c && m != n
      ensures n in c && chain[r] in c
    {
      InsertedContains(chain, k, n, c);
      assert c[r] == chain[r] && c[k + 1] == n;
      forall m | m in chain ensures m != n {
        var i :| 0 <= i < |chain| && chain[i] == m;
        Apart(c, all, if i <= k then i else i + 1, k + 1);
      }
    }

    /** The body of the insertion's second loop: splice the new node in on one level, or stretch the
        span that now covers it. `r` is the rank of `u`, `k` that of the new node's predecessor. */
    method InsertOnLevel(u: Node, r: int, n: Node, k: int, level: nat, ghost c: seq<Node>, ghost all: set<object>)
      requires Separate(c, all) && u in c && n in c && u != n && level < Height(u)
      modifies u.forward, u.span, n.forward, n.span
      ensures SameOffLevel(c, level)
      ensures forall m :: m in c && m != u && m != n ==>
        ForwardAt(m, level) == old(ForwardAt(m, level)) && SpanAt(m, level) == old(SpanAt(m, level))
      ensures if level < Height(n)
        then
          && ForwardAt(n, level) == old(ForwardAt(u, level))
          && ForwardAt(u, level) == n && SpanAt(u, level) == k - r + 1
          && (old(ForwardAt(u, level)) != null ==> SpanAt(n, level) == old(SpanAt(u, level)) - (k - r))
        else ForwardAt(u, level) == old(ForwardAt(u, level)) && SpanAt(u, level) == old(SpanAt(u, level)) + 1
    {
      ApartNodes(c, all, u);
      ApartNodes(c, all, n);
      hide Separate;
      if level < n.forward.Length {
        if u.forward[level] == null {
          u.span[level] := length + 1 - r;
        }
        n.span[level] := u.span[level] - (k - r);
        u.span[level] := k - r + 1;
        n.forward[level] := u.forward[level];
        u.forward[level] := n;
      } else {
        u.span[level] := u.span[level] + 1;
      }
    }

    /** No node as tall as the list stands at the member's place or after it: the guard under which
        the removal loop, which never visits the top level, leaves that level right. */
    ghost predicate TopLevelBefore(member: Bytes)
      requires member in dictionary
      reads `chain, `dictionary
    {
      forall p, q :: 1 <= p <= q < |chain| && chain[p] == dictionary[member] ==> Height(chain[q]) < MAX_LEVEL
    }

    /** The search for the member stops right in front of it. */
    ghost predicate StopsInFront(member: Bytes)
      requires |chain| > 0 && member in dictionary
      reads `chain, `dictionary, chain, dictionary.Values
    {
      var k := Stop(KeyOf(dictionary[member]), 0, MAX_LEVEL); InFront(k, dictionary[member])
    }

    ghost predicate InFront(k: nat, element: Node)
      reads `chain
    {
      k + 1 < |chain| && chain[k + 1] == element
    }

    /** On the bottom level every node is followed by the next one of the chain. */
    ghost predicate BottomInOrder()
      reads `chain, set n | n in chain :: n.forward
    {
      forall p {:trigger chain[p]} :: 0 <= p < |chain| ==>
        ForwardAt(chain[p], 0) == if p + 1 < |chain| then chain[p + 1] else null
    }

    lemma HeadFirst()
      requires Levelled()
      ensures |chain| > 0 && chain[0] == head && Framed()
    {
    }

    lemma ChainNotEmpty()
      requires Framed()
      ensures |chain| > 0
    {
    }

    lemma NoTopLevel(member: Bytes)
      requires Levelled() && member in dictionary
      requires forall n :: n in chain && n != head ==> Height(n) < MAX_LEVEL
      ensures TopLevelBefore(member)
    {
      NodesApart();
      HeadFirst();
      forall q | 1 <= q < |chain| ensures Height(chain[q]) < MAX_LEVEL {
        Apart(chain, arrays, 0, q);
        assert chain[q] in chain;
      }
    }

    /** Takes the member out of every level but the top one, if the search for it stops right in front of it,
        as it does in every sorted list. Otherwise the member leaves the table while its node stays linked. */
    method RemoveElementByName(member: Bytes)
      requires Levelled()
      modifies this, arrays
      ensures arrays == old(arrays) && |chain| > 0 && forall n :: n in chain ==> n in old(chain)
      ensures member !in old(dictionary) ==> unchanged(this) && Levelled() && (old(Linked()) ==> Linked())
      ensures member in old(dictionary) ==> length == old(length) - 1
      ensures member in old(dictionary) && old(StopsInFront(member)) ==>
        && Framed() && Keys() == RemoveMember(old(Keys()), member)
        && (Levelled() <==> old(TopLevelBefore(member)))
        && (old(Linked()) ==> (Linked() <==> Levelled()))
      ensures member in old(dictionary) && !old(StopsInFront(member)) ==>
        && !Framed() && chain == old(chain) && Keys() == old(Keys()) && BottomInOrder()
      ensures old(Linked()) && member in old(dictionary) ==> old(StopsInFront(member))
      ensures dictionary == old(dictionary) - {member}
    {
      hide WellFramed, Separate, Next, Link, Links, LevelOk, KeysOf, Before, Less, Sorted, Deletion, RemoveMember,
        Deleted, TopLevelBefore, Stop, StopsAt, BottomInOrder;
      NodesApart();
      HeadFirst();
      if member in dictionary {
        ghost var k := PlaceOf(member);
        ghost var inFront := UnlinkBelowTop(member, k);
        length := length - 1;
        dictionary := dictionary - {member};
        if inFront {
          chain := Deletion(chain, k + 1);
          ChainNotEmpty();
          assert Levelled() <==> LevelOk(chain, MAX_LEVEL - 1);
        } else {
          NodeWithoutEntry(member, k + 1);
        }
      }
    }

    lemma NodeWithoutEntry(member: Bytes, e: nat)
      requires 1 <= e < |chain| && chain[e].member == member && member !in dictionary
      ensures !Framed()
    {
    }

    /** The removal's search and loop, before `length` and the member table are brought up to date. */
    method UnlinkBelowTop(member: Bytes, ghost k: nat) returns (ghost inFront: bool)
      requires Levelled() && member in dictionary && InFront(k, dictionary[member])
      modifies arrays
      ensures inFront <==> old(StopsInFront(member))
      ensures inFront ==>
        var c := Deletion(chain, k + 1);
        && WellFramed(head, c, arrays, dictionary - {member})
        && (forall j :: 0 <= j < MAX_LEVEL - 1 ==> LevelOk(c, j))
        && (LevelOk(c, MAX_LEVEL - 1) <==> old(TopLevelBefore(member)))
        && KeysOf(c)[1..] == RemoveMember(old(Keys()), member)
        && (old(Linked()) ==> Sorted(KeysOf(c)[1..]))
        && forall m :: m in c ==> m in chain
      ensures !inFront ==> BottomInOrder()
      ensures old(Linked()) ==> inFront
    {
      hide WellFramed, Separate, Next, Link, Links, LevelOk, KeysOf, Before, Less, Sorted, Position, Deletion,
        RemoveMember, Deleted, Stop, StopsAt, BottomInOrder, TopLevelBefore, Passed;
      var element := dictionary[member];
      CutAtPlace(member, k);
      ghost var c := Deletion(chain, k + 1);
      NodesApart();
      FramedDelete(head, chain, arrays, dictionary, k + 1, c);
      DeletedContains(chain, k + 1, c);
      TopLevelCondition(member, k + 1);
      Basics();
      var update, rank, stop := Locate(KeyOf(element));
      SortedStopsInFront(member, k, stop);
      inFront := stop == k;
      PlaceIsOne(k, stop, element);
      PassesOthers(k, element, update, rank, stop);
      Unsplice(element, update, rank, stop, c);
      assert KeysOf(chain) == old(KeysOf(chain));
      DeletedContains(chain, k + 1, c);
      KeysDeleted(chain, k, c);
    }

    /** The search passes only nodes before the element, so not the element itself. */
    lemma PassesOthers(k: nat, element: Node, update: seq<Node>, rank: seq<int>, stop: nat)
      requires Levelled() && InFront(k, element) && Located(update, rank, stop)
      requires forall j :: 0 <= j < MAX_LEVEL ==> Passed(rank[j], KeyOf(element))
      ensures element in chain && element != chain[0] && forall j :: 0 <= j < MAX_LEVEL ==> update[j] != element
    {
      NodesApart();
      hide Levelled, Before, Less, Next;
      Apart(chain, arrays, 0, k + 1);
      BeforeIrreflexive(KeyOf(element));
      forall j | 0 <= j < MAX_LEVEL ensures update[j] != element {
        assert LocatedAt(update[j], rank[j], stop, j) && Passed(rank[j], KeyOf(element));
      }
    }

    lemma PlaceIsOne(k: nat, stop: nat, element: Node)
      requires Levelled() && InFront(k, element)
      ensures InFront(stop, element) <==> stop == k
    {
      NodesApart();
      hide Levelled;
      if stop != k && stop + 1 < |chain| {
        Apart(chain, arrays, k + 1, stop + 1);
      }
    }

    /** The place of a member's node. */
    lemma PlaceOf(member: Bytes) returns (k: nat)
      requires Levelled() && member in dictionary
      ensures InFront(k, dictionary[member]) && chain[k + 1].member == member
    {
      var e := PositionOf(member);
      k := e - 1;
    }

    /** Removing a member by name cuts its own node's key out. */
    lemma CutAtPlace(member: Bytes, k: nat)
      requires Levelled() && member in dictionary && InFront(k, dictionary[member])
      ensures |KeysOf(chain)| == |chain| && chain[k + 1].member == member
      ensures RemoveMember(Keys(), member) == Keys()[..k] + Keys()[k + 1..]
      ensures Linked() ==> Sorted(Keys()[..k] + Keys()[k + 1..])
    {
      var e := PositionOf(member);
      PlaceIsOne(k, e - 1, dictionary[member]);
      KeysDistinct();
      RemoveMemberAt(Keys(), k);
      if Linked() {
        SortedRemove(Keys(), k);
      }
    }

    /** A search for a member that is in place stops right in front of it, whatever the heights. */
    lemma InPlaceIsFound(member: Bytes)
      requires Levelled() && member in dictionary && InPlace(Keys(), member)
      ensures StopsInFront(member)
    {
      hide InPlace, StopsAt, Stop;
      var k := PlaceOf(member);
      SearchStopsAt(KeyOf(dictionary[member]));
      InPlaceInFront(member, k, Stop(KeyOf(dictionary[member]), 0, MAX_LEVEL));
    }

    lemma InPlaceInFront(member: Bytes, k: nat, stop: nat)
      requires Levelled() && member in dictionary && InPlace(Keys(), member)
      requires InFront(k, dictionary[member]) && chain[k + 1].member == member
      requires StopsAt(KeyOf(dictionary[member]), stop)
      ensures stop == k
    {
      hide Less, Before;
      forall p | 1 <= p < |chain| ensures Before(KeyOf(chain[p]), KeyOf(chain[k + 1])) <==> p < k + 1 {
        assert Keys()[p - 1] == KeyOf(chain[p]) && Keys()[k] == KeyOf(chain[k + 1]);
      }
    }

    lemma {:induction false} StopFacts(key: Key, p: nat, levels: nat)
      requires p < |chain|
      ensures var k := Stop(key, p, levels);
        && (k == p || Before(KeyOf(chain[k]), key))
        && (levels > 0 ==> var q := Next(chain, k, 0); q < |chain| ==> !Before(KeyOf(chain[q]), key))
      decreases levels, |chain| - p
    {
      hide Before, Less, Next;
      if levels > 0 {
        var q := Next(chain, p, levels - 1);
        if q < |chain| && Before(KeyOf(chain[q]), key) {
          StopFacts(key, q, levels);
        } else {
          StopFacts(key, p, levels - 1);
        }
      }
    }

    lemma SearchStopsAt(key: Key)
      requires Levelled()
      ensures StopsAt(key, Stop(key, 0, MAX_LEVEL))
    {
      hide Before, Less, Stop;
      Basics();
      StopFacts(key, 0, MAX_LEVEL);
    }

    /** Where a list has one level only, the search finds a member exactly if all keys in front of it come before it. */
    lemma FlatInFrontIff(member: Bytes)
      requires Levelled() && member in dictionary && forall p :: 1 <= p < |chain| ==> Height(chain[p]) == 1
      ensures StopsInFront(member) <==>
        forall p, e :: 1 <= p < e < |chain| && chain[e] == dictionary[member] ==>
          Before(KeyOf(chain[p]), KeyOf(chain[e]))
    {
      hide Less, Before, Stop;
      var k := PlaceOf(member);
      var key := KeyOf(dictionary[member]);
      var stop := Stop(key, 0, MAX_LEVEL);
      FlatStop(key, 0, MAX_LEVEL);
      SearchStopsAt(key);
      PlaceIsOne(k, stop, dictionary[member]);
      BeforeIrreflexive(key);
      assert forall e :: 1 <= e < |chain| && chain[e] == dictionary[member] ==> e == k + 1 by {
        PlaceOfNode(member, k + 1);
      }
    }

    lemma {:induction false} FlatStop(key: Key, p: nat, levels: nat)
      requires p < |chain| && forall q :: 1 <= q < |chain| ==> Height(chain[q]) == 1
      ensures forall q :: p < q <= Stop(key, p, levels) ==> Before(KeyOf(chain[q]), key)
      decreases levels, |chain| - p
    {
      hide Before, Less;
      if levels > 0 {
        var q := Next(chain, p, levels - 1);
        if q < |chain| && Before(KeyOf(chain[q]), key) {
          FlatStop(key, q, levels);
        } else {
          FlatStop(key, p, levels - 1);
        }
      }
    }

    /** A smaller key behind the member on a node taller than all in front of it makes the search skip the member. */
    lemma TallNodeSkips(member: Bytes, e: nat, j: nat)
      requires Levelled() && member in dictionary && 1 <= e < j < |chain| && chain[e] == dictionary[member]
      requires Before(KeyOf(chain[j]), KeyOf(chain[e]))
      requires forall q :: 1 <= q < j ==> Height(chain[q]) < Height(chain[j])
      ensures !StopsInFront(member)
    {
      hide Less, Before, Stop;
      NodesApart();
      ReachesTall(KeyOf(chain[e]), MAX_LEVEL, j);
      PlaceIsOne(e - 1, Stop(KeyOf(chain[e]), 0, MAX_LEVEL), chain[e]);
    }

    lemma {:induction false} ReachesTall(key: Key, levels: nat, j: nat)
      requires 1 <= j < |chain| && Before(KeyOf(chain[j]), key) && Height(chain[j]) <= levels
      requires forall q :: 1 <= q < j ==> Height(chain[q]) < Height(chain[j])
      ensures Height(chain[j]) > 0 ==> Stop(key, 0, levels) >= j
    {
      hide Before, Less;
      if Height(chain[j]) > 0 {
        var q := Next(chain, 0, levels - 1);
        assert q >= j;
        if !(q < |chain| && Before(KeyOf(chain[q]), key)) {
          assert q != j;
          ReachesTall(key, levels - 1, j);
        }
      }
    }

    lemma SortedStopsInFront(member: Bytes, k: nat, stop: nat)
      requires Levelled() && member in dictionary
      requires InFront(k, dictionary[member]) && chain[k + 1].member == member
      requires StopsAt(KeyOf(dictionary[member]), stop)
      ensures Linked() ==> stop == k
    {
      hide StopsAt, InPlace, Sorted;
      HeadFirst();
      if Linked() {
        SortedInPlace(Keys(), member);
        InPlaceInFront(member, k, stop);
      }
    }

    lemma TopLevelCondition(member: Bytes, e: nat)
      requires Levelled() && member in dictionary && 1 <= e < |chain| && chain[e] == dictionary[member]
      ensures TopLevelBefore(member) <==> forall p :: e <= p < |chain| ==> Height(chain[p]) <= MAX_LEVEL - 1
    {
      PlaceOfNode(member, e);
    }

    lemma PlaceOfNode(member: Bytes, e: nat)
      requires Levelled() && member in dictionary && 1 <= e < |chain| && chain[e] == dictionary[member]
      ensures forall p :: 1 <= p < |chain| && chain[p] == dictionary[member] ==> p == e
    {
      NodesApart();
      hide Levelled;
      forall p | 1 <= p < |chain| && p != e ensures chain[p] != dictionary[member] {
        Apart(chain, arrays, p, e);
      }
    }

    /** The removal's loop: every level but the top one. It bridges the element's node if the search has
        stopped in front of it; otherwise no bottom link changes. */
    method Unsplice(element: Node, update: seq<Node>, ghost rank: seq<int>, ghost k: nat, ghost c: seq<Node>)
      requires Located(update, rank, k) && this !in arrays && element in chain && element != chain[0]
      requires forall j :: 0 <= j < MAX_LEVEL ==> update[j] != element
      requires (InFront(k, element) ==> Deleted(chain, k + 1, c)) && forall m :: m in c ==> m in chain
      requires Separate(chain, arrays) && Height(chain[0]) == MAX_LEVEL
      requires forall j :: 0 <= j < MAX_LEVEL ==> LevelOk(chain, j)
      modifies arrays
      ensures InFront(k, element) ==>
        && (forall j :: 0 <= j < MAX_LEVEL - 1 ==> LevelOk(c, j))
        && (LevelOk(c, MAX_LEVEL - 1) <==> forall p :: k + 1 <= p < |chain| ==> Height(chain[p]) <= MAX_LEVEL - 1)
      ensures !InFront(k, element) ==> BottomInOrder()
    {
      hide Next, Link, Links, Separate, Deleted, Before, Less, BottomInOrder, LevelOk, LocatedAt, InFront;
      BottomOk();
      for i := 0 to MAX_LEVEL - 1
        modifies arrays
        invariant InFront(k, element) ==> forall j :: 0 <= j < i ==> LevelOk(c, j)
        invariant forall j :: i <= j < MAX_LEVEL ==> LevelOk(chain, j)
        invariant !InFront(k, element) ==> BottomInOrder()
      {
        LocatedNode(update[i], rank[i], k, i);
        UnspliceLevel(update[i], rank[i], element, k, i, c);
      }
      if InFront(k, element) {
        TopLevelLeftAlone(element, k, c);
      }
    }

    lemma TopLevelLeftAlone(element: Node, k: nat, c: seq<Node>)
      requires InFront(k, element) && Deleted(chain, k + 1, c) && Separate(chain, arrays)
      requires Height(chain[0]) == MAX_LEVEL && LevelOk(chain, MAX_LEVEL - 1)
      ensures LevelOk(c, MAX_LEVEL - 1) <==> forall p :: k + 1 <= p < |chain| ==> Height(chain[p]) <= MAX_LEVEL - 1
    {
      hide Next, Link, Links, Separate, Deleted, Forwards, Spans;
      var top := MAX_LEVEL - 1;
      DeletedEntries(chain, k + 1, c, top);
      LevelLeftAlone(chain, k + 1, c, arrays, top, Forwards(chain, top), Spans(chain, top), Forwards(c, top),
        Spans(c, top));
    }

    lemma LocatedNode(u: Node, r: int, k: nat, level: nat)
      requires LocatedAt(u, r, k, level) && Separate(chain, arrays)
      ensures u.forward in arrays && u.span in arrays
    {
      ApartNodes(chain, arrays, u);
    }

    lemma BottomOk()
      requires Separate(chain, arrays) && LevelOk(chain, 0)
      ensures BottomInOrder()
    {
      forall p {:trigger chain[p]} | 0 <= p < |chain|
        ensures ForwardAt(chain[p], 0) == if p + 1 < |chain| then chain[p + 1] else null
      {
        assert Forwards(chain, 0)[p] == ForwardAt(chain[p], 0);
      }
    }

    /** One round of that loop, seen on the whole chain. */
    method UnspliceLevel(u: Node, ghost r: int, element: Node, ghost k: nat, level: nat, ghost c: seq<Node>)
      requires LocatedAt(u, r, k, level) && element in chain && u != element
      requires (InFront(k, element) ==> Deleted(chain, k + 1, c)) && forall m :: m in c ==> m in chain
      requires Separate(chain, arrays) && LevelOk(chain, level)
      modifies u.forward, u.span
      ensures InFront(k, element) ==> LevelOk(c, level)
      ensures forall j: nat {:trigger LevelOk(c, j)} :: j != level && old(LevelOk(c, j)) ==> LevelOk(c, j)
      ensures forall j: nat {:trigger LevelOk(chain, j)} :: j != level && old(LevelOk(chain, j)) ==> LevelOk(chain, j)
      ensures !InFront(k, element) && old(BottomInOrder()) ==> BottomInOrder()
    {
      hide Next, Link, Links, Separate, Deleted, LevelOk;
      ghost var fs, ss := Forwards(chain, level), Spans(chain, level);
      LinkReaches(u, r, k, level, element, fs, ss);
      if InFront(k, element) {
        BridgeOrCover(r, k, level, element, c, fs, ss);
      }
      PatchLevel(u, element, level, c);
      if InFront(k, element) {
        forall p {:trigger chain[p]} | 0 <= p < |chain| && chain[p] != chain[r]
          ensures ForwardAt(chain[p], level) == fs[p] && SpanAt(chain[p], level) == ss[p]
        {
          assert chain[p] in chain && fs[p] == old(ForwardAt(chain[p], level)) && ss[p] == old(SpanAt(chain[p], level));
        }
        LevelDeleted(chain, k + 1, c, arrays, r, level, fs, ss);
      }
    }

    /** In front of the element's node, the level's pointer says whether it is bridged or covered. */
    lemma BridgeOrCover(r: nat, k: nat, level: nat, element: Node, c: seq<Node>, fs: seq<Node?>, ss: seq<int>)
      requires r <= k < |chain| && level < Height(chain[r]) && Next(chain, r, level) > k
      requires InFront(k, element) && Deleted(chain, k + 1, c) && Separate(chain, arrays) && LevelOk(chain, level)
      requires fs == Forwards(chain, level) && ss == Spans(chain, level)
      ensures Links(chain, level, fs, ss) && (fs[r] == element <==> level < Height(element))
      ensures fs[k + 1] == ForwardAt(element, level) && ss[k + 1] == SpanAt(element, level)
      ensures ss[r] == SpanAt(chain[r], level)
    {
      hide Next, Link, Separate, Deleted;
      LinkBridged(chain, k + 1, c, arrays, r, level, fs, ss);
    }

    /** One round seen on all levels of the chain, and of a chain of some of its nodes. */
    method PatchLevel(u: Node, element: Node, level: nat, ghost c: seq<Node>)
      requires Separate(chain, arrays) && u in chain && element in chain && u != element && level < Height(u)
      requires ForwardAt(u, level) == element ==> level < Height(element)
      requires forall m :: m in c ==> m in chain
      modifies u.forward, u.span
      ensures forall j: nat {:trigger LevelOk(c, j)} :: j != level && old(LevelOk(c, j)) ==> LevelOk(c, j)
      ensures forall j: nat {:trigger LevelOk(chain, j)} :: j != level && old(LevelOk(chain, j)) ==> LevelOk(chain, j)
      ensures (level == 0 ==> old(ForwardAt(u, 0)) != element) && old(BottomInOrder()) ==> BottomInOrder()
      ensures forall m :: m in chain && m != u ==>
        ForwardAt(m, level) == old(ForwardAt(m, level)) && SpanAt(m, level) == old(SpanAt(m, level))
      ensures if old(ForwardAt(u, level)) == element
        then
          && ForwardAt(u, level) == old(ForwardAt(element, level))
          && SpanAt(u, level) == old(SpanAt(u, level)) + old(SpanAt(element, level)) - 1
        else ForwardAt(u, level) == old(ForwardAt(u, level)) && SpanAt(u, level) == old(SpanAt(u, level)) - 1
    {
      hide Separate, Links;
      RemoveOnLevel(u, element, level);
      forall j: nat | j != level
        ensures old(LevelOk(c, j)) ==> LevelOk(c, j)
        ensures old(LevelOk(chain, j)) ==> LevelOk(chain, j)
      {
        assert Forwards(c, j) == old(Forwards(c, j)) && Spans(c, j) == old(Spans(c, j));
        assert Forwards(chain, j) == old(Forwards(chain, j)) && Spans(chain, j) == old(Spans(chain, j));
      }
      if (level == 0 ==> old(ForwardAt(u, 0)) != element) && old(BottomInOrder()) {
        forall p {:trigger chain[p]} | 0 <= p < |chain| ensures ForwardAt(chain[p], 0) == old(ForwardAt(chain[p], 0)) {
          assert chain[p] in chain;
        }
      }
    }

    /** What the search has found on a level: a pointer to a node tall enough, and on the bottom level the
        node after the place where it stops. */
    lemma LinkReaches(u: Node, r: int, k: nat, level: nat, element: Node, fs: seq<Node?>, ss: seq<int>)
      requires LocatedAt(u, r, k, level) && Separate(chain, arrays) && LevelOk(chain, level)
      requires fs == Forwards(chain, level) && ss == Spans(chain, level)
      ensures 0 <= r < |chain| && fs[r] == ForwardAt(u, level)
      ensures ForwardAt(u, level) == element ==> level < Height(element)
      ensures level == 0 && !InFront(k, element) ==> ForwardAt(u, level) != element
    {
      hide LevelOk, Links, Forwards, Spans, Separate, Next;
      LinkAt(r, level, fs, ss);
      if level == 0 {
        BottomNext(r);
      }
    }

    lemma LinkAt(r: nat, level: nat, fs: seq<Node?>, ss: seq<int>)
      requires r < |chain| && level < Height(chain[r]) && LevelOk(chain, level)
      requires fs == Forwards(chain, level) && ss == Spans(chain, level)
      ensures |fs| == |ss| == |chain| && fs[r] == ForwardAt(chain[r], level) && Link(chain, r, level, fs[r], ss[r])
    {
      hide Link, Next;
    }

    lemma BottomNext(p: nat)
      requires Separate(chain, arrays) && p < |chain|
      ensures Next(chain, p, 0) == p + 1
    {
    }

    /** The body of the removal's loop: bridge the removed node, or shorten the span that covers it. */
    method RemoveOnLevel(u: Node, element: Node, level: nat)
      requires Separate(chain, arrays) && u in chain && element in chain && u != element && level < Height(u)
      requires ForwardAt(u, level) == element ==> level < Height(element)
      modifies u.forward, u.span
      ensures SameOffLevel(chain, level)
      ensures forall m :: m in chain && m != u ==>
        ForwardAt(m, level) == old(ForwardAt(m, level)) && SpanAt(m, level) == old(SpanAt(m, level))
      ensures if old(ForwardAt(u, level)) == element
        then
          && ForwardAt(u, level) == old(ForwardAt(element, level))
          && SpanAt(u, level) == old(SpanAt(u, level)) + old(SpanAt(element, level)) - 1
        else ForwardAt(u, level) == old(ForwardAt(u, level)) && SpanAt(u, level) == old(SpanAt(u, level)) - 1
    {
      ApartNodes(chain, arrays, u);
      ApartNodes(chain, arrays, element);
      hide Separate;
      if u.forward[level] == element {
        u.span[level] := u.span[level] + (element.span[level] - 1);
        u.forward[level] := element.forward[level];
      } else {
        u.span[level] := u.span[level] - 1;
      }
    }
  }
}
