/** The linked representation under the skip list: nodes with one forward pointer and one span per
    level, and how a splice or a removal moves the links of a level. */
module SkipChain {
  import opened Bytes
  import opened SkipListOrder

  const MAX_LEVEL: nat := 32

  class Node {
    const member: Bytes
    var score: real
    const forward: array<Node?>
    const span: array<int>

    constructor (member: Bytes, score: real, height: nat)
      requires height >= 1
      ensures this.member == member && this.score == score
      ensures fresh(forward) && fresh(span)
      ensures forward.Length == span.Length == height
      ensures forall i :: 0 <= i < height ==> forward[i] == null && span[i] == 0
    {
      this.member := member;
      this.score := score;
      forward := new Node?[height](_ => null);
      span := new int[height](_ => 0);
    }
  }

  ghost function Height(n: Node): nat
  {
    n.forward.Length
  }

  function KeyOf(n: Node): Key
    reads n
  {
    Key(n.score, n.member)
  }

  /** The index of the first node after `p` that is taller than `level`, or the chain's length. */
  ghost function Next(chain: seq<Node>, p: nat, level: nat): (q: nat)
    requires p < |chain|
    ensures p < q <= |chain|
    ensures q < |chain| ==> Height(chain[q]) > level
    ensures forall j :: p < j < q ==> Height(chain[j]) <= level
    decreases |chain| - p
  {
    if p + 1 == |chain| then p + 1
    else if Height(chain[p + 1]) > level then p + 1
    else Next(chain, p + 1, level)
  }

  ghost function KeysOf(nodes: seq<Node>): (ks: seq<Key>)
    reads nodes
    ensures |ks| == |nodes|
    ensures forall i :: 0 <= i < |ks| ==> ks[i] == KeyOf(nodes[i])
  {
    seq(|nodes|, i requires 0 <= i < |nodes| reads nodes => KeyOf(nodes[i]))
  }

  /** The chain's arrays all lie in `arrays`, its nodes do not, and no two positions share a node or an array. */
  ghost predicate Separate(chain: seq<Node>, arrays: set<object>)
  {
    && (forall p :: 0 <= p < |chain| ==>
          && 1 <= Height(chain[p]) <= MAX_LEVEL
          && chain[p].span.Length == Height(chain[p])
          && chain[p] !in arrays && chain[p].forward in arrays && chain[p].span in arrays)
    && (forall p, q :: 0 <= p < q < |chain| ==>
          chain[p] != chain[q] && chain[p].forward != chain[q].forward && chain[p].span != chain[q].span)
  }

  /** On one level, position `p`'s forward pointer is the next node tall enough and its span the
      distance to it. The span of a level's last node means nothing. */
  ghost predicate Link(chain: seq<Node>, p: nat, level: nat, forward: Node?, span: int)
    requires p < |chain|
  {
    var q := Next(chain, p, level);
    if q < |chain| then forward == chain[q] && span == q - p else forward == null
  }

  ghost function ForwardAt(n: Node, level: nat): Node?
    reads n.forward
  {
    if level < n.forward.Length then n.forward[level] else null
  }

  ghost function SpanAt(n: Node, level: nat): int
    reads n.span
  {
    if level < n.span.Length then n.span[level] else 0
  }

  /** The forward pointers and the spans of one level, by position; null and 0 for nodes too short. */
  ghost function Forwards(c: seq<Node>, level: nat): (fs: seq<Node?>)
    reads set n | n in c :: n.forward
    ensures |fs| == |c|
    ensures forall i {:trigger fs[i]} {:trigger c[i]} :: 0 <= i < |c| ==> fs[i] == ForwardAt(c[i], level)
  {
    seq(|c|, i requires 0 <= i < |c| reads set n | n in c :: n.forward => ForwardAt(c[i], level))
  }

  ghost function Spans(c: seq<Node>, level: nat): (ss: seq<int>)
    reads set n | n in c :: n.span
    ensures |ss| == |c|
    ensures forall i {:trigger ss[i]} {:trigger c[i]} :: 0 <= i < |c| ==> ss[i] == SpanAt(c[i], level)
  {
    seq(|c|, i requires 0 <= i < |c| reads set n | n in c :: n.span => SpanAt(c[i], level))
  }

  /** One level is exactly the sublist of the nodes taller than it. */
  ghost predicate Links(chain: seq<Node>, level: nat, fs: seq<Node?>, ss: seq<int>)
  {
    && |fs| == |ss| == |chain|
    && forall p {:trigger fs[p]} | 0 <= p < |chain| && level < Height(chain[p]) :: Link(chain, p, level, fs[p], ss[p])
  }

  ghost predicate LevelOk(chain: seq<Node>, level: nat)
    reads set n | n in chain :: n.forward, set n | n in chain :: n.span
  {
    Links(chain, level, Forwards(chain, level), Spans(chain, level))
  }

  lemma NextIs(chain: seq<Node>, p: nat, level: nat, q: nat)
    requires p < q <= |chain|
    requires q < |chain| ==> Height(chain[q]) > level
    requires forall j :: p < j < q ==> Height(chain[j]) <= level
    ensures Next(chain, p, level) == q
  {
    var r := Next(chain, p, level);
    assert q < r ==> q < |chain|;
    assert r < q ==> r < |chain|;
  }

  /** `c` is the chain with a node spliced in behind position `k`. */
  ghost predicate Inserted(chain: seq<Node>, k: nat, n: Node, c: seq<Node>)
  {
    && k < |chain| && |c| == |chain| + 1
    && forall j {:trigger c[j]} :: 0 <= j < |c| ==>
      c[j] == if j <= k then chain[j] else if j == k + 1 then n else chain[j - 1]
  }

  ghost function Insertion(chain: seq<Node>, k: nat, n: Node): (c: seq<Node>)
    requires k < |chain|
    ensures Inserted(chain, k, n, c)
  {
    chain[..k + 1] + [n] + chain[k + 1..]
  }

  /** Splicing a node in behind position `k` moves each successor as the span patches assume. */
  lemma NextInserted(chain: seq<Node>, k: nat, n: Node, c: seq<Node>, p: nat, level: nat)
    requires Inserted(chain, k, n, c) && p < |chain|
    ensures var q := Next(chain, p, level);
      if p > k then Next(c, p + 1, level) == q + 1
      else if q <= k then Next(c, p, level) == q
      else if Height(n) > level then Next(c, p, level) == k + 1
      else Next(c, p, level) == q + 1
  {
    hide Next;
    var q := Next(chain, p, level);
    if p > k {
      NextIs(c, p + 1, level, q + 1);
    } else if q <= k {
      NextIs(c, p, level, q);
    } else if Height(n) > level {
      NextIs(c, p, level, k + 1);
    } else {
      NextIs(c, p, level, q + 1);
    }
  }

  lemma NextOfNew(chain: seq<Node>, k: nat, n: Node, c: seq<Node>, level: nat)
    requires Inserted(chain, k, n, c)
    ensures Next(c, k + 1, level) == Next(chain, k, level) + 1
  {
    NextIs(c, k + 1, level, Next(chain, k, level) + 1);
  }

  /** The links an insertion writes: the new node's, and those of the node before it. */
  lemma LinkWritten(chain: seq<Node>, k: nat, n: Node, c: seq<Node>, r: nat, level: nat, f: Node?, s: int)
    requires Inserted(chain, k, n, c)
    requires r <= k && Next(chain, r, level) > k && Link(chain, r, level, f, s)
    ensures level < Height(n) ==> Link(c, k + 1, level, f, s - (k - r)) && Link(c, r, level, n, k - r + 1)
    ensures level >= Height(n) ==> Link(c, r, level, f, s + 1)
  {
    NextInserted(chain, k, n, c, r, level);
    NextOfNew(chain, k, n, c, level);
    NextIs(chain, k, level, Next(chain, r, level));
  }

  /** What one round of the insertion's second loop does to a level: `r` is the rank of the level's
      last node before the new one, `s` its span, or anything when it has no successor. */
  lemma LinksInserted(chain: seq<Node>, k: nat, n: Node, c: seq<Node>, r: nat, level: nat, s: int,
                      fs: seq<Node?>, ss: seq<int>, fs': seq<Node?>, ss': seq<int>)
    requires Inserted(chain, k, n, c) && Links(chain, level, fs, ss)
    requires r <= k && level < Height(chain[r]) && Next(chain, r, level) > k
    requires |fs'| == |ss'| == |c| && (fs[r] != null ==> s == ss[r])
    requires if level < Height(n)
      then fs'[k + 1] == fs[r] && ss'[k + 1] == s - (k - r) && fs'[r] == n && ss'[r] == k - r + 1
      else fs'[r] == fs[r] && ss'[r] == s + 1
    requires forall p {:trigger fs'[p]} :: 0 <= p < |c| && p != r && p != k + 1 ==>
      var p' := if p <= k then p else p - 1;
      fs'[p] == fs[p'] && ss'[p] == ss[p']
    ensures Links(c, level, fs', ss')
  {
    hide Next;
    LinkWritten(chain, k, n, c, r, level, fs[r], s);
    forall p | 0 <= p < |c| && level < Height(c[p]) ensures Link(c, p, level, fs'[p], ss'[p]) {
      if p != r && p != k + 1 {
        var p' := if p <= k then p else p - 1;
        assert c[p] == chain[p'] && fs'[p] == fs[p'];
        NextInserted(chain, k, n, c, p', level);
      }
    }
  }

  /** `c` is the chain without its position `e`. */
  ghost predicate Deleted(chain: seq<Node>, e: nat, c: seq<Node>)
  {
    && e < |chain| && |c| == |chain| - 1
    && forall j {:trigger c[j]} :: 0 <= j < |c| ==> c[j] == if j < e then chain[j] else chain[j + 1]
  }

  /** Taking position `e` out moves each successor as the span patches of a removal assume. */
  lemma NextDeleted(chain: seq<Node>, e: nat, c: seq<Node>, p: nat, level: nat)
    requires Deleted(chain, e, c) && p < |chain| && p != e
    ensures var q := Next(chain, p, level);
      if p > e then Next(c, p - 1, level) == q - 1
      else if q < e then Next(c, p, level) == q
      else if q == e then Next(c, p, level) == Next(chain, e, level) - 1
      else Next(c, p, level) == q - 1
  {
    hide Next;
    var q := Next(chain, p, level);
    if p > e {
      NextIs(c, p - 1, level, q - 1);
    } else if q < e {
      NextIs(c, p, level, q);
    } else if q == e {
      NextIs(c, p, level, Next(chain, e, level) - 1);
    } else {
      NextIs(c, p, level, q - 1);
    }
  }

  /** What one round of the removal's loop does to a level: `r` is the rank of the level's last node
      before the removed position `e`. */
  lemma LinksDeleted(chain: seq<Node>, e: nat, c: seq<Node>, arrays: set<object>, r: nat, level: nat,
                     fs: seq<Node?>, ss: seq<int>, fs': seq<Node?>, ss': seq<int>)
    requires Deleted(chain, e, c) && Links(chain, level, fs, ss) && Separate(chain, arrays)
    requires r < e && level < Height(chain[r]) && Next(chain, r, level) >= e
    requires |fs'| == |ss'| == |c|
    requires if fs[r] == chain[e]
      then fs'[r] == fs[e] && ss'[r] == ss[r] + ss[e] - 1
      else fs'[r] == fs[r] && ss'[r] == ss[r] - 1
    requires forall p {:trigger fs'[p]} :: 0 <= p < |c| && p != r ==>
      var p' := if p < e then p else p + 1;
      fs'[p] == fs[p'] && ss'[p] == ss[p']
    ensures Links(c, level, fs', ss')
  {
    LinkBridged(chain, e, c, arrays, r, level, fs, ss);
    hide Next, Separate, Link;
    forall p | 0 <= p < |c| && level < Height(c[p]) ensures Link(c, p, level, fs'[p], ss'[p]) {
      if p != r {
        var p' := if p < e then p else p + 1;
        assert c[p] == chain[p'] && fs'[p] == fs[p'];
        LinkKept(chain, e, c, r, p', level, fs[p'], ss[p']);
      }
    }
  }

  /** Any other link is the same afterwards, its positions moved up behind the removed one. */
  lemma LinkKept(chain: seq<Node>, e: nat, c: seq<Node>, r: nat, p: nat, level: nat, f: Node?, s: int)
    requires Deleted(chain, e, c) && r < e && level < Height(chain[r]) && Next(chain, r, level) >= e
    requires p < |chain| && p != e && p != r && level < Height(chain[p]) && Link(chain, p, level, f, s)
    ensures Link(c, if p < e then p else p - 1, level, f, s)
  {
    NextDeleted(chain, e, c, p, level);
    var q := Next(chain, p, level);
    hide Next;
    if p < e {
      assert q < e;
      assert c[q] == chain[q];
    } else if q < |chain| {
      assert c[q - 1] == chain[q];
    }
  }

  /** The link a removal writes: over the removed node, or one shorter. */
  lemma LinkBridged(chain: seq<Node>, e: nat, c: seq<Node>, arrays: set<object>, r: nat, level: nat, fs: seq<Node?>,
                    ss: seq<int>)
    requires Deleted(chain, e, c) && Links(chain, level, fs, ss) && Separate(chain, arrays)
    requires r < e && level < Height(chain[r]) && Next(chain, r, level) >= e
    ensures fs[r] == chain[e] <==> level < Height(chain[e])
    ensures if fs[r] == chain[e]
      then Link(c, r, level, fs[e], ss[r] + ss[e] - 1)
      else Link(c, r, level, fs[r], ss[r] - 1)
  {
    NextDeleted(chain, e, c, r, level);
    var q := Next(chain, r, level);
    assert Link(chain, r, level, fs[r], ss[r]);
    if q == e {
      assert Link(chain, e, level, fs[e], ss[e]);
    } else if q < |chain| {
      Apart(chain, arrays, e, q);
    }
  }

  /** A level a removal leaves alone is right afterwards exactly when it has no node from the removed
      position on. */
  lemma LevelLeftAlone(chain: seq<Node>, e: nat, c: seq<Node>, arrays: set<object>, level: nat,
                       fs: seq<Node?>, ss: seq<int>, fs': seq<Node?>, ss': seq<int>)
    requires Deleted(chain, e, c) && Links(chain, level, fs, ss) && Separate(chain, arrays)
    requires 0 < e && level < Height(chain[0])
    requires |fs'| == |ss'| == |c|
    requires forall p {:trigger fs'[p]} :: 0 <= p < |c| ==>
      var p' := if p < e then p else p + 1;
      fs'[p] == fs[p'] && ss'[p] == ss[p']
    ensures Links(c, level, fs', ss') <==> forall p :: e <= p < |chain| ==> Height(chain[p]) <= level
  {
    var r := LastBefore(chain, e, level);
    var q := Next(chain, r, level);
    NextDeleted(chain, e, c, r, level);
    assert c[r] == chain[r] && fs'[r] == fs[r] && ss'[r] == ss[r] && Link(chain, r, level, fs[r], ss[r]);
    if q == |chain| {
      hide Separate;
      forall p | 0 <= p < |c| && level < Height(c[p]) ensures Link(c, p, level, fs'[p], ss'[p]) {
        var p' := if p < e then p else p + 1;
        assert c[p] == chain[p'];
        assert fs'[p] == fs[p'] && ss'[p] == ss[p'] && Link(chain, p', level, fs[p'], ss[p']);
        NextDeleted(chain, e, c, p', level);
      }
    } else if q == e {
      forall j | 0 <= j < |c| ensures c[j] != chain[e] {
        Apart(chain, arrays, e, if j < e then j else j + 1);
      }
      assert !Link(c, r, level, fs'[r], ss'[r]);
    } else {
      assert !Link(c, r, level, fs'[r], ss'[r]);
    }
  }

  lemma {:induction false} LastBefore(chain: seq<Node>, e: nat, level: nat) returns (r: nat)
    requires 0 < e <= |chain| && level < Height(chain[0])
    ensures r < e && level < Height(chain[r]) && Next(chain, r, level) >= e
  {
    r := e - 1;
    while level >= Height(chain[r])
      invariant r < e && forall j :: r < j < e ==> Height(chain[j]) <= level
      decreases r
    {
      r := r - 1;
    }
  }

  lemma SeparateDeleted(chain: seq<Node>, e: nat, c: seq<Node>, arrays: set<object>)
    requires Separate(chain, arrays) && Deleted(chain, e, c)
    ensures Separate(c, arrays)
  {
    forall p {:trigger c[p]} | 0 <= p < |c| ensures c[p] == chain[if p < e then p else p + 1] {
    }
  }

  lemma FramedDelete(head: Node, chain: seq<Node>, arrays: set<object>, dictionary: map<Bytes, Node>, e: nat,
                     c: seq<Node>)
    requires WellFramed(head, chain, arrays, dictionary) && Deleted(chain, e, c) && e > 0
    ensures WellFramed(head, c, arrays, dictionary - {chain[e].member})
  {
    SeparateDeleted(chain, e, c, arrays);
    hide Separate;
    var d := dictionary - {chain[e].member};
    forall p {:trigger c[p]} | 0 <= p < |c| ensures c[p] == chain[if p < e then p else p + 1] {
    }
    forall m | m in d ensures d[m] in c[1..] {
      var i :| 1 <= i < |chain| && chain[i] == d[m];
      var i' := if i < e then i else i - 1;
      assert c[1..][i' - 1] == c[i'] == chain[i];
    }
    forall p | 1 <= p < |c| ensures c[p].member in d && d[c[p].member] == c[p] {
      Apart(chain, arrays, e, if p < e then p else p + 1);
    }
  }

  lemma KeysDeleted(chain: seq<Node>, k: nat, c: seq<Node>)
    requires Deleted(chain, k + 1, c)
    ensures var ks := KeysOf(chain)[1..]; KeysOf(c)[1..] == ks[..k] + ks[k + 1..]
  {
    var ks := KeysOf(chain)[1..];
    forall i | 0 <= i < |c| - 1 ensures KeysOf(c)[1..][i] == (ks[..k] + ks[k + 1..])[i] {
      assert KeysOf(c)[i + 1] == KeyOf(c[i + 1]);
    }
  }

  /** Where the nodes are and what the member table says of them. */
  ghost predicate WellFramed(head: Node, chain: seq<Node>, arrays: set<object>, dictionary: map<Bytes, Node>)
  {
    && Separate(chain, arrays)
    && |chain| > 0 && chain[0] == head && Height(head) == MAX_LEVEL
    && (forall p {:trigger chain[p]} :: 1 <= p < |chain| ==>
          chain[p].member in dictionary && dictionary[chain[p].member] == chain[p])
    && (forall m :: m in dictionary ==> dictionary[m] in chain[1..] && dictionary[m].member == m)
  }

  lemma SeparateInserted(chain: seq<Node>, arrays: set<object>, k: nat, n: Node, c: seq<Node>)
    requires Separate(chain, arrays) && Inserted(chain, k, n, c)
    requires 1 <= Height(n) == n.span.Length <= MAX_LEVEL
    requires n !in chain && n.forward !in arrays && n.span !in arrays && n !in arrays
    ensures Separate(c, arrays + {n.forward as object, n.span})
  {
    forall p | 0 <= p < |c| ensures c[p] !in {n.forward as object, n.span} {
      var m: object := c[p];
      assert m is Node;
    }
    forall p {:trigger c[p]} | 0 <= p < |c| && p != k + 1
      ensures c[p] in chain && c[p] == chain[if p <= k then p else p - 1]
    {
    }
  }

  lemma FramedInsert(head: Node, chain: seq<Node>, arrays: set<object>, dictionary: map<Bytes, Node>,
                     k: nat, n: Node, c: seq<Node>)
    requires WellFramed(head, chain, arrays, dictionary) && Inserted(chain, k, n, c)
    requires n.member !in dictionary && 1 <= Height(n) == n.span.Length <= MAX_LEVEL
    requires n !in chain && n.forward !in arrays && n.span !in arrays && n !in arrays
    ensures WellFramed(head, c, arrays + {n.forward as object, n.span}, dictionary[n.member := n])
    ensures Separate(c, arrays + {n.forward as object, n.span})
  {
    SeparateInserted(chain, arrays, k, n, c);
    hide Separate;
    assert c[0] == chain[0];
    var d := dictionary[n.member := n];
    assert c[k + 1] == n;
    forall p {:trigger c[p]} | 1 <= p < |c| ensures c[p].member in d && d[c[p].member] == c[p] {
      if p != k + 1 {
        assert c[p] == chain[if p <= k then p else p - 1];
      }
    }
    forall m | m in d ensures d[m] in c[1..] {
      if m != n.member {
        var i :| 1 <= i < |chain| && chain[i] == d[m];
        var i' := if i <= k then i else i + 1;
        assert c[1..][i' - 1] == c[i'] == chain[i];
      } else {
        assert c[1..][k] == n;
      }
    }
  }

  ghost function Deletion(chain: seq<Node>, e: nat): (c: seq<Node>)
    requires e < |chain|
    ensures Deleted(chain, e, c)
  {
    chain[..e] + chain[e + 1..]
  }

  lemma DeletedContains(chain: seq<Node>, e: nat, c: seq<Node>)
    requires Deleted(chain, e, c)
    ensures |c| == |chain| - 1 && forall m :: m in c ==> m in chain
  {
    forall m | m in c ensures m in chain {
      var i :| 0 <= i < |c| && c[i] == m;
      assert chain[if i < e then i else i + 1] == m;
    }
  }

  lemma LevelInserted(chain: seq<Node>, k: nat, n: Node, c: seq<Node>, all: set<object>, r: nat, level: nat,
                      fs: seq<Node?>, ss: seq<int>)
    requires Inserted(chain, k, n, c) && Links(chain, level, fs, ss) && Separate(c, all)
    requires r <= k && level < Height(chain[r]) && Next(chain, r, level) > k
    requires forall p {:trigger chain[p]} :: 0 <= p < |chain| && chain[p] != chain[r] ==>
      ForwardAt(chain[p], level) == fs[p] && SpanAt(chain[p], level) == ss[p]
    requires if level < Height(n)
      then
        && ForwardAt(n, level) == fs[r] && ForwardAt(chain[r], level) == n && SpanAt(chain[r], level) == k - r + 1
        && (fs[r] != null ==> SpanAt(n, level) == ss[r] - (k - r))
      else ForwardAt(chain[r], level) == fs[r] && SpanAt(chain[r], level) == ss[r] + 1
    ensures LevelOk(c, level)
  {
    hide Next, Link, Separate, Height;
    var fs', ss' := Forwards(c, level), Spans(c, level);
    assert c[r] == chain[r] && c[k + 1] == n;
    assert fs'[r] == ForwardAt(c[r], level) && ss'[r] == SpanAt(c[r], level);
    assert fs'[k + 1] == ForwardAt(n, level) && ss'[k + 1] == SpanAt(n, level);
    forall p {:trigger fs'[p]} | 0 <= p < |c| && p != r && p != k + 1
      ensures var p' := if p <= k then p else p - 1; fs'[p] == fs[p'] && ss'[p] == ss[p']
    {
      Apart(c, all, p, r);
      assert c[p] == chain[if p <= k then p else p - 1];
      assert fs'[p] == ForwardAt(c[p], level) && ss'[p] == SpanAt(c[p], level);
    }
    var s := if level < Height(n) then ss'[k + 1] + (k - r) else ss[r];
    LinksInserted(chain, k, n, c, r, level, s, fs, ss, fs', ss');
  }

  lemma LevelDeleted(chain: seq<Node>, e: nat, c: seq<Node>, arrays: set<object>, r: nat, level: nat, fs: seq<Node?>,
                     ss: seq<int>)
    requires Deleted(chain, e, c) && Links(chain, level, fs, ss) && Separate(chain, arrays)
    requires r < e && level < Height(chain[r]) && Next(chain, r, level) >= e
    requires forall p {:trigger chain[p]} :: 0 <= p < |chain| && chain[p] != chain[r] ==>
      ForwardAt(chain[p], level) == fs[p] && SpanAt(chain[p], level) == ss[p]
    requires if fs[r] == chain[e]
      then ForwardAt(chain[r], level) == fs[e] && SpanAt(chain[r], level) == ss[r] + ss[e] - 1
      else ForwardAt(chain[r], level) == fs[r] && SpanAt(chain[r], level) == ss[r] - 1
    ensures LevelOk(c, level)
  {
    hide Next, Link, Separate;
    var fs', ss' := Forwards(c, level), Spans(c, level);
    assert c[r] == chain[r];
    DeletedEntries(chain, e, c, level);
    forall p {:trigger fs'[p]} | 0 <= p < |c| && p != r
      ensures var p' := if p < e then p else p + 1; fs'[p] == fs[p'] && ss'[p] == ss[p']
    {
      var p' := if p < e then p else p + 1;
      Apart(chain, arrays, p', r);
      assert c[p] == chain[p'] && fs'[p] == ForwardAt(c[p], level) && ss'[p] == SpanAt(c[p], level);
    }
    LinksDeleted(chain, e, c, arrays, r, level, fs, ss, fs', ss');
  }

  lemma DeletedEntries(chain: seq<Node>, e: nat, c: seq<Node>, level: nat)
    requires Deleted(chain, e, c)
    ensures forall p {:trigger Forwards(c, level)[p]} :: 0 <= p < |c| ==>
      var p' := if p < e then p else p + 1;
      Forwards(c, level)[p] == Forwards(chain, level)[p'] && Spans(c, level)[p] == Spans(chain, level)[p']
  {
    forall p {:trigger c[p]} | 0 <= p < |c| ensures c[p] == chain[if p < e then p else p + 1] {
    }
  }

  lemma KeysPutIn(chain: seq<Node>, k: nat, n: Node, c: seq<Node>)
    requires Inserted(chain, k, n, c)
    ensures var ks := KeysOf(chain)[1..]; KeysOf(c)[1..] == ks[..k] + [KeyOf(n)] + ks[k..]
  {
    var ks := KeysOf(chain)[1..];
    var r := ks[..k] + [KeyOf(n)] + ks[k..];
    forall i | 0 <= i < |c| - 1 ensures KeysOf(c)[1..][i] == r[i] {
      assert KeysOf(c)[1..][i] == KeyOf(c[i + 1]);
      if i < k {
        assert c[i + 1] == chain[i + 1] && r[i] == ks[i] == KeyOf(chain[i + 1]);
      } else if i > k {
        assert c[i + 1] == chain[i] && r[i] == ks[i - 1] == KeyOf(chain[i]);
      }
    }
    assert KeysOf(c)[1..] == r;
  }

  lemma KeysInserted(chain: seq<Node>, k: nat, n: Node, c: seq<Node>)
    requires Inserted(chain, k, n, c) && k == Position(KeysOf(chain)[1..], KeyOf(n))
    ensures KeysOf(c)[1..] == InsertKey(KeysOf(chain)[1..], KeyOf(n))
  {
    hide Position;
    KeysPutIn(chain, k, n, c);
  }

  lemma InsertedContains(chain: seq<Node>, k: nat, n: Node, c: seq<Node>)
    requires Inserted(chain, k, n, c)
    ensures forall m :: m in chain ==> m in c
    ensures forall m :: m in c ==> m in chain || m == n
  {
    forall m | m in chain ensures m in c {
      var i :| 0 <= i < |chain| && chain[i] == m;
      assert c[if i <= k then i else i + 1] == m;
    }
    assert c[k + 1] == n;
  }

  /** On every other level the nodes of `c` are as they were. */
  twostate predicate SameOffLevel(c: seq<Node>, level: nat)
    reads set m | m in c :: m.forward, set m | m in c :: m.span
  {
    forall m, j: nat :: m in c && j != level ==>
      ForwardAt(m, j) == old(ForwardAt(m, j)) && SpanAt(m, j) == old(SpanAt(m, j))
  }

  lemma Apart(c: seq<Node>, all: set<object>, i: nat, j: nat)
    requires Separate(c, all) && i < |c| && j < |c| && i != j
    ensures c[i] != c[j] && c[i].forward != c[j].forward && c[i].span != c[j].span
  {
  }

  lemma ApartNodes(c: seq<Node>, all: set<object>, u: Node)
    requires Separate(c, all) && u in c
    ensures Height(u) == u.span.Length && u.forward in all && u.span in all
    ensures forall m :: m in c && m != u ==> m.forward != u.forward && m.span != u.span
  {
    var i :| 0 <= i < |c| && c[i] == u;
    forall m | m in c && m != u ensures m.forward != u.forward && m.span != u.span {
      var j :| 0 <= j < |c| && c[j] == m;
      Apart(c, all, i, j);
    }
  }
}
