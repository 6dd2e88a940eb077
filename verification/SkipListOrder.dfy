/** The order in which a sorted set keeps its elements, and the plain sorted sequence
    that the skip list stands for. */
module SkipListOrder {
  import opened Bytes

  /** What a sorted-set element is ordered by. Scores are exact reals here: a total order without NaN. */
  datatype Key = Key(score: real, member: Bytes)

  predicate Before(a: Key, b: Key)
  {
    a.score < b.score || (a.score == b.score && Less(a.member, b.member))
  }

  /** The comparison the rank walk makes: before, or the same score and member. */
  predicate NotAfter(a: Key, b: Key)
  {
    a.score < b.score || (a.score == b.score && (Less(a.member, b.member) || a.member == b.member))
  }

  ghost predicate Sorted(ks: seq<Key>)
  {
    forall i, j :: 0 <= i < j < |ks| ==> Before(ks[i], ks[j])
  }

  lemma BeforeTransitive(a: Key, b: Key, c: Key)
    requires Before(a, b) && Before(b, c)
    ensures Before(a, c)
  {
    if a.score == b.score == c.score {
      LessTransitive(a.member, b.member, c.member);
    }
  }

  lemma BeforeIrreflexive(a: Key)
    ensures !Before(a, a)
  {
    LessIrreflexive(a.member);
  }

  lemma BeforeTotal(a: Key, b: Key)
    ensures Before(a, b) || a == b || Before(b, a)
  {
    LessTotal(a.member, b.member);
  }

  /** Smaller scores first; among equal scores, members in dictionary order by byte values. */
  lemma BeforeIff(a: Key, b: Key)
    ensures Before(a, b) <==> a.score < b.score || (a.score == b.score && exists n :: SmallerAt(a.member, b.member, n))
    ensures NotAfter(a, b) <==> !Before(b, a)
  {
    LessIff(a.member, b.member);
    LessTotal(a.member, b.member);
    LessIrreflexive(a.member);
    if Less(a.member, b.member) && Less(b.member, a.member) {
      LessTransitive(a.member, b.member, a.member);
    }
  }

  /** How many keys of a sorted sequence come before `k`. */
  function Position(ks: seq<Key>, k: Key): (n: nat)
    ensures n <= |ks|
  {
    if |ks| > 0 && Before(ks[0], k) then 1 + Position(ks[1..], k) else 0
  }

  /** In a sorted sequence the keys before `k` are exactly a prefix. */
  lemma {:induction false} PositionSplits(ks: seq<Key>, k: Key)
    requires Sorted(ks)
    ensures forall i :: 0 <= i < |ks| ==> (Before(ks[i], k) <==> i < Position(ks, k))
  {
    if |ks| > 0 {
      if Before(ks[0], k) {
        PositionSplits(ks[1..], k);
        assert forall i :: 1 <= i < |ks| ==> ks[i] == ks[1..][i - 1];
      } else {
        forall i | 0 <= i < |ks| ensures !Before(ks[i], k) {
          if i > 0 && Before(ks[i], k) {
            BeforeTransitive(ks[0], ks[i], k);
          }
        }
      }
    }
  }

  lemma SortedHeadIsLeast(a: seq<Key>, k: Key)
    requires Sorted(a) && k in a
    ensures k == a[0] || Before(a[0], k)
  {
  }

  lemma SameLeast(a: seq<Key>, b: seq<Key>)
    requires Sorted(a) && Sorted(b) && |a| > 0 && |b| > 0
    requires a[0] in b && b[0] in a
    ensures a[0] == b[0]
  {
    SortedHeadIsLeast(a, b[0]);
    SortedHeadIsLeast(b, a[0]);
    if a[0] != b[0] {
      BeforeTransitive(a[0], b[0], a[0]);
      BeforeIrreflexive(a[0]);
    }
  }

  /** A sorted sequence is determined by the set of its elements. */
  lemma {:induction false} SortedUnique(a: seq<Key>, b: seq<Key>)
    requires Sorted(a) && Sorted(b)
    requires forall k :: k in a <==> k in b
    ensures a == b
  {
    assert |b| > 0 ==> b[0] in b;
    if |a| > 0 {
      assert a[0] in b && |b| > 0 && b[0] in a;
      SameLeast(a, b);
      BeforeIrreflexive(a[0]);
      forall k ensures k in a[1..] <==> k in b[1..] {
        TailMember(a, k);
        TailMember(b, k);
      }
      SortedUnique(a[1..], b[1..]);
    }
  }

  lemma TailMember(a: seq<Key>, k: Key)
    requires Sorted(a) && |a| > 0
    ensures k in a[1..] <==> k in a && k != a[0]
  {
    BeforeIrreflexive(a[0]);
  }

  /** Where a new key goes. */
  function InsertKey(ks: seq<Key>, k: Key): (r: seq<Key>)
    ensures |r| == |ks| + 1
  {
    ks[..Position(ks, k)] + [k] + ks[Position(ks, k)..]
  }

  lemma SortedInsert(ks: seq<Key>, k: Key)
    requires Sorted(ks) && k !in ks
    ensures Sorted(InsertKey(ks, k))
  {
    PositionSplits(ks, k);
    var n := Position(ks, k);
    forall i | n <= i < |ks| ensures Before(k, ks[i]) {
      BeforeTotal(ks[i], k);
    }
  }

  /** Giving the member a score without moving it. */
  function Rescored(ks: seq<Key>, member: Bytes, score: real): (r: seq<Key>)
    ensures |r| == |ks|
    ensures forall i {:trigger r[i]} :: 0 <= i < |ks| ==>
      r[i] == if ks[i].member == member then Key(score, member) else ks[i]
  {
    seq(|ks|, i requires 0 <= i < |ks| => if ks[i].member == member then Key(score, member) else ks[i])
  }

  /** The new score leaves the member between its neighbours. */
  ghost predicate KeepsNeighbours(ks: seq<Key>, member: Bytes, score: real)
  {
    forall i :: 0 <= i < |ks| && ks[i].member == member ==>
      (i > 0 ==> Before(ks[i - 1], Key(score, member))) && (i + 1 < |ks| ==> Before(Key(score, member), ks[i + 1]))
  }

  ghost predicate MembersDistinct(ks: seq<Key>)
  {
    forall i, j :: 0 <= i < j < |ks| ==> ks[i].member != ks[j].member
  }

  /** What a search for the member needs: all keys in front of its own come before it, and none behind. */
  ghost predicate InPlace(ks: seq<Key>, member: Bytes)
  {
    forall i, j :: 0 <= i < |ks| && 0 <= j < |ks| && ks[i].member == member ==> (Before(ks[j], ks[i]) <==> j < i)
  }

  lemma SortedInPlace(ks: seq<Key>, member: Bytes)
    requires Sorted(ks)
    ensures InPlace(ks, member)
  {
    forall i, j | 0 <= i < |ks| && 0 <= j < |ks| && ks[i].member == member ensures Before(ks[j], ks[i]) <==> j < i {
      BeforeIrreflexive(ks[i]);
      if i < j && Before(ks[j], ks[i]) {
        BeforeTransitive(ks[i], ks[j], ks[i]);
      }
    }
  }

  lemma RescoredSorted(ks: seq<Key>, member: Bytes, score: real)
    requires Sorted(ks) && MembersDistinct(ks)
    ensures Sorted(Rescored(ks, member, score)) <==> KeepsNeighbours(ks, member, score)
  {
    var r, k := Rescored(ks, member, score), Key(score, member);
    if KeepsNeighbours(ks, member, score) {
      forall i, j | 0 <= i < j < |r| ensures Before(r[i], r[j]) {
        if ks[j].member == member {
          if i < j - 1 {
            BeforeTransitive(ks[i], ks[j - 1], k);
          }
        } else if ks[i].member == member {
          if i + 1 < j {
            BeforeTransitive(k, ks[i + 1], ks[j]);
          }
        }
      }
    }
    if Sorted(r) {
      forall i | 0 <= i < |ks| && ks[i].member == member
        ensures i > 0 ==> Before(ks[i - 1], k)
        ensures i + 1 < |ks| ==> Before(k, ks[i + 1])
      {
        assert r[i] == k;
        assert i > 0 ==> r[i - 1] == ks[i - 1] && Before(r[i - 1], r[i]);
        assert i + 1 < |ks| ==> r[i + 1] == ks[i + 1] && Before(r[i], r[i + 1]);
      }
    }
  }

  /** The sequence without the member's key. */
  function RemoveMember(ks: seq<Key>, member: Bytes): (r: seq<Key>)
    ensures |ks| - 1 <= |r| <= |ks|
  {
    if |ks| == 0 then [] else if ks[0].member == member then ks[1..] else [ks[0]] + RemoveMember(ks[1..], member)
  }

  lemma {:induction false} RemoveMemberAt(ks: seq<Key>, k: nat)
    requires k < |ks| && MembersDistinct(ks)
    ensures RemoveMember(ks, ks[k].member) == ks[..k] + ks[k + 1..]
  {
    if k > 0 {
      assert ks[0].member != ks[k].member;
      RemoveMemberAt(ks[1..], k - 1);
      assert ks[..k] + ks[k + 1..] == [ks[0]] + (ks[1..][..k - 1] + ks[1..][k..]);
    }
  }

  lemma SortedRemove(ks: seq<Key>, k: nat)
    requires k < |ks| && Sorted(ks)
    ensures Sorted(ks[..k] + ks[k + 1..])
  {
  }
}
