/** What a search over score windows must return, as filters of the sorted sequence. */
module CellWindows {
  import opened Bytes
  import opened SkipListOrder

  /** How many keys score below `score`. */
  function Below(ks: seq<Key>, score: real): (n: nat)
    ensures n <= |ks|
  {
    if |ks| > 0 && ks[0].score < score then 1 + Below(ks[1..], score) else 0
  }

  lemma {:induction false} BelowSplits(ks: seq<Key>, score: real)
    requires Sorted(ks)
    ensures forall i :: 0 <= i < |ks| ==> (ks[i].score < score <==> i < Below(ks, score))
  {
    if |ks| > 0 {
      if ks[0].score < score {
        BelowSplits(ks[1..], score);
        assert forall i :: 1 <= i < |ks| ==> ks[i] == ks[1..][i - 1];
      } else {
        assert forall i :: 1 <= i < |ks| ==> Before(ks[0], ks[i]);
      }
    }
  }

  /** A half-open score window. */
  predicate Within(k: Key, lo: real, hi: real)
  {
    lo <= k.score < hi
  }

  /** The members in a window that pass the filter, in order. */
  function Window(ks: seq<Key>, lo: real, hi: real, near: real -> bool): seq<Bytes>
  {
    if |ks| == 0 then []
    else (if Within(ks[0], lo, hi) && near(ks[0].score) then [ks[0].member] else []) + Window(ks[1..], lo, hi, near)
  }

  lemma {:induction false} WindowSnoc(ks: seq<Key>, k: Key, lo: real, hi: real, near: real -> bool)
    ensures Window(ks + [k], lo, hi, near) ==
      Window(ks, lo, hi, near) + if Within(k, lo, hi) && near(k.score) then [k.member] else []
  {
    if |ks| == 0 {
      assert ks + [k] == [k] && [k][1..] == [];
    } else {
      assert (ks + [k])[1..] == ks[1..] + [k];
      WindowSnoc(ks[1..], k, lo, hi, near);
    }
  }

  lemma {:induction false} WindowNone(ks: seq<Key>, lo: real, hi: real, near: real -> bool)
    requires forall i :: 0 <= i < |ks| ==> !Within(ks[i], lo, hi)
    ensures Window(ks, lo, hi, near) == []
  {
    if |ks| > 0 {
      WindowNone(ks[1..], lo, hi, near);
    }
  }

  lemma {:induction false} WindowConcat(a: seq<Key>, b: seq<Key>, lo: real, hi: real, near: real -> bool)
    ensures Window(a + b, lo, hi, near) == Window(a, lo, hi, near) + Window(b, lo, hi, near)
  {
    if |a| == 0 {
      assert a + b == b;
    } else {
      assert (a + b)[1..] == a[1..] + b;
      WindowConcat(a[1..], b, lo, hi, near);
    }
  }

  /** The least score of a cell of `width` consecutive codes. */
  function CellStart(cell: nat, width: nat): real
  {
    (cell * width) as real
  }

  /** The windows of the cells one after the other. */
  function CellMembers(ks: seq<Key>, cells: seq<nat>, width: nat, near: real -> bool): seq<Bytes>
  {
    if |cells| == 0 then []
    else
      var c := cells[|cells| - 1];
      CellMembers(ks, cells[..|cells| - 1], width, near)
      + Window(ks, CellStart(c, width), CellStart(c + 1, width), near)
  }

  /** The cell a code lies in: the code without its low bits. */
  function CellOfCode(code: nat, width: nat): nat
    requires width > 0
  {
    code / width
  }

  lemma CellBounds(code: nat, cell: nat, width: nat)
    requires width > 0
    ensures CellOfCode(code, width) == cell <==> cell * width <= code < (cell + 1) * width
  {
    var q := code / width;
    assert code == q * width + code % width;
    if cell < q {
      assert (cell + 1) * width <= q * width;
    } else if q < cell {
      assert (q + 1) * width <= cell * width;
    }
  }

  lemma CellIsWindow(k: Key, code: nat, cell: nat, width: nat)
    requires width > 0 && k.score == code as real
    ensures Within(k, CellStart(cell, width), CellStart(cell + 1, width)) <==> CellOfCode(code, width) == cell
  {
    CellBounds(code, cell, width);
  }

  /** A window holds each member of a distinct-membered sequence at most once, and exactly the right ones. */
  lemma {:induction false} WindowCount(ks: seq<Key>, i: nat, lo: real, hi: real, near: real -> bool)
    requires i < |ks| && MembersDistinct(ks)
    ensures multiset(Window(ks, lo, hi, near))[ks[i].member] ==
      if Within(ks[i], lo, hi) && near(ks[i].score) then 1 else 0
  {
    var m := ks[i].member;
    var rest := Window(ks[1..], lo, hi, near);
    var first := if Within(ks[0], lo, hi) && near(ks[0].score) then [ks[0].member] else [];
    assert multiset(first + rest)[m] == multiset(first)[m] + multiset(rest)[m];
    if i == 0 {
      WindowForeign(ks[1..], m, lo, hi, near);
    } else {
      assert ks[0].member != m && ks[1..][i - 1] == ks[i];
      WindowCount(ks[1..], i - 1, lo, hi, near);
    }
  }

  lemma {:induction false} WindowForeign(ks: seq<Key>, m: Bytes, lo: real, hi: real, near: real -> bool)
    requires forall i :: 0 <= i < |ks| ==> ks[i].member != m
    ensures multiset(Window(ks, lo, hi, near))[m] == 0
  {
    if |ks| > 0 {
      var rest := Window(ks[1..], lo, hi, near);
      var first := if Within(ks[0], lo, hi) && near(ks[0].score) then [ks[0].member] else [];
      assert multiset(first + rest)[m] == multiset(first)[m] + multiset(rest)[m];
      WindowForeign(ks[1..], m, lo, hi, near);
    }
  }

  lemma ConcatCount(a: seq<Bytes>, b: seq<Bytes>, m: Bytes)
    ensures multiset(a + b)[m] == multiset(a)[m] + multiset(b)[m]
  {
  }

  lemma InSnoc(before: seq<nat>, c: nat, x: nat)
    requires forall a, b :: 0 <= a < b < |before + [c]| ==> (before + [c])[a] != (before + [c])[b]
    ensures x in before + [c] <==> x in before || x == c
    ensures c !in before && forall a, b :: 0 <= a < b < |before| ==> before[a] != before[b]
  {
    forall a | 0 <= a < |before| ensures before[a] != c {
      assert (before + [c])[a] != (before + [c])[|before|];
    }
    forall a, b | 0 <= a < b < |before| ensures before[a] != before[b] {
      assert (before + [c])[a] != (before + [c])[b];
    }
  }

  lemma CellMembersSnoc(ks: seq<Key>, before: seq<nat>, c: nat, width: nat, near: real -> bool)
    ensures CellMembers(ks, [], width, near) == []
    ensures CellMembers(ks, before + [c], width, near) ==
      CellMembers(ks, before, width, near) + Window(ks, CellStart(c, width), CellStart(c + 1, width), near)
  {
    assert (before + [c])[..|before|] == before;
  }

  /** Over distinct cells, each member is found exactly once if its code lies in one of the cells and
      passes the filter, and not at all otherwise. */
  lemma {:induction false} CellsVisitOnce(ks: seq<Key>, i: nat, code: nat, cells: seq<nat>, width: nat,
                                          near: real -> bool)
    requires i < |ks| && MembersDistinct(ks) && ks[i].score == code as real && width > 0
    requires forall a, b :: 0 <= a < b < |cells| ==> cells[a] != cells[b]
    ensures multiset(CellMembers(ks, cells, width, near))[ks[i].member] ==
      if CellOfCode(code, width) in cells && near(ks[i].score) then 1 else 0
  {
    hide CellOfCode, CellStart, Within, Window, CellMembers;
    CellMembersSnoc(ks, [], 0, width, near);
    if |cells| > 0 {
      var c, before := cells[|cells| - 1], cells[..|cells| - 1];
      assert cells == before + [c];
      InSnoc(before, c, CellOfCode(code, width));
      CellMembersSnoc(ks, before, c, width, near);
      ConcatCount(CellMembers(ks, before, width, near), Window(ks, CellStart(c, width), CellStart(c + 1, width), near),
        ks[i].member);
      CellsVisitOnce(ks, i, code, before, width, near);
      WindowCount(ks, i, CellStart(c, width), CellStart(c + 1, width), near);
      CellIsWindow(ks[i], code, c, width);
    }
  }

  /** Nothing but members of the sequence is found. */
  lemma {:induction false} CellsVisitMembersOnly(ks: seq<Key>, m: Bytes, cells: seq<nat>, width: nat,
                                                 near: real -> bool)
    requires forall i :: 0 <= i < |ks| ==> ks[i].member != m
    ensures m !in CellMembers(ks, cells, width, near)
  {
    if |cells| > 0 {
      var c := cells[|cells| - 1];
      CellsVisitMembersOnly(ks, m, cells[..|cells| - 1], width, near);
      WindowForeign(ks, m, CellStart(c, width), CellStart(c + 1, width), near);
    }
  }
}
