/** The radius search over a skip list: neighbour cells, their windows, and what the walk brings back. */
module GeoSearch {
  import opened Bytes
  import opened BitNumbers
  import opened GeoCodes
  import opened GeoCells
  import opened GeoNeighbours
  import opened SkipListOrder
  import opened CellWindows
  import S = SkipList

  /** The search over a position's neighbour cells: each member comes back exactly once if the leading bits of
      its code are one of those cells and it passes the distance filter, and no other member does. */
  method SearchNeighbours(list: S.SkipList, lon: real, lat: real, step: nat, near: real -> bool)
    returns (cells: seq<bv64>, results: seq<Bytes>)
    requires list.Linked() && OnMap(Coordinates(lat, lon)) && 1 <= step <= 26
    ensures |list.chain| > 0
    ensures forall c :: c in cells <==> FoundBy(Coordinates(lat, lon), step, 2, -1, c)
    ensures forall i, code: bv64 :: 0 <= i < |list.Keys()| && list.Keys()[i].score == Number(code, 64) as real ==>
      multiset(results)[list.Keys()[i].member] ==
        if Shr(code, 52 - 2 * step) in cells && near(list.Keys()[i].score) then 1 else 0
    ensures forall i, q ::
      0 <= i < |list.Keys()| && OnMap(q) && list.Keys()[i].score == Number(GeoScoreEncode(q), 64) as real ==>
      multiset(results)[list.Keys()[i].member] ==
        if (exists dy, dx :: Visited(Coordinates(lat, lon), q, step, dy, dx)) && near(list.Keys()[i].score)
        then 1 else 0
    ensures forall m :: m in results ==> m in list.dictionary
  {
    hide Number, Shr, Pow2, FoundBy, OnMap, CellMembers, S.SkipList.Linked, S.SkipList.Framed, S.SkipList.Keys,
      Distinct, MembersDistinct, Visited, GeoScoreEncode;
    cells := GeoSearchGetNeighborCells(lon, lat, step);
    var shift := 52 - 2 * step;
    results := list.WalkCells(Numbers(cells), Pow2(shift), near);
    list.HeadFirst();
    list.KeysDistinct();
    ghost var ks := list.Keys();
    forall i, code: bv64 | 0 <= i < |ks| && ks[i].score == Number(code, 64) as real
      ensures multiset(results)[ks[i].member] == if Shr(code, shift) in cells && near(ks[i].score) then 1 else 0
    {
      EachVisitedOnce(ks, i, code, shift, cells, near);
    }
    forall i, q | 0 <= i < |ks| && OnMap(q) && ks[i].score == Number(GeoScoreEncode(q), 64) as real
      ensures multiset(results)[ks[i].member] ==
        if (exists dy, dx :: Visited(Coordinates(lat, lon), q, step, dy, dx)) && near(ks[i].score) then 1 else 0
    {
      VisitedIff(Coordinates(lat, lon), q, step);
      assert CellOf(q, step) == Shr(GeoScoreEncode(q), shift);
      assert multiset(results)[ks[i].member] ==
        if Shr(GeoScoreEncode(q), shift) in cells && near(ks[i].score) then 1 else 0;
    }
    forall m | m in results ensures m in list.dictionary {
      if m !in list.dictionary {
        CellsVisitMembersOnly(ks, m, Numbers(cells), Pow2(shift), near);
      }
    }
  }
}
