/**
 * Carrying the players over when the board switches to another template: every player of the
 * old board, in the old board's order, takes the free slot of the new layout nearest to where
 * they stood (squared distance, earliest slot on a tie); players left without a free slot drop out.
 */
module FormationSnap {
  import opened Seqs
  import opened FormationSlots

  /** Squared distance between two slots' positions: never negative, and 0 only at the same spot. */
  function SqDist(a: Slot, b: Slot): (d: real)
    ensures d >= 0.0
    ensures d == 0.0 <==> a.x == b.x && a.y == b.y
  {
    Square(a.x - b.x);
    Square(a.y - b.y);
    (a.x - b.x) * (a.x - b.x) + (a.y - b.y) * (a.y - b.y)
  }

  /** A real's square is never negative, and is 0 only for 0. */
  lemma Square(v: real)
    ensures v * v >= 0.0
    ensures v * v == 0.0 ==> v == 0.0
  {
    if v != 0.0 {
      assert v * v / v == v;
    }
  }

  /**
   * The slot a player standing at `p` takes in `b`: a free slot at the least squared distance,
   * the earliest such one; -1 when every slot is taken.
   */
  function NearestFree(p: Slot, b: seq<Slot>): (k: int)
    ensures -1 <= k < |b|
    ensures 0 <= k ==> !Occupied(b[k])
    decreases |b|
  {
    if b == [] then -1
    else
      var k := NearestFree(p, b[..|b| - 1]);
      var last := |b| - 1;
      if !Occupied(b[last]) && (k < 0 || SqDist(p, b[last]) < SqDist(p, b[k])) then last else k
  }

  /** NearestFree finds a slot exactly when one is free. */
  lemma {:induction false} NearestFreeFinds(p: Slot, b: seq<Slot>)
    ensures NearestFree(p, b) == -1 <==> forall j :: 0 <= j < |b| ==> Occupied(b[j])
    decreases |b|
  {
    if b != [] {
      NearestFreeFinds(p, b[..|b| - 1]);
      assert forall j :: 0 <= j < |b| - 1 ==> b[..|b| - 1][j] == b[j];
    }
  }

  /**
   * The slot NearestFree finds is at least as near
   * as every free slot and strictly nearer than every free slot before it.
   */
  lemma {:induction false} NearestFreeIsNearest(p: Slot, b: seq<Slot>)
    ensures var k := NearestFree(p, b);
      0 <= k ==> forall j :: 0 <= j < |b| && !Occupied(b[j]) ==> SqDist(p, b[k]) <= SqDist(p, b[j])
    ensures var k := NearestFree(p, b);
      0 <= k ==> forall j :: 0 <= j < k && !Occupied(b[j]) ==> SqDist(p, b[k]) < SqDist(p, b[j])
    decreases |b|
  {
    if b != [] {
      var init := b[..|b| - 1];
      NearestFreeIsNearest(p, init);
      NearestFreeFinds(p, init);
      assert forall j :: 0 <= j < |init| ==> init[j] == b[j];
    }
  }

  /** One more slot at the end of the board: NearestFree takes it only when it is free and strictly nearer. */
  lemma NearestFreeSnoc(p: Slot, b: seq<Slot>, x: Slot)
    ensures var k := NearestFree(p, b);
      NearestFree(p, b + [x]) == if !Occupied(x) && (k < 0 || SqDist(p, x) < SqDist(p, b[k])) then |b| else k
  {
    assert (b + [x])[..|b|] == b;
  }

  /** The board after the player of `p` has taken their nearest free slot, if there is one. */
  function Place(p: Slot, b: seq<Slot>): (r: seq<Slot>)
    ensures |r| == |b|
  {
    var k := NearestFree(p, b);
    if k < 0 then b else b[k := b[k].(playerId := p.playerId)]
  }

  /** The board after the players of `ps` have taken their places, in the order of `ps`. */
  function PlaceAll(ps: seq<Slot>, b: seq<Slot>): (r: seq<Slot>)
    ensures |r| == |b|
    decreases |ps|
  {
    if ps == [] then b else Place(ps[|ps| - 1], PlaceAll(ps[..|ps| - 1], b))
  }

  /** Placing one player keeps every slot's id, role and position, and never overwrites a taken slot. */
  lemma PlaceKeepsLayout(p: Slot, b: seq<Slot>)
    ensures SameLayout(Place(p, b), b)
    ensures forall i :: 0 <= i < |b| && Occupied(b[i]) ==> Place(p, b)[i] == b[i]
  {
  }

  /** Placing players in turn keeps the layout and never overwrites a taken slot. */
  lemma {:induction false} PlaceAllKeepsLayout(ps: seq<Slot>, b: seq<Slot>)
    ensures SameLayout(PlaceAll(ps, b), b)
    ensures forall i :: 0 <= i < |b| && Occupied(b[i]) ==> PlaceAll(ps, b)[i] == b[i]
    decreases |ps|
  {
    if ps != [] {
      var mid := PlaceAll(ps[..|ps| - 1], b);
      PlaceAllKeepsLayout(ps[..|ps| - 1], b);
      PlaceKeepsLayout(ps[|ps| - 1], mid);
    }
  }

  /** Placing the players of `ps` one more at a time. */
  lemma PlaceAllStep(ps: seq<Slot>, n: nat, b: seq<Slot>)
    requires n < |ps|
    ensures PlaceAll(ps[..n + 1], b) == Place(ps[n], PlaceAll(ps[..n], b))
  {
    assert ps[..n + 1][..n] == ps[..n];
  }

  /** The old board's occupied slots, in order: the players to carry over. */
  function Occupants(b: seq<Slot>): (r: seq<Slot>)
    ensures forall i :: 0 <= i < |r| ==> Occupied(r[i])
    decreases |b|
  {
    if b == [] then []
    else
      var rest := Occupants(b[..|b| - 1]);
      if Occupied(b[|b| - 1]) then rest + [b[|b| - 1]] else rest
  }

  /** The players to carry over are the old board's occupied slots, in their order. */
  lemma {:induction false} OccupantsSelects(b: seq<Slot>)
    ensures Subsequence(Occupants(b), b)
    ensures forall s :: s in Occupants(b) <==> s in b && Occupied(s)
    decreases |b|
  {
    if b != [] {
      var init, last := b[..|b| - 1], b[|b| - 1];
      OccupantsSelects(init);
      var r := Occupants(b);
      if Occupied(last) {
        assert r[..|r| - 1] == Occupants(init);
      }
      assert b == init + [last];
    }
  }

  /** The new layout `newSlots` with the players of `oldSlots` snapped onto it. */
  function Snap(oldSlots: seq<Slot>, newSlots: seq<Slot>): (r: seq<Slot>)
    ensures SameLayout(r, newSlots)
  {
    PlaceAllKeepsLayout(Occupants(oldSlots), newSlots);
    PlaceAll(Occupants(oldSlots), newSlots)
  }

  /** The player ids of a list of slots. */
  function IdsOf(ps: seq<Slot>): set<string>
    decreases |ps|
  {
    if ps == [] then {} else IdsOf(ps[..|ps| - 1]) + {Holder(ps[|ps| - 1])}
  }

  /** No two slots of `ps` carry the same player. */
  predicate DistinctHolders(ps: seq<Slot>)
  {
    forall i, j :: 0 <= i < j < |ps| ==> Holder(ps[i]) != Holder(ps[j])
  }

  function Min(a: int, b: int): int
  {
    if a < b then a else b
  }

  /** Appending a slot adds its player id. */
  lemma IdsOfSnoc(ps: seq<Slot>, p: Slot)
    ensures IdsOf(ps + [p]) == IdsOf(ps) + {Holder(p)}
  {
    assert (ps + [p])[..|ps|] == ps;
  }

  /** The ids of a list are exactly the players of its slots. */
  lemma {:induction false} IdsOfMembers(ps: seq<Slot>)
    ensures forall i :: 0 <= i < |ps| ==> Holder(ps[i]) in IdsOf(ps)
    ensures forall id :: id in IdsOf(ps) ==> exists i :: 0 <= i < |ps| && Holder(ps[i]) == id
    decreases |ps|
  {
    if ps != [] {
      var init := ps[..|ps| - 1];
      IdsOfMembers(init);
      assert forall i :: 0 <= i < |init| ==> init[i] == ps[i];
    }
  }

  /** A prefix carries some of the players of the whole. */
  lemma IdsOfPrefix(ps: seq<Slot>, m: nat)
    requires m <= |ps|
    ensures IdsOf(ps[..m]) <= IdsOf(ps)
  {
    IdsOfMembers(ps);
    IdsOfMembers(ps[..m]);
    forall id | id in IdsOf(ps[..m]) ensures id in IdsOf(ps) {
      var i :| 0 <= i < m && Holder(ps[..m][i]) == id;
      assert ps[..m][i] == ps[i];
    }
  }

  /** A player finds a slot exactly when the board is not full. */
  lemma NearestFreeWhenRoom(p: Slot, b: seq<Slot>)
    ensures NearestFree(p, b) >= 0 <==> OccupiedCount(b) < |b|
  {
    NearestFreeFinds(p, b);
    OccupiedCountFull(b);
  }

  /** Placing one player fills one more slot when the board is not full, and none otherwise. */
  lemma PlaceCount(p: Slot, b: seq<Slot>)
    requires Occupied(p)
    ensures OccupiedCount(Place(p, b)) == OccupiedCount(b) + if OccupiedCount(b) < |b| then 1 else 0
  {
    NearestFreeWhenRoom(p, b);
    var k := NearestFree(p, b);
    if k >= 0 {
      OccupiedCountUpdate(b, k, b[k].(playerId := p.playerId));
    }
  }

  /** Placing one player adds their id to the board when it is not full, and nothing otherwise. */
  lemma PlaceHeld(p: Slot, b: seq<Slot>)
    requires Occupied(p)
    ensures HeldIds(Place(p, b)) == HeldIds(b) + if OccupiedCount(b) < |b| then {Holder(p)} else {}
  {
    NearestFreeWhenRoom(p, b);
    var k := NearestFree(p, b);
    if k >= 0 {
      HeldIdsFill(b, k, b[k].(playerId := p.playerId));
    }
  }

  /** A player who is not on the board yet does not end up on two slots. */
  lemma PlaceKeepsUnique(p: Slot, b: seq<Slot>)
    requires OnePlayerOneSlot(b)
    requires Holder(p) !in HeldIds(b)
    ensures OnePlayerOneSlot(Place(p, b))
  {
    var k := NearestFree(p, b);
    if k >= 0 {
      var r := Place(p, b);
      HeldIdsMembers(b);
      forall i, j | 0 <= i < j < |r| && Occupied(r[i]) && Occupied(r[j])
        ensures Holder(r[i]) != Holder(r[j])
      {
        if i == k {
          assert Holder(r[j]) == Holder(b[j]) && Holder(b[j]) in HeldIds(b);
        } else if j == k {
          assert Holder(r[i]) == Holder(b[i]) && Holder(b[i]) in HeldIds(b);
        }
      }
    }
  }

  /** Placing players in turn fills min(|ps|, free slots) more slots: the rest are dropped. */
  lemma {:induction false} PlaceAllCount(ps: seq<Slot>, b: seq<Slot>)
    requires forall i :: 0 <= i < |ps| ==> Occupied(ps[i])
    ensures OccupiedCount(PlaceAll(ps, b)) == OccupiedCount(b) + Min(|ps|, |b| - OccupiedCount(b))
    decreases |ps|
  {
    if ps != [] {
      var init := ps[..|ps| - 1];
      PlaceAllCount(init, b);
      PlaceCount(ps[|ps| - 1], PlaceAll(init, b));
    }
  }

  /** Placing players in turn puts on the board the first min(|ps|, free slots) of them. */
  lemma {:induction false} PlaceAllHeld(ps: seq<Slot>, b: seq<Slot>)
    requires forall i :: 0 <= i < |ps| ==> Occupied(ps[i])
    ensures HeldIds(PlaceAll(ps, b)) == HeldIds(b) + IdsOf(ps[..Min(|ps|, |b| - OccupiedCount(b))])
    decreases |ps|
  {
    if ps == [] {
      assert IdsOf(ps[..0]) == {};
    } else {
      var init, last := ps[..|ps| - 1], ps[|ps| - 1];
      var free := |b| - OccupiedCount(b);
      var m0 := Min(|init|, free);
      PlaceAllHeld(init, b);
      PlaceAllCount(init, b);
      PlaceHeld(last, PlaceAll(init, b));
      IdsOfPrefixStep(ps, m0);
      if |init| < free {
        UnionAssoc(HeldIds(b), IdsOf(ps[..m0]), {Holder(last)});
      }
    }
  }

  /** The ids of the first m slots of `ps`, as the ids of the first m of all but its last, or of m + 1. */
  lemma IdsOfPrefixStep(ps: seq<Slot>, m: nat)
    requires m < |ps|
    ensures ps[..|ps| - 1][..m] == ps[..m]
    ensures IdsOf(ps[..m + 1]) == IdsOf(ps[..m]) + {Holder(ps[m])}
  {
    assert ps[..m + 1][..m] == ps[..m];
  }

  /** Set union regrouped: what a step adds joins what the earlier steps added. */
  lemma UnionAssoc<T>(a: set<T>, b: set<T>, c: set<T>)
    ensures a + b + c == a + (b + c)
  {
  }

  /** Players with distinct ids who are not on the board yet each end up on at most one slot. */
  lemma {:induction false} PlaceAllKeepsUnique(ps: seq<Slot>, b: seq<Slot>)
    requires forall i :: 0 <= i < |ps| ==> Occupied(ps[i])
    requires DistinctHolders(ps)
    requires OnePlayerOneSlot(b)
    requires IdsOf(ps) !! HeldIds(b)
    ensures OnePlayerOneSlot(PlaceAll(ps, b))
    decreases |ps|
  {
    if ps != [] {
      var init, last := ps[..|ps| - 1], ps[|ps| - 1];
      assert ps == init + [last];
      IdsOfSnoc(init, last);
      PlaceAllKeepsUnique(init, b);
      PlaceAllHeld(init, b);
      var m := Min(|init|, |b| - OccupiedCount(b));
      assert Holder(last) !in IdsOf(init[..m]) by {
        IdsOfMembers(init[..m]);
        forall i | 0 <= i < m ensures Holder(init[..m][i]) != Holder(last) {
          assert init[..m][i] == ps[i];
        }
      }
      PlaceKeepsUnique(last, PlaceAll(init, b));
    }
  }

  /** One player to carry over per occupied slot of the old board. */
  lemma {:induction false} OccupantsCount(b: seq<Slot>)
    ensures |Occupants(b)| == OccupiedCount(b)
    decreases |b|
  {
    if b != [] {
      OccupantsCount(b[..|b| - 1]);
    }
  }

  /** The players to carry over are exactly the players on the old board. */
  lemma {:induction false} OccupantsIds(b: seq<Slot>)
    ensures IdsOf(Occupants(b)) == HeldIds(b)
    decreases |b|
  {
    if b == [] {
      assert IdsOf(Occupants(b)) == {};
    } else {
      var init, last := b[..|b| - 1], b[|b| - 1];
      OccupantsIds(init);
      var o := Occupants(init);
      assert HeldIds(b) == HeldIds(init) + if Occupied(last) then {Holder(last)} else {} by {
        assert forall i :: 0 <= i < |init| ==> init[i] == b[i];
      }
      if Occupied(last) {
        assert Occupants(b) == o + [last];
        IdsOfSnoc(o, last);
      }
    }
  }

  /** On a board where nobody stands twice, the players to carry over have distinct ids. */
  lemma {:induction false} OccupantsDistinct(b: seq<Slot>)
    requires OnePlayerOneSlot(b)
    ensures DistinctHolders(Occupants(b))
    decreases |b|
  {
    if b != [] {
      var init, last := b[..|b| - 1], b[|b| - 1];
      assert OnePlayerOneSlot(init) by {
        assert forall i :: 0 <= i < |init| ==> init[i] == b[i];
      }
      OccupantsDistinct(init);
      if Occupied(last) {
        var o := Occupants(init);
        assert Occupants(b) == o + [last];
        OccupantsIds(init);
        assert Holder(last) !in HeldIds(init) by {
          HeldIdsMembers(init);
          assert forall i :: 0 <= i < |init| ==> init[i] == b[i];
        }
        assert Holder(last) !in IdsOf(o);
        var r := o + [last];
        IdsOfMembers(o);
        forall i, j | 0 <= i < j < |r| ensures Holder(r[i]) != Holder(r[j]) {
          if j == |o| {
            assert Holder(r[i]) in IdsOf(o);
          } else {
            assert r[i] == o[i] && r[j] == o[j];
          }
        }
      }
    }
  }

  /** Snapping onto a vacant layout carries over min(players on the old board, new slots) players. */
  lemma SnapCount(oldSlots: seq<Slot>, newSlots: seq<Slot>)
    requires Vacant(newSlots)
    ensures OccupiedCount(Snap(oldSlots, newSlots)) == Min(OccupiedCount(oldSlots), |newSlots|)
  {
    var ps := Occupants(oldSlots);
    assert OccupiedCount(newSlots) == 0 by {
      OccupiedCountVacant(newSlots);
    }
    OccupantsCount(oldSlots);
    PlaceAllCount(ps, newSlots);
  }

  /** Snapping onto a vacant layout puts only players of the old board on the new one. */
  lemma SnapHeld(oldSlots: seq<Slot>, newSlots: seq<Slot>)
    requires Vacant(newSlots)
    ensures HeldIds(Snap(oldSlots, newSlots)) <= HeldIds(oldSlots)
  {
    var ps := Occupants(oldSlots);
    var m := Min(|ps|, |newSlots|);
    assert OccupiedCount(newSlots) == 0 by {
      OccupiedCountVacant(newSlots);
    }
    assert HeldIds(newSlots) == {} by {
      VacantHoldsNobody(newSlots);
    }
    PlaceAllHeld(ps, newSlots);
    IdsOfPrefix(ps, m);
    OccupantsIds(oldSlots);
  }

  /** Snapping onto a vacant layout puts nobody on two slots when nobody stood on two before. */
  lemma SnapUnique(oldSlots: seq<Slot>, newSlots: seq<Slot>)
    requires Vacant(newSlots)
    requires OnePlayerOneSlot(oldSlots)
    ensures OnePlayerOneSlot(Snap(oldSlots, newSlots))
  {
    VacantHoldsNobody(newSlots);
    OccupantsDistinct(oldSlots);
    PlaceAllKeepsUnique(Occupants(oldSlots), newSlots);
  }

  /**
   * Switching template with the players kept: the new layout's positions are untouched, and
   * min(players on the old board, slots of the new layout) players are carried over, all taken
   * from the old board, none of them twice when none stood on two slots before.
   */
  lemma SnapCarriesOver(oldSlots: seq<Slot>, newSlots: seq<Slot>)
    requires Vacant(newSlots)
    ensures SameLayout(Snap(oldSlots, newSlots), newSlots)
    ensures OccupiedCount(Snap(oldSlots, newSlots)) == Min(OccupiedCount(oldSlots), |newSlots|)
    ensures HeldIds(Snap(oldSlots, newSlots)) <= HeldIds(oldSlots)
    ensures OnePlayerOneSlot(oldSlots) ==> OnePlayerOneSlot(Snap(oldSlots, newSlots))
  {
    PlaceAllKeepsLayout(Occupants(oldSlots), newSlots);
    SnapCount(oldSlots, newSlots);
    SnapHeld(oldSlots, newSlots);
    if OnePlayerOneSlot(oldSlots) {
      SnapUnique(oldSlots, newSlots);
    }
  }

  /**
   * The inner scan of the snapping loop: walks the slots left to right, remembering the free slot
   * at the least squared distance seen so far; a later slot replaces it only when strictly nearer.
   */
  method ScanNearestFree(pSlot: Slot, placed: array<Slot>) returns (bestIdx: int)
    ensures bestIdx == NearestFree(pSlot, placed[..])
  {
    bestIdx := -1;
    var bestDist := 0.0;
    var idx := 0;
    while idx < placed.Length
      invariant 0 <= idx <= placed.Length
      invariant bestIdx == NearestFree(pSlot, placed[..idx])
      invariant 0 <= bestIdx ==> bestDist == SqDist(pSlot, placed[bestIdx])
    {
      var nSlot := placed[idx];
      assert placed[..idx + 1] == placed[..idx] + [nSlot];
      NearestFreeSnoc(pSlot, placed[..idx], nSlot);
      if !Occupied(nSlot) {
        var dist := SqDist(pSlot, nSlot);
        if bestIdx < 0 || dist < bestDist {
          bestDist := dist;
          bestIdx := idx;
        }
      }
      idx := idx + 1;
    }
    assert placed[..] == placed[..placed.Length];
  }

  /**
   * The snapping loop of the source, on an array: each player to carry over, in order, is
   * written into the slot the scan finds for them; nothing is written when no slot is free.
   */
  method SnapPlayersToNewModule(oldSlots: seq<Slot>, newSlots: seq<Slot>) returns (r: seq<Slot>)
    ensures r == Snap(oldSlots, newSlots)
    ensures SameLayout(r, newSlots)
  {
    var placed := new Slot[|newSlots|](i requires 0 <= i < |newSlots| => newSlots[i]);
    var playersToAssign := Occupants(oldSlots);
    var n := 0;
    while n < |playersToAssign|
      invariant 0 <= n <= |playersToAssign|
      invariant placed[..] == PlaceAll(playersToAssign[..n], newSlots)
    {
      var pSlot := playersToAssign[n];
      ghost var before := placed[..];
      var bestIdx := ScanNearestFree(pSlot, placed);
      if bestIdx >= 0 {
        placed[bestIdx] := placed[bestIdx].(playerId := pSlot.playerId);
      }
      assert placed[..] == Place(pSlot, before);
      PlaceAllStep(playersToAssign, n, newSlots);
      n := n + 1;
    }
    assert playersToAssign[..n] == playersToAssign;
    r := placed[..];
    PlaceAllKeepsLayout(playersToAssign, newSlots);
  }
}
