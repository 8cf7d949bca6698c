/**
 * The slots of the formation board: one position on the field, in percent of its width (x) and
 * height (y), with the role expected there and the player standing on it, if any.
 */
module FormationSlots {
  import opened Wrappers
  import opened Players

  datatype Slot = Slot(id: string, role: Role, x: real, y: real, playerId: Option<string>)

  /**
   * The board reads `playerId` by JavaScript truthiness: an absent id and the empty string
   * both leave the slot free.
   */
  predicate Occupied(s: Slot): (held: bool)
    ensures held <==> Holder(s) != ""
  {
    s.playerId.Some? && s.playerId.value != ""
  }

  /** The player id of a slot, "" when it has none. */
  function Holder(s: Slot): string
  {
    if s.playerId.Some? then s.playerId.value else ""
  }

  /** The ids of the players standing on the board: never the empty id. */
  function HeldIds(b: seq<Slot>): (ids: set<string>)
    ensures "" !in ids
    decreases |b|
  {
    if b == [] then {}
    else HeldIds(b[..|b| - 1]) + if Occupied(b[|b| - 1]) then {Holder(b[|b| - 1])} else {}
  }

  /** How many slots of the board hold a player. */
  function OccupiedCount(b: seq<Slot>): (n: nat)
    ensures n <= |b|
    decreases |b|
  {
    if b == [] then 0
    else OccupiedCount(b[..|b| - 1]) + if Occupied(b[|b| - 1]) then 1 else 0
  }

  /** There are never more ids on the board than occupied slots. */
  lemma {:induction false} HeldIdsCount(b: seq<Slot>)
    ensures |HeldIds(b)| <= OccupiedCount(b)
    decreases |b|
  {
    if b != [] {
      HeldIdsCount(b[..|b| - 1]);
    }
  }

  /** No slot of the board holds a player. */
  predicate Vacant(b: seq<Slot>)
  {
    forall i :: 0 <= i < |b| ==> !Occupied(b[i])
  }

  /** Slot ids are unique within the board, as in every template. */
  predicate DistinctSlotIds(b: seq<Slot>)
  {
    forall i, j :: 0 <= i < j < |b| ==> b[i].id != b[j].id
  }

  /** No player stands on two slots at once. */
  predicate OnePlayerOneSlot(b: seq<Slot>)
  {
    forall i, j :: 0 <= i < j < |b| && Occupied(b[i]) && Occupied(b[j]) ==> Holder(b[i]) != Holder(b[j])
  }

  /** `r` has the slots of `b`, with the same ids, roles and positions, in the same order. */
  predicate SameLayout(r: seq<Slot>, b: seq<Slot>)
  {
    |r| == |b|
    && forall i :: 0 <= i < |r| ==>
         r[i].id == b[i].id && r[i].role == b[i].role && r[i].x == b[i].x && r[i].y == b[i].y
  }

  /** Every slot lies on the field, 0..100 in both coordinates. */
  predicate OnField(b: seq<Slot>)
  {
    forall i :: 0 <= i < |b| ==> 0.0 <= b[i].x <= 100.0 && 0.0 <= b[i].y <= 100.0
  }

  lemma {:induction false} OccupiedCountFull(b: seq<Slot>)
    ensures OccupiedCount(b) == |b| <==> forall j :: 0 <= j < |b| ==> Occupied(b[j])
    decreases |b|
  {
    if b != [] {
      OccupiedCountFull(b[..|b| - 1]);
    }
  }

  lemma {:induction false} OccupiedCountVacant(b: seq<Slot>)
    ensures OccupiedCount(b) == 0 <==> Vacant(b)
    decreases |b|
  {
    if b != [] {
      OccupiedCountVacant(b[..|b| - 1]);
    }
  }

  /** Replacing one slot changes the count by what leaves and what arrives. */
  lemma {:induction false} OccupiedCountUpdate(b: seq<Slot>, k: nat, s: Slot)
    requires k < |b|
    ensures OccupiedCount(b[k := s])
         == OccupiedCount(b) - (if Occupied(b[k]) then 1 else 0) + (if Occupied(s) then 1 else 0)
    decreases |b|
  {
    var b' := b[k := s];
    if k < |b| - 1 {
      assert b'[..|b'| - 1] == b[..|b| - 1][k := s];
      OccupiedCountUpdate(b[..|b| - 1], k, s);
    } else {
      assert b'[..|b'| - 1] == b[..|b| - 1];
    }
  }

  /** The players on the board are exactly the holders of its occupied slots. */
  lemma {:induction false} HeldIdsMembers(b: seq<Slot>)
    ensures forall i :: 0 <= i < |b| && Occupied(b[i]) ==> Holder(b[i]) in HeldIds(b)
    ensures forall id :: id in HeldIds(b) ==> exists i :: 0 <= i < |b| && Occupied(b[i]) && Holder(b[i]) == id
    decreases |b|
  {
    if b != [] {
      var init := b[..|b| - 1];
      HeldIdsMembers(init);
      assert forall i :: 0 <= i < |init| ==> init[i] == b[i];
    }
  }

  /** Two boards whose slots hold the same players, slot by slot, hold the same players. */
  lemma {:induction false} HeldIdsSameHolders(r: seq<Slot>, b: seq<Slot>)
    requires |r| == |b|
    requires forall i :: 0 <= i < |b| ==> (Occupied(r[i]) <==> Occupied(b[i])) && Holder(r[i]) == Holder(b[i])
    ensures HeldIds(r) == HeldIds(b)
    decreases |b|
  {
    if b != [] {
      HeldIdsSameHolders(r[..|r| - 1], b[..|b| - 1]);
    }
  }

  /** A player written into a free slot joins the players on the board. */
  lemma HeldIdsFill(b: seq<Slot>, k: nat, s: Slot)
    requires k < |b| && !Occupied(b[k]) && Occupied(s)
    ensures HeldIds(b[k := s]) == HeldIds(b) + {Holder(s)}
  {
    var r := b[k := s];
    HeldIdsMembers(b);
    HeldIdsMembers(r);
    forall id | id in HeldIds(r) ensures id in HeldIds(b) + {Holder(s)} {
      var i :| 0 <= i < |r| && Occupied(r[i]) && Holder(r[i]) == id;
      if i != k {
        assert r[i] == b[i];
      }
    }
    forall id | id in HeldIds(b) + {Holder(s)} ensures id in HeldIds(r) {
      if id == Holder(s) {
        assert Occupied(r[k]) && Holder(r[k]) == id;
      } else {
        var i :| 0 <= i < |b| && Occupied(b[i]) && Holder(b[i]) == id;
        assert r[i] == b[i];
      }
    }
  }

  /** A vacant board holds nobody. */
  lemma {:induction false} VacantHoldsNobody(b: seq<Slot>)
    requires Vacant(b)
    ensures HeldIds(b) == {}
    ensures OnePlayerOneSlot(b)
    decreases |b|
  {
    if b != [] {
      VacantHoldsNobody(b[..|b| - 1]);
    }
  }

  /** Math.max(min, Math.min(max, n)), as the drag-end handler applies it to a percentage. */
  function Clamp(n: real, lo: real, hi: real): (r: real)
    ensures lo <= r
    ensures lo <= hi ==> r <= hi
    ensures lo <= n <= hi ==> r == n
    ensures n < lo ==> r == lo
    ensures lo <= hi < n ==> r == hi
  {
    var capped := if hi < n then hi else n;
    if capped < lo then lo else capped
  }

  /** The two-letter label an empty slot shows for its role. */
  function ShortRole(role: Role): (tag: string)
    ensures |tag| == 2
  {
    match role
    case Portiere => "GK"
    case Difensore => "DF"
    case Centrocampista => "MF"
    case Attaccante => "FW"
  }

  /** Different roles get different labels, so the label identifies the role. */
  lemma ShortRoleInjective(a: Role, b: Role)
    ensures ShortRole(a) == ShortRole(b) ==> a == b
  {
  }
}
