/**
 * The formation board screen: the live slot list of the current template, and the user actions
 * that rebuild it (assigning a player from the picker, dragging a slot, emptying the board,
 * resetting it to the template, switching template with or without keeping the players).
 */
module FormationBoard {
  import opened Wrappers
  import opened Players
  import opened Seqs
  import opened FormationSlots
  import opened FormationCatalog
  import opened FormationSnap

  /** The board after the slot at `index` has been dragged to (x, y). */
  function MoveSlot(b: seq<Slot>, index: nat, x: real, y: real): (r: seq<Slot>)
    requires index < |b|
    ensures |r| == |b|
    ensures r[index] == Slot(b[index].id, b[index].role, x, y, b[index].playerId)
    ensures forall j :: 0 <= j < |b| && j != index ==> r[j] == b[j]
  {
    b[index := b[index].(x := x, y := y)]
  }

  /** Dragging changes no slot's id or player, so whatever the board promised still holds. */
  lemma MoveKeepsInvariants(b: seq<Slot>, index: nat, x: real, y: real)
    requires index < |b|
    ensures HeldIds(MoveSlot(b, index, x, y)) == HeldIds(b)
    ensures DistinctSlotIds(b) ==> DistinctSlotIds(MoveSlot(b, index, x, y))
    ensures OnePlayerOneSlot(b) ==> OnePlayerOneSlot(MoveSlot(b, index, x, y))
  {
    var r := MoveSlot(b, index, x, y);
    assert forall i :: 0 <= i < |b| ==> r[i].id == b[i].id && r[i].playerId == b[i].playerId;
    assert forall i :: 0 <= i < |b| ==> (Occupied(r[i]) <==> Occupied(b[i])) && Holder(r[i]) == Holder(b[i]);
    HeldIdsSameHolders(r, b);
  }

  /** Dropping a slot where it already stands leaves the board as it was. */
  lemma MoveInPlaceIsIdentity(b: seq<Slot>, index: nat)
    requires index < |b|
    ensures MoveSlot(b, index, b[index].x, b[index].y) == b
  {
  }

  /** A second drag of the same slot overrides the first. */
  lemma MoveTwiceKeepsLast(b: seq<Slot>, index: nat, x1: real, y1: real, x2: real, y2: real)
    requires index < |b|
    ensures MoveSlot(MoveSlot(b, index, x1, y1), index, x2, y2) == MoveSlot(b, index, x2, y2)
  {
  }

  /** The board after the picker's slot (by id) received `playerId`. */
  function AssignTo(b: seq<Slot>, slotId: string, playerId: string): (r: seq<Slot>)
    ensures |r| == |b|
    ensures forall i :: 0 <= i < |b| && b[i].id == slotId ==>
      r[i] == Slot(b[i].id, b[i].role, b[i].x, b[i].y, Some(playerId))
    ensures forall i :: 0 <= i < |b| && b[i].id != slotId ==> r[i] == b[i]
  {
    seq(|b|, i requires 0 <= i < |b| => if b[i].id == slotId then b[i].(playerId := Some(playerId)) else b[i])
  }

  /**
   * Assigning a player who is not on the board to a slot of a board whose slot ids are distinct
   * keeps every player on at most one slot.
   */
  lemma AssignKeepsUnique(b: seq<Slot>, slotId: string, playerId: string)
    requires DistinctSlotIds(b)
    requires OnePlayerOneSlot(b)
    requires playerId !in HeldIds(b)
    ensures DistinctSlotIds(AssignTo(b, slotId, playerId))
    ensures OnePlayerOneSlot(AssignTo(b, slotId, playerId))
  {
    var r := AssignTo(b, slotId, playerId);
    HeldIdsMembers(b);
    forall i, j | 0 <= i < j < |r| && Occupied(r[i]) && Occupied(r[j])
      ensures Holder(r[i]) != Holder(r[j])
    {
      if b[i].id == slotId {
        assert b[j].id != slotId && r[j] == b[j];
        assert Holder(b[j]) in HeldIds(b);
      } else if b[j].id == slotId {
        assert r[i] == b[i];
        assert Holder(b[i]) in HeldIds(b);
      }
    }
  }

  /** Emptying the board: every slot keeps its place and loses its player. */
  function ClearAll(b: seq<Slot>): (r: seq<Slot>)
    ensures SameLayout(r, b)
    ensures forall i :: 0 <= i < |r| ==> r[i].playerId.None?
  {
    seq(|b|, i requires 0 <= i < |b| => b[i].(playerId := None))
  }

  /** After emptying, nobody is on the board; emptying twice is emptying once. */
  lemma ClearAllEmpties(b: seq<Slot>)
    ensures Vacant(ClearAll(b)) && HeldIds(ClearAll(b)) == {}
    ensures ClearAll(ClearAll(b)) == ClearAll(b)
    ensures DistinctSlotIds(b) ==> DistinctSlotIds(ClearAll(b))
  {
    VacantHoldsNobody(ClearAll(b));
  }

  /** Emptying the board forgets any assignment made before: only positions matter to it. */
  lemma ClearAllForgetsAssignment(b: seq<Slot>, slotId: string, playerId: string)
    ensures ClearAll(AssignTo(b, slotId, playerId)) == ClearAll(b)
  {
  }

  /** Reset: the current template's default layout with no player on it. */
  function ResetSlots(m: ModuleName): (r: seq<Slot>)
    ensures r == Template(m)
    ensures |r| == 11 && Vacant(r) && DistinctSlotIds(r) && OnField(r)
  {
    var t := Template(m);
    seq(|t|, i requires 0 <= i < |t| => t[i].(playerId := None))
  }

  /** What the screen shows after loading: the stored board when there is one, else the template. */
  function Loaded(stored: Option<seq<Slot>>, m: ModuleName): (r: seq<Slot>)
    ensures stored.Some? ==> r == stored.value
    ensures stored.None? ==> r == Template(m) && Vacant(r)
  {
    if stored.Some? then stored.value else Template(m)
  }

  /**
   * The players the picker offers: none while no slot is selected, otherwise the roster players
   * who are on no slot, in roster order and each as often as the roster lists them.
   */
  function FilteredPlayers(roster: seq<Player>, b: seq<Slot>, picker: Option<Slot>): (r: seq<Player>)
    ensures picker.None? ==> r == []
    ensures picker.Some? ==> Subsequence(r, roster)
    ensures forall p :: p in r <==> picker.Some? && p in roster && p.id !in HeldIds(b)
    ensures picker.Some? ==>
      forall p: Player :: p.id !in HeldIds(b) ==> multiset(r)[p] == multiset(roster)[p]
  {
    if picker.None? then []
    else
      var used := HeldIds(b);
      Filter((p: Player) => p.id !in used, roster)
  }

  /** A player picked from the list never ends up on two slots. */
  lemma AssignPickedKeepsUnique(roster: seq<Player>, b: seq<Slot>, picker: Option<Slot>, p: Player)
    requires DistinctSlotIds(b) && OnePlayerOneSlot(b)
    requires p in FilteredPlayers(roster, b, picker)
    ensures picker.Some?
    ensures OnePlayerOneSlot(AssignTo(b, picker.value.id, p.id))
  {
    AssignKeepsUnique(b, picker.value.id, p.id);
  }

  /**
   * The formation screen's state: the current template, its live slot list, the slot whose
   * picker is open, and the "keep players on template change" switch.
   */
  class Board {
    var currentModule: ModuleName
    var slots: seq<Slot>
    var pickerSlot: Option<Slot>
    var keepPlayers: bool

    /** Slot ids are distinct and no player stands on two slots. */
    ghost predicate Valid()
      reads this
    {
      DistinctSlotIds(slots) && OnePlayerOneSlot(slots)
    }

    /** The screen opens on "3-1-4-2" with its default layout, no picker, keeping switched off. */
    constructor ()
      ensures currentModule == M3142 && slots == Template(M3142)
      ensures pickerSlot == None && !keepPlayers
      ensures Valid()
    {
      currentModule := M3142;
      slots := Template(M3142);
      pickerSlot := None;
      keepPlayers := false;
      VacantHoldsNobody(Template(M3142));
    }

    /** Focus or template change: the stored board for the current template, or its default. */
    method LoadFormation(stored: Option<seq<Slot>>)
      modifies this
      ensures slots == Loaded(stored, currentModule)
      ensures currentModule == old(currentModule) && pickerSlot == old(pickerSlot) && keepPlayers == old(keepPlayers)
      ensures stored.None? ==> Valid()
    {
      slots := Loaded(stored, currentModule);
      if stored.None? {
        VacantHoldsNobody(slots);
      }
    }

    /** "Reset": the current template's default layout, whatever the board held. */
    method ResetFormation()
      modifies this
      ensures slots == ResetSlots(currentModule) && Valid()
      ensures currentModule == old(currentModule) && pickerSlot == old(pickerSlot) && keepPlayers == old(keepPlayers)
    {
      slots := ResetSlots(currentModule);
      VacantHoldsNobody(slots);
    }

    /** "Svuota": every slot keeps its place and loses its player. */
    method ClearPlayersOnly()
      modifies this
      ensures slots == ClearAll(old(slots))
      ensures HeldIds(slots) == {}
      ensures old(Valid()) ==> Valid()
      ensures currentModule == old(currentModule) && pickerSlot == old(pickerSlot) && keepPlayers == old(keepPlayers)
    {
      slots := ClearAll(slots);
      ClearAllEmpties(old(slots));
      VacantHoldsNobody(slots);
    }

    /** A tap on an empty slot opens the picker for it. */
    method SelectEmpty(s: Slot)
      modifies this
      ensures pickerSlot == Some(s)
      ensures currentModule == old(currentModule) && slots == old(slots) && keepPlayers == old(keepPlayers)
    {
      pickerSlot := Some(s);
    }

    /** Closing the picker without choosing. */
    method ClosePicker()
      modifies this
      ensures pickerSlot == None
      ensures currentModule == old(currentModule) && slots == old(slots) && keepPlayers == old(keepPlayers)
    {
      pickerSlot := None;
    }

    /**
     * Choosing a player in the picker: the picked slot receives them and the picker closes;
     * without an open picker nothing happens.
     */
    method AssignPlayer(playerId: string)
      modifies this
      ensures old(pickerSlot).None? ==> slots == old(slots)
      ensures old(pickerSlot).Some? ==> slots == AssignTo(old(slots), old(pickerSlot).value.id, playerId)
      ensures pickerSlot == None
      ensures old(Valid()) && playerId !in HeldIds(old(slots)) ==> Valid()
      ensures currentModule == old(currentModule) && keepPlayers == old(keepPlayers)
    {
      if pickerSlot.None? {
        return;
      }
      if Valid() && playerId !in HeldIds(slots) {
        AssignKeepsUnique(slots, pickerSlot.value.id, playerId);
      }
      slots := AssignTo(slots, pickerSlot.value.id, playerId);
      pickerSlot := None;
    }

    /** The drop of a dragged slot: only its coordinates change. */
    method HandleMove(index: nat, x: real, y: real)
      requires index < |slots|
      modifies this
      ensures slots == MoveSlot(old(slots), index, x, y)
      ensures old(Valid()) ==> Valid()
      ensures currentModule == old(currentModule) && pickerSlot == old(pickerSlot) && keepPlayers == old(keepPlayers)
    {
      MoveKeepsInvariants(slots, index, x, y);
      slots := MoveSlot(slots, index, x, y);
    }

    /** The end of a drag gesture: the dropped percentages are clamped to the field, then moved. */
    method CommitDrag(index: nat, xPercent: real, yPercent: real)
      requires index < |slots|
      modifies this
      ensures slots == MoveSlot(old(slots), index, Clamp(xPercent, 0.0, 100.0), Clamp(yPercent, 0.0, 100.0))
      ensures 0.0 <= slots[index].x <= 100.0 && 0.0 <= slots[index].y <= 100.0
      ensures old(Valid()) ==> Valid()
      ensures currentModule == old(currentModule) && pickerSlot == old(pickerSlot) && keepPlayers == old(keepPlayers)
    {
      HandleMove(index, Clamp(xPercent, 0.0, 100.0), Clamp(yPercent, 0.0, 100.0));
    }

    /** The "Mantieni" switch. */
    method ToggleKeep()
      modifies this
      ensures keepPlayers == !old(keepPlayers)
      ensures currentModule == old(currentModule) && slots == old(slots) && pickerSlot == old(pickerSlot)
    {
      keepPlayers := !keepPlayers;
    }

    /**
     * Choosing a template. Keeping on: the players are snapped onto the new template's default
     * layout. Keeping off: the template changes and, when it is a different one, the board
     * reloads from what is stored for it (`stored`) or from its default layout.
     */
    method ChooseModule(m: ModuleName, stored: Option<seq<Slot>>)
      modifies this
      ensures currentModule == m
      ensures old(keepPlayers) ==> slots == Snap(old(slots), Template(m))
      ensures !old(keepPlayers) && m != old(currentModule) ==> slots == Loaded(stored, m)
      ensures !old(keepPlayers) && m == old(currentModule) ==> slots == old(slots)
      ensures old(keepPlayers) && old(Valid()) ==> Valid()
      ensures old(keepPlayers) ==> OccupiedCount(slots) == Min(OccupiedCount(old(slots)), 11)
      ensures pickerSlot == old(pickerSlot) && keepPlayers == old(keepPlayers)
    {
      if keepPlayers {
        var snapped := SnapPlayersToNewModule(slots, Template(m));
        SnapCarriesOver(slots, Template(m));
        currentModule := m;
        slots := snapped;
      } else if m != currentModule {
        currentModule := m;
        LoadFormation(stored);
      }
    }
  }
}
