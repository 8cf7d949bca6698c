/**
 * The calendar screen's editing rules: validating and saving the event form (adding a new event
 * or replacing the edited one), deleting, the events of the selected day, and the dates marked
 * on the month view. The screen reads the stored list without the migration of `Events`, so the
 * lists here are records in the shape the app itself writes.
 */
module Calendar {
  import opened Wrappers
  import opened Seqs
  import opened Events

  /** The white space JavaScript's `String.prototype.trim` removes. */
  predicate IsJsSpace(c: char)
  {
    c == ' ' || c == '\t' || c == '\n' || c == '\r' || c == '\U{000B}' || c == '\U{000C}'
    || c == '\U{00A0}' || c == '\U{FEFF}' || c == '\U{1680}' || ('\U{2000}' <= c <= '\U{200A}')
    || c == '\U{2028}' || c == '\U{2029}' || c == '\U{202F}' || c == '\U{205F}' || c == '\U{3000}'
  }

  /** `s` without its leading white space. */
  function TrimStart(s: string): (r: string)
    ensures |r| <= |s| && r == s[|s| - |r|..]
    ensures r == [] || !IsJsSpace(r[0])
    ensures forall i :: 0 <= i < |s| - |r| ==> IsJsSpace(s[i])
    decreases |s|
  {
    if s != [] && IsJsSpace(s[0]) then TrimStart(s[1..]) else s
  }

  /** `s` without its trailing white space. */
  function TrimEnd(s: string): (r: string)
    ensures |r| <= |s| && r == s[..|r|]
    ensures r == [] || !IsJsSpace(r[|r| - 1])
    ensures forall i :: |r| <= i < |s| ==> IsJsSpace(s[i])
    decreases |s|
  {
    if s != [] && IsJsSpace(s[|s| - 1]) then TrimEnd(s[..|s| - 1]) else s
  }

  /** `s.trim()`: a piece of `s` that neither starts nor ends with white space. */
  function Trim(s: string): (t: string)
    ensures exists k ::
              0 <= k <= |s| - |t| && t == s[k..][..|t|]
              && (forall i :: 0 <= i < k ==> IsJsSpace(s[i]))
              && (forall i :: k + |t| <= i < |s| ==> IsJsSpace(s[i]))
    ensures t == [] || (!IsJsSpace(t[0]) && !IsJsSpace(t[|t| - 1]))
  {
    TrimEnd(TrimStart(s))
  }

  /** A field counts as filled in exactly when it holds a character that is not white space. */
  lemma TrimEmpty(s: string)
    ensures Trim(s) == "" <==> forall i :: 0 <= i < |s| ==> IsJsSpace(s[i])
  {
    var t := TrimStart(s);
    if Trim(s) == "" {
      assert t == [];
    } else {
      var r := Trim(s);
      assert r[0] == t[0];
      assert !IsJsSpace(s[|s| - |t|]);
    }
  }

  /** What the event form holds when "save" is pressed. */
  datatype EventForm = EventForm(eventType: EventType, time: string, location: string, opponent: string)

  /** Why a save is refused. */
  datatype SaveError = MissingTimeOrLocation | MissingOpponent

  /** The form's validation: time and place first, then the opponent of a match. */
  function Validate(f: EventForm): (r: Option<SaveError>)
    ensures r == Some(MissingTimeOrLocation) <==> Trim(f.time) == "" || Trim(f.location) == ""
    ensures r == Some(MissingOpponent) <==>
      Trim(f.time) != "" && Trim(f.location) != "" && f.eventType == Partita && Trim(f.opponent) == ""
  {
    if Trim(f.time) == "" || Trim(f.location) == "" then Some(MissingTimeOrLocation)
    else if f.eventType == Partita && Trim(f.opponent) == "" then Some(MissingOpponent)
    else None
  }

  /**
   * An edit replaces the event with `editingId` only when that id is truthy; the empty string
   * falls back to adding, although it still becomes the new event's id.
   */
  predicate Editing(editingId: Option<string>): (editing: bool)
    ensures editingId.None? ==> !editing
    ensures editingId == Some("") ==> !editing
    ensures editingId.Some? && |editingId.value| > 0 ==> editing
  {
    editingId.Some? && editingId.value != ""
  }

  /** The record the form saves; `freshId` is the new id drawn for an added event. */
  function SavedEvent(f: EventForm, selectedDate: string, editingId: Option<string>, freshId: string)
    : (e: CalendarEvent)
    ensures e.id == if editingId.Some? then editingId.value else freshId
    ensures e.eventType == f.eventType && e.date == selectedDate
    ensures e.time == f.time && e.location == f.location
    ensures e.opponent == if f.eventType == Partita then Some(Trim(f.opponent)) else None
    ensures e.formation.None? && e.tattiche.None? && e.presenze.None? && e.temaAllenamento.None?
  {
    CalendarEvent(
      if editingId.Some? then editingId.value else freshId,
      f.eventType, selectedDate, f.time, f.location,
      if f.eventType == Partita then Some(Trim(f.opponent)) else None,
      None, None, None, None)
  }

  /** Every event carrying `id` replaced by `e`; the others untouched, in place. */
  function ReplaceById(events: seq<CalendarEvent>, id: string, e: CalendarEvent): (r: seq<CalendarEvent>)
    ensures |r| == |events|
    ensures forall i :: 0 <= i < |events| && events[i].id == id ==> r[i] == e
    ensures forall i :: 0 <= i < |events| && events[i].id != id ==> r[i] == events[i]
  {
    seq(|events|, i requires 0 <= i < |events| => if events[i].id == id then e else events[i])
  }

  /** Pressing "save": the refusal, or the new event list. */
  function HandleSave(
    events: seq<CalendarEvent>, f: EventForm, selectedDate: string,
    editingId: Option<string>, freshId: string): (r: Result<seq<CalendarEvent>, SaveError>)
    ensures Validate(f).Some? <==> r.Err?
    ensures r.Err? ==> r.error == Validate(f).value
    ensures r.Ok? && Editing(editingId) ==>
      r.value == ReplaceById(events, editingId.value, SavedEvent(f, selectedDate, editingId, freshId))
    ensures r.Ok? && !Editing(editingId) ==>
      r.value == events + [SavedEvent(f, selectedDate, editingId, freshId)]
  {
    match Validate(f)
    case Some(err) => Err(err)
    case None =>
      var base := SavedEvent(f, selectedDate, editingId, freshId);
      if Editing(editingId) then Ok(ReplaceById(events, editingId.value, base))
      else Ok(events + [base])
  }

  /** Deleting: the events with another id, in their order, each as often as before. */
  function DeleteById(events: seq<CalendarEvent>, id: string): (r: seq<CalendarEvent>)
    ensures Subsequence(r, events)
    ensures forall i :: 0 <= i < |r| ==> r[i].id != id
    ensures forall e: CalendarEvent :: e.id != id ==> multiset(r)[e] == multiset(events)[e]
  {
    Filter((e: CalendarEvent) => e.id != id, events)
  }

  /** Deleting a just-added event with an id new to the list gives the list back. */
  lemma DeleteUndoesAdd(events: seq<CalendarEvent>, e: CalendarEvent)
    requires forall i :: 0 <= i < |events| ==> events[i].id != e.id
    ensures DeleteById(events + [e], e.id) == events
  {
    var keep := (x: CalendarEvent) => x.id != e.id;
    FilterDropsLast(keep, events, e);
    FilterKeepsAll(keep, events);
  }

  /** The events of the selected day, in list order. */
  function EventsForDay(events: seq<CalendarEvent>, selectedDate: string): (r: seq<CalendarEvent>)
    ensures Subsequence(r, events)
    ensures forall i :: 0 <= i < |r| ==> r[i].date == selectedDate
    ensures forall e: CalendarEvent :: e.date == selectedDate ==> multiset(r)[e] == multiset(events)[e]
  {
    Filter((e: CalendarEvent) => e.date == selectedDate, events)
  }

  datatype DotColor = Red | Blue

  /** The month view's mark for one date. */
  datatype Mark = Mark(marked: bool, dotColor: Option<DotColor>, selected: bool, selectedColor: Option<string>)

  function ColorOf(t: EventType): DotColor
  {
    if t == Partita then Red else Blue
  }

  const SelectedColor: string := "#1b7f3b"

  /** The marks the reduce leaves for `events`: each date coloured by the last of its events. */
  function DayMarks(events: seq<CalendarEvent>): (marks: map<string, Mark>)
    ensures forall d :: d in marks ==> marks[d].marked && marks[d].dotColor.Some? && !marks[d].selected
    decreases |events|
  {
    if events == [] then map[]
    else
      var e := events[|events| - 1];
      DayMarks(events[..|events| - 1])[e.date := Mark(true, Some(ColorOf(e.eventType)), false, None)]
  }

  /**
   * The selected date's entry added on top of the day marks: a marked date keeps its mark and
   * dot, a date with no mark gets none.
   */
  function WithSelection(marks: map<string, Mark>, selectedDate: string): (r: map<string, Mark>)
    ensures r.Keys == marks.Keys + {selectedDate}
    ensures r[selectedDate].selected && r[selectedDate].selectedColor == Some(SelectedColor)
    ensures selectedDate in marks ==>
      r[selectedDate].marked == marks[selectedDate].marked
      && r[selectedDate].dotColor == marks[selectedDate].dotColor
    ensures selectedDate !in marks ==> !r[selectedDate].marked && r[selectedDate].dotColor.None?
    ensures forall d :: d in marks && d != selectedDate ==> r[d] == marks[d]
  {
    var prior := if selectedDate in marks then marks[selectedDate] else Mark(false, None, false, None);
    marks[selectedDate := prior.(selected := true, selectedColor := Some(SelectedColor))]
  }

  /**
   * The day marks: a date is marked exactly when an event falls on it, as a marked date whose dot
   * is red when the last event on it in list order is a match and blue otherwise.
   */
  lemma {:induction false} DayMarksLastEvent(events: seq<CalendarEvent>, d: string)
    ensures d in DayMarks(events) <==> exists i :: 0 <= i < |events| && events[i].date == d
    ensures d in DayMarks(events) ==>
      (exists i :: 0 <= i < |events| && events[i].date == d
        && (forall j :: i < j < |events| ==> events[j].date != d)
        && DayMarks(events)[d] == Mark(true, Some(ColorOf(events[i].eventType)), false, None))
    decreases |events|
  {
    if events != [] {
      var init, e := events[..|events| - 1], events[|events| - 1];
      DayMarksLastEvent(init, d);
      assert forall i :: 0 <= i < |init| ==> init[i] == events[i];
      if e.date == d {
        assert events[|events| - 1].date == d;
      } else if d in DayMarks(init) {
        var i :| 0 <= i < |init| && init[i].date == d
          && (forall j :: i < j < |init| ==> init[j].date != d)
          && DayMarks(init)[d] == Mark(true, Some(ColorOf(init[i].eventType)), false, None);
        assert events[i] == init[i];
      }
    }
  }

  /**
   * The `marked` reduce: one pass over the events updating the accumulator entry of each event's
   * date, then the selected date's entry on top.
   */
  method MarkedDates(events: seq<CalendarEvent>, selectedDate: string) returns (marked: map<string, Mark>)
    ensures marked == WithSelection(DayMarks(events), selectedDate)
    ensures selectedDate in marked && marked[selectedDate].selected
    ensures forall d :: d in marked && d != selectedDate ==> !marked[d].selected && marked[d].marked
    ensures (forall i :: 0 <= i < |events| ==> events[i].date != selectedDate) ==>
      !marked[selectedDate].marked && marked[selectedDate].dotColor.None?
  {
    var acc: map<string, Mark> := map[];
    var i := 0;
    while i < |events|
      invariant 0 <= i <= |events|
      invariant acc == DayMarks(events[..i])
      invariant forall d :: d in acc ==> !acc[d].selected && acc[d].marked && acc[d].selectedColor.None?
    {
      var e := events[i];
      var entry := if e.date in acc then acc[e.date] else Mark(true, None, false, None);
      entry := entry.(marked := true);
      entry := entry.(dotColor := Some(if e.eventType == Partita then Red else Blue));
      acc := acc[e.date := entry];
      assert events[..i + 1][..i] == events[..i];
      i := i + 1;
    }
    assert events[..i] == events;
    DayMarksLastEvent(events, selectedDate);
    var prior := if selectedDate in acc then acc[selectedDate] else Mark(false, None, false, None);
    marked := acc[selectedDate := prior.(selected := true, selectedColor := Some(SelectedColor))];
  }
}
