/**
 * Calendar events and the soft migration `loadEvents` performs on each stored record: the
 * type string is normalised and missing fields get their defaults.
 */
module Events {
  import opened Wrappers

  datatype EventType = Partita | Allenamento

  /**
   * An event as the app uses it. `formation` is an opaque serialised value; `presenze` maps
   * player ids to attendance.
   */
  datatype CalendarEvent = CalendarEvent(
    id: string,
    eventType: EventType,
    date: string,
    time: string,
    location: string,
    opponent: Option<string>,
    formation: Option<string>,
    tattiche: Option<string>,
    presenze: Option<map<string, bool>>,
    temaAllenamento: Option<string>)

  /**
   * A record as found in storage, possibly written by an older version of the app: the type is
   * any string, and any field may be missing (None stands for both `undefined` and `null`).
   */
  datatype StoredEvent = StoredEvent(
    id: string,
    eventType: Option<string>,
    date: Option<string>,
    time: Option<string>,
    location: Option<string>,
    opponent: Option<string>,
    formation: Option<string>,
    tattiche: Option<string>,
    presenze: Option<map<string, bool>>,
    temaAllenamento: Option<string>)

  /** The stored type string as an EventType: only the two spellings of "match" give PARTITA. */
  function NormaliseType(t: Option<string>): (r: EventType)
    ensures r == Partita <==> t == Some("Partita") || t == Some("PARTITA")
    ensures t == Some("Allenamento") || t == Some("ALLENAMENTO") ==> r == Allenamento
  {
    if t == Some("Partita") || t == Some("PARTITA") then Partita
    else if t == Some("Allenamento") || t == Some("ALLENAMENTO") then Allenamento
    else Allenamento
  }

  /** A present value, or the default when the field is missing (JavaScript's `??`). */
  function OrElse(v: Option<string>, default: string): (r: string)
    ensures v.Some? ==> r == v.value
    ensures v.None? ==> r == default
  {
    if v.Some? then v.value else default
  }

  /** The migration of one stored record. */
  function Normalise(e: StoredEvent): (c: CalendarEvent)
    ensures c.id == e.id
    ensures c.eventType == NormaliseType(e.eventType)
    ensures c.date == OrElse(e.date, "") && c.location == OrElse(e.location, "")
    ensures c.time == OrElse(e.time, "00:00")
    ensures c.opponent == e.opponent && c.formation == e.formation && c.tattiche == e.tattiche
    ensures c.presenze == e.presenze && c.temaAllenamento == e.temaAllenamento
  {
    CalendarEvent(
      e.id,
      NormaliseType(e.eventType),
      OrElse(e.date, ""),
      OrElse(e.time, "00:00"),
      OrElse(e.location, ""),
      e.opponent,
      e.formation,
      e.tattiche,
      e.presenze,
      e.temaAllenamento)
  }

  /** The type as the app writes it. */
  function TypeName(t: EventType): string
  {
    match t
    case Partita => "PARTITA"
    case Allenamento => "ALLENAMENTO"
  }

  /** An event as it is written back to storage: every field present. */
  function Store(c: CalendarEvent): (r: StoredEvent)
    ensures r.id == c.id && NormaliseType(r.eventType) == c.eventType
    ensures r.date.Some? && r.time.Some? && r.location.Some?
  {
    StoredEvent(
      c.id, Some(TypeName(c.eventType)), Some(c.date), Some(c.time), Some(c.location),
      c.opponent, c.formation, c.tattiche, c.presenze, c.temaAllenamento)
  }

  /** Loading what the app itself wrote gives back the same event. */
  lemma NormaliseStore(c: CalendarEvent)
    ensures Normalise(Store(c)) == c
  {
    match c.eventType
    case Partita =>
    case Allenamento =>
      assert TypeName(Allenamento) != "Partita" && TypeName(Allenamento) != "PARTITA";
  }

  /** The migration is idempotent: migrating an already migrated record changes nothing. */
  lemma NormaliseIdempotent(e: StoredEvent)
    ensures Normalise(Store(Normalise(e))) == Normalise(e)
  {
    NormaliseStore(Normalise(e));
  }

  /** The migration of a whole list, in order. */
  function NormaliseList(list: seq<StoredEvent>): (r: seq<CalendarEvent>)
    ensures |r| == |list|
    ensures forall i :: 0 <= i < |list| ==> r[i] == Normalise(list[i])
  {
    seq(|list|, i requires 0 <= i < |list| => Normalise(list[i]))
  }

  /** `loadEvents` after the storage read: nothing stored gives no events. */
  function LoadEvents(stored: Option<seq<StoredEvent>>): (r: seq<CalendarEvent>)
    ensures stored.None? ==> r == []
    ensures stored.Some? ==> |r| == |stored.value|
    ensures stored.Some? ==> forall i :: 0 <= i < |r| ==> r[i] == Normalise(stored.value[i])
  {
    if stored.None? then [] else NormaliseList(stored.value)
  }

  /** Saving a loaded list and loading it again gives the same list. */
  lemma LoadSavedEvents(stored: Option<seq<StoredEvent>>)
    ensures var events := LoadEvents(stored);
      LoadEvents(Some(seq(|events|, i requires 0 <= i < |events| => Store(events[i])))) == events
  {
    var events := LoadEvents(stored);
    var saved := seq(|events|, i requires 0 <= i < |events| => Store(events[i]));
    forall i | 0 <= i < |events| ensures Normalise(saved[i]) == events[i] {
      NormaliseStore(events[i]);
    }
  }
}
