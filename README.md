# Ellera club app: formation board, calendar and roster rules in Dafny

This project models the logic at the heart of a football club's mobile app. The app itself is written
in TypeScript/React Native.

- **Formation board** (`app/squadra/formazione.tsx`):
  - the catalogue of eight eleven-slot templates ("moduli");
  - the slot list the coach edits: assigning a player from the picker, dragging a slot, emptying the
    board, resetting it;
  - choosing another template, with or without the "keep players" switch. With the switch on, the
    greedy nearest-free-slot algorithm moves every placed player onto the new template.
- **Event normalisation** (`app/data/events.ts`): the soft migration `loadEvents` performs on each
  stored calendar record. The type spelling is normalised and missing fields get defaults.
- **Calendar editing** (`app/calendario.tsx`):
  - validation of the event form;
  - adding an event, or replacing the one being edited;
  - deleting by id;
  - the events of the selected day;
  - the map of marked dates shown on the month view.
- **Roster view** (`app/squadra/rosa.tsx`):
  - the role, birth-year and name-search filters;
  - the sort by role rank and then by name;
  - the grouping into one section per role, in rank order;
  - the list of birth years offered as filters.

Modules, one per file:

- `Wrappers`: `Option` and `Result`.
- `Seqs`: order-preserving filtering and subsequences.
- `Players`: the player record.
- `FormationSlots`: slots, occupancy, `clamp`, `shortRole`.
- `FormationCatalog`: the templates.
- `FormationSnap`: snapping players onto a new template.
  - The specification is functional: `NearestFree`, `Place`, `PlaceAll` and `Snap`. Their properties
    are separate lemmas.
  - The source's nested loops over a copied array become the methods `ScanNearestFree` and
    `SnapPlayersToNewModule`, each proved equal to its specification function.
- `FormationBoard`: the pure slot-list transitions, plus the `Board` class holding the screen's
  mutable state.
- `Events`: loading and normalising stored events.
- `Calendar`: the calendar rules. The `marked` reduce is a method with a loop.
- `Roster`: the roster rules. The grouping `forEach` is a method with a loop.

A slot counts as holding a player when its `playerId` is present and not the empty string. This is
the truthiness test the source uses in `filter(s => s.playerId)`, `!nSlot.playerId` and
`filter(Boolean)`.

## Model

| member | source | states |
|---|---|---|
| FormationSlots.Occupied | app/squadra/formazione.tsx:300 | a slot holds a player exactly when its player id, read as "" when absent, is not the empty string (the truthiness of `s.playerId`) |
| FormationSlots.HeldIds | app/squadra/formazione.tsx:277-281 | the empty id is never among the ids on the board |
| FormationSlots.HeldIdsCount | app/squadra/formazione.tsx:277-281 | the board never holds more distinct ids than occupied slots |
| FormationSlots.OccupiedCount | app/squadra/formazione.tsx:300 | a board holds at most as many players as it has slots |
| FormationSlots.OccupiedCountFull | app/squadra/formazione.tsx:300-318 | a board's player count equals its length exactly when every slot holds a player |
| FormationSlots.OccupiedCountVacant | app/squadra/formazione.tsx:300-318 | a board's player count is 0 exactly when no slot holds a player |
| FormationSlots.OccupiedCountUpdate | app/squadra/formazione.tsx:316 | filling one free slot raises the player count by exactly one |
| FormationSlots.HeldIdsMembers | app/squadra/formazione.tsx:277-281 | the ids on the board are exactly the players of its occupied slots |
| FormationSlots.HeldIdsSameHolders | app/squadra/formazione.tsx:291-296 | two boards holding the same player on each slot hold the same ids |
| FormationSlots.HeldIdsFill | app/squadra/formazione.tsx:316 | filling one free slot adds exactly that player's id to the ids on the board |
| FormationSlots.VacantHoldsNobody | app/squadra/formazione.tsx:32-184 | a board with no players holds no ids and trivially has each player on at most one slot |
| FormationSlots.Clamp | app/squadra/formazione.tsx:439-442 | the result is at least `min`; it is at most `max` when `min <= max`; a value already in range is returned unchanged; a value below is raised to `min`, a value above lowered to `max` |
| FormationSlots.ShortRole | app/squadra/formazione.tsx:443-451 | every role gets a two-letter tag (GK/DF/MF/FW) |
| FormationSlots.ShortRoleInjective | app/squadra/formazione.tsx:443-451 | different roles get different tags |
| FormationCatalog.ModuleKeys | app/squadra/formazione.tsx:347 | the template buttons list eight distinct templates |
| FormationCatalog.ModuleKeysComplete | app/squadra/formazione.tsx:347 | every template appears among the buttons |
| FormationCatalog.Lookup | app/squadra/formazione.tsx:32-184 | a name resolves only to the template carrying that name |
| FormationCatalog.LookupOwnName | app/squadra/formazione.tsx:32-184 | each template's name resolves back to that template |
| FormationCatalog.LookupName | app/squadra/formazione.tsx:32-184 | each template's name resolves back to it, and a name resolves exactly when some template carries it |
| FormationCatalog.Template | app/squadra/formazione.tsx:28-184 | every template has 11 slots with distinct ids, no players, and coordinates within 0..100 |
| FormationCatalog.Layout3142 | app/squadra/formazione.tsx:34-54 | the "3-1-4-2" layout: 11 slots, empty, on the field |
| FormationCatalog.Layout3142Ids | app/squadra/formazione.tsx:34-54 | the "3-1-4-2" layout's slot ids are distinct |
| FormationCatalog.Layout3421 | app/squadra/formazione.tsx:57-73 | the "3-4-2-1" layout: 11 slots, empty, on the field |
| FormationCatalog.Layout3421Ids | app/squadra/formazione.tsx:57-73 | the "3-4-2-1" layout's slot ids are distinct |
| FormationCatalog.Layout442 | app/squadra/formazione.tsx:76-91 | the "4-4-2" layout: 11 slots, empty, on the field |
| FormationCatalog.Layout442Ids | app/squadra/formazione.tsx:76-91 | the "4-4-2" layout's slot ids are distinct |
| FormationCatalog.Layout433 | app/squadra/formazione.tsx:94-109 | the "4-3-3" layout: 11 slots, empty, on the field |
| FormationCatalog.Layout433Ids | app/squadra/formazione.tsx:94-109 | the "4-3-3" layout's slot ids are distinct |
| FormationCatalog.Layout4231 | app/squadra/formazione.tsx:112-128 | the "4-2-3-1" layout: 11 slots, empty, on the field |
| FormationCatalog.Layout4231Ids | app/squadra/formazione.tsx:112-128 | the "4-2-3-1" layout's slot ids are distinct |
| FormationCatalog.Layout4321 | app/squadra/formazione.tsx:131-147 | the "4-3-2-1" layout: 11 slots, empty, on the field |
| FormationCatalog.Layout4321Ids | app/squadra/formazione.tsx:131-147 | the "4-3-2-1" layout's slot ids are distinct |
| FormationCatalog.Layout352 | app/squadra/formazione.tsx:150-165 | the "3-5-2" layout: 11 slots, empty, on the field |
| FormationCatalog.Layout352Ids | app/squadra/formazione.tsx:150-165 | the "3-5-2" layout's slot ids are distinct |
| FormationCatalog.Layout532 | app/squadra/formazione.tsx:168-183 | the "5-3-2" layout: 11 slots, empty, on the field |
| FormationCatalog.Layout532Ids | app/squadra/formazione.tsx:168-183 | the "5-3-2" layout's slot ids are distinct |
| FormationSnap.SqDist | app/squadra/formazione.tsx:306-308 | the squared distance is never negative, and is 0 exactly when the two positions coincide |
| FormationSnap.Square | app/squadra/formazione.tsx:308 | a square is never negative and is 0 only for 0 |
| FormationSnap.NearestFree | app/squadra/formazione.tsx:302-315 | the chosen index is -1 or a free slot of the board |
| FormationSnap.NearestFreeFinds | app/squadra/formazione.tsx:302-315 | no slot is chosen exactly when every slot is taken |
| FormationSnap.NearestFreeIsNearest | app/squadra/formazione.tsx:304-313 | the chosen slot is at least as near as every free slot, and strictly nearer than every free slot before it, so ties go to the lowest index |
| FormationSnap.NearestFreeWhenRoom | app/squadra/formazione.tsx:302-315 | a slot is chosen exactly when the board has fewer players than slots |
| FormationSnap.NearestFreeSnoc | app/squadra/formazione.tsx:304-313 | one more slot at the end is taken only when it is free and strictly nearer than the slot found so far |
| FormationSnap.PlaceKeepsLayout | app/squadra/formazione.tsx:315-317 | placing one player keeps every slot's id, role and position, and never overwrites a taken slot |
| FormationSnap.PlaceAllKeepsLayout | app/squadra/formazione.tsx:301-318 | placing the players one after another keeps the layout and never overwrites a taken slot |
| FormationSnap.PlaceAllStep | app/squadra/formazione.tsx:301-318 | placing one more player of the list is one more `Place` step |
| FormationSnap.Occupants | app/squadra/formazione.tsx:300 | every slot carried over holds a player |
| FormationSnap.OccupantsSelects | app/squadra/formazione.tsx:300 | the players to carry over are exactly the old slots holding a player, in their order |
| FormationSnap.IdsOfSnoc | app/squadra/formazione.tsx:301 | the ids of a list with one more slot gain exactly that slot's player |
| FormationSnap.IdsOfMembers | app/squadra/formazione.tsx:301 | the ids of a list are exactly the players of its slots |
| FormationSnap.IdsOfPrefix | app/squadra/formazione.tsx:301 | the ids of a prefix are among the ids of the whole list |
| FormationSnap.Place | app/squadra/formazione.tsx:315-317 | placing one player keeps the board's length; the layout and the taken slots are kept (`PlaceKeepsLayout`) |
| FormationSnap.PlaceAll | app/squadra/formazione.tsx:301-318 | placing the players in turn keeps the board's length; the layout and the taken slots are kept (`PlaceAllKeepsLayout`) |
| FormationSnap.PlaceCount | app/squadra/formazione.tsx:315-317 | placing one player adds one to the player count while a slot is free, and nothing otherwise |
| FormationSnap.PlaceHeld | app/squadra/formazione.tsx:315-317 | placing one player adds exactly their id while a slot is free, and nothing otherwise |
| FormationSnap.PlaceKeepsUnique | app/squadra/formazione.tsx:315-317 | placing a player not yet on the board keeps each player on at most one slot |
| FormationSnap.PlaceAllCount | app/squadra/formazione.tsx:301-318 | placing a list adds min(list length, free slots) players |
| FormationSnap.PlaceAllHeld | app/squadra/formazione.tsx:301-318 | placing a list adds exactly the ids of its first min(length, free slots) entries; later ones are dropped |
| FormationSnap.PlaceAllKeepsUnique | app/squadra/formazione.tsx:301-318 | placing distinct players not yet on the board keeps each player on at most one slot |
| FormationSnap.OccupantsCount | app/squadra/formazione.tsx:300 | as many players are carried over as the old board holds |
| FormationSnap.OccupantsIds | app/squadra/formazione.tsx:300 | the carried-over ids are exactly the old board's ids |
| FormationSnap.OccupantsDistinct | app/squadra/formazione.tsx:300 | on a board with each player on at most one slot, the carried-over players are distinct |
| FormationSnap.SnapCount | app/squadra/formazione.tsx:298-320 | snapping onto an empty layout keeps min(players on the old board, new slots) players |
| FormationSnap.SnapHeld | app/squadra/formazione.tsx:298-320 | snapping only places players that were on the old board |
| FormationSnap.SnapUnique | app/squadra/formazione.tsx:298-320 | snapping a board with each player on one slot keeps that so |
| FormationSnap.Snap | app/squadra/formazione.tsx:298-320 | the snapped board has the new template's slots: the same ids, roles and positions, in the same order |
| FormationSnap.SnapCarriesOver | app/squadra/formazione.tsx:298-320 | snapping onto an empty layout keeps the new layout, carries min(old players, new slots) players, only old players, each on at most one slot |
| FormationSnap.ScanNearestFree | app/squadra/formazione.tsx:302-314 | the inner loop over the copied array returns the index `NearestFree` specifies |
| FormationSnap.SnapPlayersToNewModule | app/squadra/formazione.tsx:298-320 | the nested loops writing into the copied array return exactly `Snap(old, new)`, with the new layout |
| FormationBoard.MoveSlot | app/squadra/formazione.tsx:291-296 | only the moved index gets the new x and y, keeping its id, role and player; every other slot and the length are unchanged |
| FormationBoard.MoveKeepsInvariants | app/squadra/formazione.tsx:291-296 | a move keeps the ids on the board, distinct slot ids, and each player on at most one slot |
| FormationBoard.MoveInPlaceIsIdentity | app/squadra/formazione.tsx:291-296 | dropping a slot where it already is changes nothing |
| FormationBoard.MoveTwiceKeepsLast | app/squadra/formazione.tsx:291-296 | two moves of one slot amount to the last one |
| FormationBoard.AssignTo | app/squadra/formazione.tsx:285 | the slot(s) with the picked id get the player; every other slot and the length are unchanged |
| FormationBoard.AssignKeepsUnique | app/squadra/formazione.tsx:283-289 | assigning a player not on the board to a slot keeps distinct slot ids and each player on at most one slot |
| FormationBoard.ClearAll | app/squadra/formazione.tsx:272 | every slot keeps its id, role and position, in order, and loses its player |
| FormationBoard.ClearAllEmpties | app/squadra/formazione.tsx:271-275 | the emptied board holds no ids, emptying twice equals emptying once, slot ids stay distinct |
| FormationBoard.ClearAllForgetsAssignment | app/squadra/formazione.tsx:271-289 | emptying after an assignment gives the same board as emptying before it |
| FormationBoard.ResetSlots | app/squadra/formazione.tsx:265-269 | the reset board is the current template: 11 empty slots with distinct ids on the field, whatever the board held before |
| FormationBoard.Loaded | app/squadra/formazione.tsx:260-263 | the stored board when there is one, otherwise the template's empty default |
| FormationBoard.FilteredPlayers | app/squadra/formazione.tsx:277-281 | no picker means no candidates; otherwise the candidates are the roster players whose id is on no slot, in roster order, each as often as the roster lists them |
| FormationBoard.AssignPickedKeepsUnique | app/squadra/formazione.tsx:277-289 | assigning any picker candidate keeps each player on at most one slot |
| FormationBoard.Board.constructor | app/squadra/formazione.tsx:237-241 | the screen opens on "3-1-4-2" with its default layout, no picker, keeping off |
| FormationBoard.Board.LoadFormation | app/squadra/formazione.tsx:246-263 | the slots become the stored board or the template default; nothing else changes |
| FormationBoard.Board.ResetFormation | app/squadra/formazione.tsx:265-269 | the slots become the template's default; nothing else changes |
| FormationBoard.Board.ClearPlayersOnly | app/squadra/formazione.tsx:271-275 | the slots are emptied in place and keep their invariants; nothing else changes |
| FormationBoard.Board.SelectEmpty | app/squadra/formazione.tsx:210 | tapping an empty slot opens the picker on it |
| FormationBoard.Board.ClosePicker | app/squadra/formazione.tsx:412 | closing the picker leaves the board unchanged |
| FormationBoard.Board.AssignPlayer | app/squadra/formazione.tsx:283-289 | without a picker nothing changes; otherwise the picked slot gets the player and the picker closes |
| FormationBoard.Board.HandleMove | app/squadra/formazione.tsx:291-296 | the slots become `MoveSlot` of the old slots, keeping the board's invariants |
| FormationBoard.Board.CommitDrag | app/squadra/formazione.tsx:204-208 | a drop clamps both percentages to 0..100 and then moves the slot, so the dropped slot lies on the field |
| FormationBoard.Board.ToggleKeep | app/squadra/formazione.tsx:377-380 | the switch flips; nothing else changes |
| FormationBoard.Board.ChooseModule | app/squadra/formazione.tsx:322-331 | keeping on: players are snapped onto the new template, min(old players, 11) of them, each on one slot; keeping off: a different template reloads its stored or default board, the same template leaves the board as it is |
| Events.NormaliseType | app/data/events.ts:31-33 | the type is PARTITA exactly for 'Partita'/'PARTITA'; 'Allenamento'/'ALLENAMENTO' and everything else give ALLENAMENTO |
| Events.OrElse | app/data/events.ts:34-36 | a present value is kept, a missing one becomes the default |
| Events.Normalise | app/data/events.ts:29-42 | the id is kept; the type is normalised; a missing date or location becomes '' and a missing time '00:00'; the optional fields are copied unchanged |
| Events.Store | app/data/events.ts:45-47 | a saved record keeps the id, spells the type so that the migration reads the same type back, and has a date, a time and a location |
| Events.NormaliseStore | app/data/events.ts:29-47 | loading a saved event gives the event back |
| Events.NormaliseIdempotent | app/data/events.ts:29-42 | normalising a normalised record changes nothing |
| Events.NormaliseList | app/data/events.ts:29 | one normalised record per stored record, in order |
| Events.LoadEvents | app/data/events.ts:23-43 | nothing stored gives no events; otherwise one normalised record per stored record, in order |
| Events.LoadSavedEvents | app/data/events.ts:23-47 | saving the loaded events and loading them again gives the same list |
| Calendar.TrimStart | app/calendario.tsx:58 | leading white space only is removed, up to the first other character |
| Calendar.TrimEnd | app/calendario.tsx:58 | trailing white space only is removed, back to the last other character |
| Calendar.Trim | app/calendario.tsx:58 | `trim()` gives a contiguous piece of the text that neither starts nor ends with white space, and everything cut off before and after it is white space |
| Calendar.TrimEmpty | app/calendario.tsx:58-65 | a field trims to empty exactly when it is all white space |
| Calendar.Validate | app/calendario.tsx:57-65 | missing time or location is refused first; then a match without an opponent; otherwise the form passes |
| Calendar.SavedEvent | app/calendario.tsx:67-74 | the saved record has the edited id or the fresh one, the selected date, time and location untrimmed, the trimmed opponent for a match and none for a training |
| Calendar.Editing | app/calendario.tsx:76 | the form edits only when `editingId` is truthy: absent or empty means adding, any other id means editing |
| Calendar.ReplaceById | app/calendario.tsx:76-77 | every event with the edited id is replaced, every other one kept, the length and order unchanged |
| Calendar.HandleSave | app/calendario.tsx:56-82 | an invalid form is refused with its reason; with a truthy editing id the list is the replacement; otherwise the new event is appended |
| Calendar.DeleteById | app/calendario.tsx:84-88 | the events without the id, in order, each as often as before |
| Calendar.DeleteUndoesAdd | app/calendario.tsx:78-85 | deleting a just-added event whose id was new gives the previous list |
| Calendar.EventsForDay | app/calendario.tsx:90 | the events dated on the selected day, in list order, each as often as before |
| Calendar.DayMarks | app/calendario.tsx:93-98 | every date the reduce leaves is marked, has a dot colour and is not selected |
| Calendar.DayMarksLastEvent | app/calendario.tsx:93-98 | a date is marked exactly when an event falls on it; its dot is red when the last such event is a match, blue otherwise |
| Calendar.WithSelection | app/calendario.tsx:99 | the dates are those marked plus the selected date; the selected date is selected in green; a marked selected date keeps its mark and dot, an unmarked one gets no mark and no dot; every other date is unchanged |
| Calendar.MarkedDates | app/calendario.tsx:93-99 | the reduce computes the day marks, then the selected date is marked selected in green; no other date is selected; a selected date with no events gets no mark and no dot |
| Roster.RoleRank | app/squadra/rosa.tsx:13-18 | every role ranks between 1 and 4 |
| Roster.RoleRankInjective | app/squadra/rosa.tsx:13-18 | the four roles get four different ranks |
| Roster.Contains | app/squadra/rosa.tsx:46 | the empty search is found in every name, and a found search is no longer than the name |
| Roster.ContainsFrom | app/squadra/rosa.tsx:46 | an occurrence of the search at any index of the name is found |
| Roster.ContainsWitness | app/squadra/rosa.tsx:46 | a found search occurs in the name at some index |
| Roster.ContainsAt | app/squadra/rosa.tsx:46 | `includes` holds exactly when the search occurs in the name at some index |
| Roster.Passes | app/squadra/rosa.tsx:42-48 | with no role, a falsy year and an empty search every player passes; a passing player has the filtered role, has the filtered year when that is truthy, and, for a non-empty search, has a lower-cased name that contains the lower-cased search; with only the search set, a player passes exactly when the name contains it |
| Roster.Filtered | app/squadra/rosa.tsx:42-48 | a roster player is kept exactly when the role, year and name filters all pass, in roster order |
| Roster.FiltersOffKeepAll | app/squadra/rosa.tsx:42-48 | with every filter off the whole roster is listed |
| Roster.RoleFilterSelects | app/squadra/rosa.tsx:44 | with a role chosen, only players of that role are listed |
| Roster.InsertPlayer | app/squadra/rosa.tsx:49 | inserting into a sorted list gives a sorted permutation of the list plus the player |
| Roster.SortPlayers | app/squadra/rosa.tsx:49 | the sort returns a permutation ordered by role rank, then by name |
| Roster.PrecedesSorted | app/squadra/rosa.tsx:49 | a player ahead of the head of a sorted list is ahead of every element |
| Roster.PrecedesInserted | app/squadra/rosa.tsx:49 | the head of a sorted list stays ahead of its tail with a later player inserted |
| Roster.BeforeTotal | app/squadra/rosa.tsx:49 | of any two players, one may go first |
| Roster.BeforeTransitive | app/squadra/rosa.tsx:49 | the comparator's order is transitive |
| Roster.OfRoleSubsequence | app/squadra/rosa.tsx:51-55 | a role's players are the list's players of that role, in list order |
| Roster.PushRow | app/squadra/rosa.tsx:53-54 | creating a role's list when missing and pushing onto it is one grouping step |
| Roster.GroupStep | app/squadra/rosa.tsx:52-55 | one `push` keeps the dictionary equal to the grouping of the rows seen so far |
| Roster.Group | app/squadra/rosa.tsx:51-55 | the dictionary has a key for each role present, holding that role's players in list order |
| Roster.RoleOrderRanked | app/squadra/rosa.tsx:13-18 | the roles listed by rank have strictly increasing ranks |
| Roster.RoleOrderComplete | app/squadra/rosa.tsx:13-18 | every role is listed |
| Roster.SectionsIn | app/squadra/rosa.tsx:57-59 | each section's title is a listed role that is a group key, and its rows are that key's players |
| Roster.SectionsInRanked | app/squadra/rosa.tsx:57-59 | walking the roles by rank gives titles in rank order |
| Roster.SectionsInComplete | app/squadra/rosa.tsx:57-59 | every group key gets its section |
| Roster.SectionsOf | app/squadra/rosa.tsx:57-59 | the section titles strictly increase in role rank |
| Roster.SectionsOfShape | app/squadra/rosa.tsx:57-59 | the sections are in rank order, one for each group key, each holding that key's players |
| Roster.SectionRows | app/squadra/rosa.tsx:51-59 | reading the sections one after another gives the players role by role |
| Roster.ByRankRegroups | app/squadra/rosa.tsx:49-59 | a list ordered by rank, taken role by role in rank order, is the list itself |
| Roster.RankOrderedInit | app/squadra/rosa.tsx:49 | all but the last of a rank-ordered list is rank-ordered and ranked no higher than the last |
| Roster.RegroupStep | app/squadra/rosa.tsx:49-59 | appending a player ranked at least as high as all before extends the role-by-role reading by exactly that player |
| Roster.BuildSections | app/squadra/rosa.tsx:41-60 | the sections read one after another are exactly the sorted filtered players; sections are non-empty, in rank order, hold only their role, sorted by name |
| Roster.ListedIffPasses | app/squadra/rosa.tsx:42-49 | a player is listed exactly when on the roster and passing all three filters |
| Roster.SubsequenceSorted | app/squadra/rosa.tsx:51-55 | a group kept in sorted order is sorted |
| Roster.InsertYear | app/squadra/rosa.tsx:64-65 | adding a year to a strictly descending list keeps it strictly descending, with that year added |
| Roster.Years | app/squadra/rosa.tsx:63-66 | the years are strictly descending (hence distinct) and are exactly the roster's birth years |
| Roster.DescendingUnique | app/squadra/rosa.tsx:63-66 | only one strictly descending list has given elements, so `Years` is the only possible result |
| Seqs.Filter | app/squadra/rosa.tsx:42-48 | filtering keeps exactly the elements that pass, in order, each as often as in the input |
| Seqs.SubsequenceMembers | app/calendario.tsx:85 | every element of a subsequence comes from the whole |
| Seqs.FilterKeepsAll | app/calendario.tsx:85 | a filter every element passes keeps the list whole |
| Seqs.FilterDropsLast | app/calendario.tsx:85 | an appended element that fails the filter is dropped |

## Left out

- Gestures and animation: the pixel-to-percentage conversion while dragging (`app/squadra/formazione.tsx:195-208`) is left out. Only the clamped drop (`CommitDrag`) is modelled.
- Storage: AsyncStorage reads and writes and JSON (de)serialisation are left out. A stored formation or event list is a parameter (`Option`), and saving is the identity.
- Fire-and-forget saves: the unordered saves are left out. So is the reload that re-runs after a template change with keeping on, which reads back what the snap just saved.
- Stored boards are not validated: `Loaded` returns whatever was stored, so `LoadFormation` only promises the board invariants for the default layout.
- FormationBoard.Board.AssignPlayer: the method itself does not refuse a player already on the board. The picker only offers players who are not (`FilteredPlayers`, `AssignPickedKeepsUnique`), so uniqueness is stated for that case only.
- PNG export and sharing (`app/squadra/formazione.tsx:333-346`) are left out: they are foreign calls.
- `uuid.v4()` is left out: the fresh id is a parameter of `HandleSave`.
- Events.Normalise: `String(e.id)` is not modelled. The stored id is already a string, and the `formation` field (`any`) is modelled as optional text.
- Calendar.MarkedDates: the `dots: []` entry of a new mark is left out. It never changes and the month view ignores it for single dots.
- The calendar screen reads the stored list with a plain `JSON.parse` and does not call `loadEvents` (`app/calendario.tsx:25-26`). The other screens do the same. So a legacy record spelled `'Partita'` reaches `DotColor` unmigrated and gets the blue dot. The model's calendar lists are records the app wrote itself, already in the migrated shape.
- Coordinates are exact reals. JavaScript computes `dx * dx + dy * dy` (`app/squadra/formazione.tsx:306-308`) in rounded doubles, so two nearly equally distant slots can compare differently there and the tie can go to another slot. A `NaN` position, which `clamp` (`app/squadra/formazione.tsx:439-442`) passes through unchanged, is not modelled either.
- Photos, images, modals and style sheets are left out: presentation only.
- Roster.SortPlayers: the model proves the result ordered and a permutation, but not stability for equal names.
- Roster.Passes: `toLowerCase` is a function parameter (`lower`), and `localeCompare` is an abstract name order (`le`) required to be total and transitive. The runtime's locale tables are not modelled.
- app/data/players.ts is not part of this model: the roster table is a parameter. The `Player` shape follows `ElleraApp/app/data/players.ts:2-11`, without the photo and attachments.
- The event form's open-for-add and open-for-edit resets are left out (`app/calendario.tsx:38-54`): they only copy fields into the form state.
