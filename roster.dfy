/**
 * The roster screen: the three filters (role, birth year, name search), the sort by role rank and
 * then by name, the grouping of the sorted players into one section per role, and the list of
 * birth years offered as year filters.
 */
module Roster {
  import opened Wrappers
  import opened Seqs
  import opened Players

  /** `ROLE_ORDER`: the rank of each role in the listing. */
  function RoleRank(role: Role): (n: int)
    ensures 1 <= n <= 4
  {
    match role
    case Portiere => 1
    case Difensore => 2
    case Centrocampista => 3
    case Attaccante => 4
  }

  /** The four roles get four different ranks. */
  lemma RoleRankInjective(a: Role, b: Role)
    ensures RoleRank(a) == RoleRank(b) <==> a == b
  {
  }

  /** The role chip: every role ('ALL') or exactly one. */
  datatype RoleFilter = All | Only(role: Role)

  /** `s` occurs in `text` as a contiguous piece (`String.prototype.includes`). */
  predicate Contains(text: string, s: string): (found: bool)
    ensures s == [] ==> found
    ensures found ==> |s| <= |text|
    decreases |text|
  {
    |s| <= |text| && (text[..|s|] == s || Contains(text[1..], s))
  }

  /** An occurrence of `s` in `text` starting at index `k` is found. */
  lemma {:induction false} ContainsFrom(text: string, s: string, k: int)
    requires 0 <= k <= |text| - |s| && text[k..][..|s|] == s
    ensures Contains(text, s)
    decreases k
  {
    if k == 0 {
      assert text[0..] == text;
    } else {
      assert text[1..][k - 1..] == text[k..];
      ContainsFrom(text[1..], s, k - 1);
    }
  }

  /** When `Contains` holds, `s` occurs in `text` starting at some index. */
  lemma {:induction false} ContainsWitness(text: string, s: string)
    requires Contains(text, s)
    ensures exists k :: 0 <= k <= |text| - |s| && text[k..][..|s|] == s
    decreases |text|
  {
    if text[..|s|] == s {
      assert text[0..] == text;
    } else {
      ContainsWitness(text[1..], s);
      var k :| 0 <= k <= |text[1..]| - |s| && text[1..][k..][..|s|] == s;
      assert text[1..][k..] == text[k + 1..];
    }
  }

  /** `Contains` holds exactly when `s` occurs in `text` starting at some index. */
  lemma ContainsAt(text: string, s: string)
    ensures Contains(text, s) <==> exists k :: 0 <= k <= |text| - |s| && text[k..][..|s|] == s
  {
    if Contains(text, s) {
      ContainsWitness(text, s);
    }
    if exists k :: 0 <= k <= |text| - |s| && text[k..][..|s|] == s {
      var k :| 0 <= k <= |text| - |s| && text[k..][..|s|] == s;
      ContainsFrom(text, s, k);
    }
  }

  /**
   * The row filter. A year filter is active only when it is set and not 0 (JavaScript
   * truthiness); an empty search passes everyone; the name match compares both sides after
   * `lower`, the lower-casing the runtime applies.
   */
  predicate Passes(p: Player, roleFilter: RoleFilter, yearFilter: Option<int>, search: string,
                   lower: string -> string): (shown: bool)
    ensures roleFilter.All? && (yearFilter.None? || yearFilter == Some(0)) && search == "" ==> shown
    ensures shown && roleFilter.Only? ==> p.role == roleFilter.role
    ensures shown && yearFilter.Some? && yearFilter.value != 0 ==> p.year == yearFilter.value
    ensures search != "" && shown ==>
      exists k :: 0 <= k <= |lower(p.name)| - |lower(search)|
        && lower(p.name)[k..][..|lower(search)|] == lower(search)
    ensures roleFilter.All? && (yearFilter.None? || yearFilter == Some(0)) && search != "" ==>
      (shown <==>
         exists k :: 0 <= k <= |lower(p.name)| - |lower(search)|
           && lower(p.name)[k..][..|lower(search)|] == lower(search))
  {
    ContainsAt(lower(p.name), lower(search));
    (roleFilter.All? || p.role == roleFilter.role)
    && (yearFilter.None? || yearFilter.value == 0 || p.year == yearFilter.value)
    && (search == "" || Contains(lower(p.name), lower(search)))
  }

  /** The roster rows the three filters let through, in roster order. */
  function Filtered(roster: seq<Player>, roleFilter: RoleFilter, yearFilter: Option<int>,
                    search: string, lower: string -> string): (r: seq<Player>)
    ensures Subsequence(r, roster)
    ensures forall p :: p in r <==> p in roster && Passes(p, roleFilter, yearFilter, search, lower)
    ensures forall p :: Passes(p, roleFilter, yearFilter, search, lower) ==>
      multiset(r)[p] == multiset(roster)[p]
  {
    Filter((p: Player) => Passes(p, roleFilter, yearFilter, search, lower), roster)
  }

  /** With every filter off the whole roster is listed. */
  lemma FiltersOffKeepAll(roster: seq<Player>, lower: string -> string)
    ensures Filtered(roster, All, None, "", lower) == roster
  {
    FilterKeepsAll((p: Player) => Passes(p, All, None, "", lower), roster);
  }

  /** A chosen role only lists players of that role. */
  lemma RoleFilterSelects(roster: seq<Player>, role: Role, yearFilter: Option<int>, search: string,
                          lower: string -> string)
    ensures forall p :: p in Filtered(roster, Only(role), yearFilter, search, lower) ==> p.role == role
  {
  }

  /**
   * The name order `localeCompare` induces: `le(a, b)` when `a` does not come after `b`. Sorting
   * needs it total and transitive, as the runtime's sort needs a consistent comparator.
   */
  ghost predicate TotalPreorder(le: (string, string) -> bool)
  {
    (forall a, b :: le(a, b) || le(b, a))
    && (forall a, b, c :: le(a, b) && le(b, c) ==> le(a, c))
  }

  /** The sort comparator: lower rank first, then by name. */
  predicate Before(le: (string, string) -> bool, a: Player, b: Player)
  {
    RoleRank(a.role) < RoleRank(b.role) || (RoleRank(a.role) == RoleRank(b.role) && le(a.name, b.name))
  }

  predicate Sorted(le: (string, string) -> bool, s: seq<Player>)
  {
    forall i, j :: 0 <= i < j < |s| ==> Before(le, s[i], s[j])
  }

  /** `x` inserted into the sorted `s` ahead of the first player it does not come after. */
  function InsertPlayer(le: (string, string) -> bool, x: Player, s: seq<Player>): (r: seq<Player>)
    requires TotalPreorder(le) && Sorted(le, s)
    ensures multiset(r) == multiset(s) + multiset{x}
    ensures Sorted(le, r)
    decreases |s|
  {
    if s == [] then [x]
    else if Before(le, x, s[0]) then
      PrecedesSorted(le, x, s);
      ConsSorted(le, x, s);
      [x] + s
    else
      BeforeTotal(le, x, s[0]);
      var rest := InsertPlayer(le, x, s[1..]);
      assert s == [s[0]] + s[1..];
      PrecedesInserted(le, s, x, rest);
      ConsSorted(le, s[0], rest);
      [s[0]] + rest
  }

  /** A player ahead of the head of a sorted list is ahead of all of it. */
  lemma PrecedesSorted(le: (string, string) -> bool, x: Player, s: seq<Player>)
    requires TotalPreorder(le) && Sorted(le, s) && s != [] && Before(le, x, s[0])
    ensures forall k :: 0 <= k < |s| ==> Before(le, x, s[k])
  {
    forall k | 0 < k < |s| ensures Before(le, x, s[k]) {
      BeforeTransitive(le, x, s[0], s[k]);
    }
  }

  /** The head of a sorted list is ahead of its tail with `x` inserted, when it is ahead of `x`. */
  lemma PrecedesInserted(le: (string, string) -> bool, s: seq<Player>, x: Player, rest: seq<Player>)
    requires Sorted(le, s) && s != [] && Before(le, s[0], x)
    requires multiset(rest) == multiset(s[1..]) + multiset{x}
    ensures forall k :: 0 <= k < |rest| ==> Before(le, s[0], rest[k])
  {
    forall k | 0 <= k < |rest| ensures Before(le, s[0], rest[k]) {
      assert rest[k] in multiset(rest);
      if rest[k] != x {
        assert rest[k] in multiset(s[1..]);
        var m :| 0 <= m < |s[1..]| && s[1..][m] == rest[k];
        assert s[m + 1] == rest[k];
      }
    }
  }

  lemma BeforeTotal(le: (string, string) -> bool, a: Player, b: Player)
    requires TotalPreorder(le)
    ensures Before(le, a, b) || Before(le, b, a)
  {
    assert le(a.name, b.name) || le(b.name, a.name);
  }

  lemma BeforeTransitive(le: (string, string) -> bool, a: Player, b: Player, c: Player)
    requires TotalPreorder(le) && Before(le, a, b) && Before(le, b, c)
    ensures Before(le, a, c)
  {
    if RoleRank(a.role) == RoleRank(b.role) == RoleRank(c.role) {
      assert le(a.name, b.name) && le(b.name, c.name) ==> le(a.name, c.name);
    }
  }

  /** A player ahead of every element of a sorted list heads a sorted list. */
  lemma ConsSorted(le: (string, string) -> bool, h: Player, t: seq<Player>)
    requires Sorted(le, t)
    requires forall k :: 0 <= k < |t| ==> Before(le, h, t[k])
    ensures Sorted(le, [h] + t)
  {
    forall i, j | 0 <= i < j < |[h] + t| ensures Before(le, ([h] + t)[i], ([h] + t)[j]) {
      if i > 0 {
        assert ([h] + t)[i] == t[i - 1];
      }
      assert ([h] + t)[j] == t[j - 1];
    }
  }

  /** The comparator sort of the filtered rows: rank, then name (stability for ties is not proved). */
  function SortPlayers(le: (string, string) -> bool, s: seq<Player>): (r: seq<Player>)
    requires TotalPreorder(le)
    ensures multiset(r) == multiset(s)
    ensures Sorted(le, r)
    decreases |s|
  {
    if s == [] then []
    else
      assert s == [s[0]] + s[1..];
      InsertPlayer(le, s[0], SortPlayers(le, s[1..]))
  }

  /** The players of one role, in list order. */
  function OfRole(s: seq<Player>, role: Role): seq<Player>
    decreases |s|
  {
    if s == [] then []
    else
      var rest := OfRole(s[..|s| - 1], role);
      if s[|s| - 1].role == role then rest + [s[|s| - 1]] else rest
  }

  /** A role's players are a subsequence of the list: nothing reordered, nothing invented. */
  lemma {:induction false} OfRoleSubsequence(s: seq<Player>, role: Role)
    ensures Subsequence(OfRole(s, role), s)
    ensures forall p :: p in OfRole(s, role) <==> p in s && p.role == role
    ensures forall i :: 0 <= i < |OfRole(s, role)| ==> OfRole(s, role)[i].role == role
    decreases |s|
  {
    if s != [] {
      var init, x := s[..|s| - 1], s[|s| - 1];
      OfRoleSubsequence(init, role);
      var r := OfRole(s, role);
      if x.role == role {
        assert r[..|r| - 1] == OfRole(init, role);
      }
      assert s == init + [x];
    }
  }

  /** Taking one more element adds it to its own role's list and to no other. */
  lemma OfRoleSnoc(s: seq<Player>, i: int, role: Role)
    requires 0 <= i < |s|
    ensures OfRole(s[..i + 1], role) ==
      if s[i].role == role then OfRole(s[..i], role) + [s[i]] else OfRole(s[..i], role)
  {
    assert s[..i + 1][..i] == s[..i];
  }

  /** `grouped` holds exactly the non-empty role lists of `s`. */
  ghost predicate GroupedAs(grouped: map<Role, seq<Player>>, s: seq<Player>)
  {
    forall role :: (role in grouped <==> OfRole(s, role) != [])
      && (role in grouped ==> grouped[role] == OfRole(s, role))
  }

  /** One step of the grouping: `p` pushed onto its role's list, the list created if missing. */
  function WithRow(grouped: map<Role, seq<Player>>, p: Player): map<Role, seq<Player>>
  {
    grouped[p.role := (if p.role in grouped then grouped[p.role] else []) + [p]]
  }

  /** Creating the role's list when missing, then pushing `p` onto it, is one `WithRow` step. */
  lemma PushRow(grouped: map<Role, seq<Player>>, p: Player)
    ensures var g := if p.role in grouped then grouped else grouped[p.role := []];
      g[p.role := g[p.role] + [p]] == WithRow(grouped, p)
  {
  }

  lemma GroupStep(grouped: map<Role, seq<Player>>, s: seq<Player>, i: int)
    requires 0 <= i < |s| && GroupedAs(grouped, s[..i])
    ensures GroupedAs(WithRow(grouped, s[i]), s[..i + 1])
  {
    var next := WithRow(grouped, s[i]);
    forall role ensures (role in next <==> OfRole(s[..i + 1], role) != [])
      && (role in next ==> next[role] == OfRole(s[..i + 1], role))
    {
      OfRoleSnoc(s, i, role);
    }
  }

  /**
   * The `forEach` grouping: the map holds a key for each role met, and under it that role's
   * players in list order.
   */
  method Group(filtered: seq<Player>) returns (grouped: map<Role, seq<Player>>)
    ensures GroupedAs(grouped, filtered)
  {
    grouped := map[];
    var i := 0;
    while i < |filtered|
      invariant 0 <= i <= |filtered|
      invariant GroupedAs(grouped, filtered[..i])
    {
      ghost var before := grouped;
      var p := filtered[i];
      if p.role !in grouped {
        grouped := grouped[p.role := []];
      }
      grouped := grouped[p.role := grouped[p.role] + [p]];
      PushRow(before, p);
      GroupStep(before, filtered, i);
      i := i + 1;
    }
    assert filtered[..i] == filtered;
  }

  /** A section of the list: its title role and its rows. */
  datatype Section = Section(title: Role, data: seq<Player>)

  /** `ROLE_ORDER`'s keys by rank. */
  const RoleOrder: seq<Role> := [Portiere, Difensore, Centrocampista, Attaccante]

  /** Ranks strictly increase along `order`. */
  predicate RankIncreasing(order: seq<Role>)
  {
    forall i, j :: 0 <= i < j < |order| ==> RoleRank(order[i]) < RoleRank(order[j])
  }

  function SectionFor(grouped: map<Role, seq<Player>>, role: Role): seq<Section>
  {
    if role in grouped then [Section(role, grouped[role])] else []
  }

  /** The sections of the group keys found in `order`, in that order. */
  function SectionsIn(grouped: map<Role, seq<Player>>, order: seq<Role>): (r: seq<Section>)
    ensures forall i :: 0 <= i < |r| ==>
      r[i].title in order && r[i].title in grouped && r[i].data == grouped[r[i].title]
    decreases |order|
  {
    if order == [] then []
    else
      var rest := SectionsIn(grouped, order[1..]);
      var r := SectionFor(grouped, order[0]) + rest;
      assert forall i :: 0 <= i < |rest| ==> rest[i].title in order;
      r
  }

  /**
   * The group keys sorted by rank, each with its rows; since the ranks are distinct, this order
   * is the only one the sort can produce.
   */
  function SectionsOf(grouped: map<Role, seq<Player>>): (r: seq<Section>)
    ensures TitlesRanked(r)
  {
    RoleOrderRanked();
    SectionsInRanked(grouped, RoleOrder);
    SectionsIn(grouped, RoleOrder)
  }

  /** Section titles strictly increase in rank. */
  predicate TitlesRanked(sections: seq<Section>)
  {
    forall i, j :: 0 <= i < j < |sections| ==> RoleRank(sections[i].title) < RoleRank(sections[j].title)
  }

  /** Walking the roles in rank order yields titles in rank order. */
  lemma {:induction false} SectionsInRanked(grouped: map<Role, seq<Player>>, order: seq<Role>)
    requires RankIncreasing(order)
    ensures TitlesRanked(SectionsIn(grouped, order))
    decreases |order|
  {
    if order != [] {
      var tail := order[1..];
      assert RankIncreasing(tail) by {
        forall i, j | 0 <= i < j < |tail| ensures RoleRank(tail[i]) < RoleRank(tail[j]) {
          assert tail[i] == order[i + 1] && tail[j] == order[j + 1];
        }
      }
      SectionsInRanked(grouped, tail);
      var rest := SectionsIn(grouped, tail);
      assert forall k :: 0 <= k < |rest| ==> RoleRank(order[0]) < RoleRank(rest[k].title) by {
        forall k | 0 <= k < |rest| ensures RoleRank(order[0]) < RoleRank(rest[k].title) {
          var m :| 0 <= m < |tail| && tail[m] == rest[k].title;
          assert order[m + 1] == rest[k].title;
        }
      }
      if order[0] in grouped {
        ConsRanked(Section(order[0], grouped[order[0]]), rest);
      }
    }
  }

  /** A section ranked below every later one keeps the titles ranked. */
  lemma ConsRanked(head: Section, rest: seq<Section>)
    requires TitlesRanked(rest)
    requires forall k :: 0 <= k < |rest| ==> RoleRank(head.title) < RoleRank(rest[k].title)
    ensures TitlesRanked([head] + rest)
  {
    var r := [head] + rest;
    forall i, j | 0 <= i < j < |r| ensures RoleRank(r[i].title) < RoleRank(r[j].title) {
      assert r[j] == rest[j - 1];
      if i > 0 {
        assert r[i] == rest[i - 1];
      }
    }
  }

  /** Every group key found in `order` gets its section. */
  lemma {:induction false} SectionsInComplete(grouped: map<Role, seq<Player>>, order: seq<Role>, role: Role)
    requires role in grouped && role in order
    ensures Section(role, grouped[role]) in SectionsIn(grouped, order)
    decreases |order|
  {
    if order[0] != role {
      assert role in order[1..];
      SectionsInComplete(grouped, order[1..], role);
    }
  }

  /** The sections are ordered by rank, each appears for its key, and holds that key's rows. */
  lemma SectionsOfShape(grouped: map<Role, seq<Player>>)
    ensures forall i, j :: 0 <= i < j < |SectionsOf(grouped)| ==>
      RoleRank(SectionsOf(grouped)[i].title) < RoleRank(SectionsOf(grouped)[j].title)
    ensures forall role :: role in grouped ==> Section(role, grouped[role]) in SectionsOf(grouped)
    ensures forall i :: 0 <= i < |SectionsOf(grouped)| ==>
      SectionsOf(grouped)[i].title in grouped
      && SectionsOf(grouped)[i].data == grouped[SectionsOf(grouped)[i].title]
  {
    var r := SectionsOf(grouped);
    RoleOrderRanked();
    SectionsInRanked(grouped, RoleOrder);
    forall role | role in grouped ensures Section(role, grouped[role]) in r {
      RoleOrderComplete(role);
      SectionsInComplete(grouped, RoleOrder, role);
    }
  }

  /** `RoleOrder` lists the roles by strictly increasing rank. */
  lemma RoleOrderRanked()
    ensures RankIncreasing(RoleOrder)
  {
  }

  /** Every role is in `RoleOrder`. */
  lemma RoleOrderComplete(role: Role)
    ensures role in RoleOrder
  {
    assert role == RoleOrder[RoleRank(role) - 1];
  }

  /** The rows of the sections, section after section. */
  function Rows(sections: seq<Section>): seq<Player>
    decreases |sections|
  {
    if sections == [] then [] else sections[0].data + Rows(sections[1..])
  }

  /** The players of the roles in `order`, role after role. */
  function RowsByRole(s: seq<Player>, order: seq<Role>): seq<Player>
    decreases |order|
  {
    if order == [] then [] else OfRole(s, order[0]) + RowsByRole(s, order[1..])
  }

  /** Reading the sections of a grouping gives the players role after role. */
  lemma {:induction false} SectionRows(grouped: map<Role, seq<Player>>, s: seq<Player>, order: seq<Role>)
    requires GroupedAs(grouped, s)
    ensures Rows(SectionsIn(grouped, order)) == RowsByRole(s, order)
    decreases |order|
  {
    if order != [] {
      SectionRows(grouped, s, order[1..]);
      var role, rest := order[0], SectionsIn(grouped, order[1..]);
      assert (role in grouped <==> OfRole(s, role) != [])
        && (role in grouped ==> grouped[role] == OfRole(s, role));
      if role in grouped {
        var all := [Section(role, grouped[role])] + rest;
        assert SectionsIn(grouped, order) == all;
        assert all[0].data == OfRole(s, role) && all[1..] == rest;
      } else {
        assert SectionsIn(grouped, order) == rest;
      }
    }
  }

  /** The rows of a list ordered by rank, taken role by role in rank order, give the list back. */
  lemma {:induction false} ByRankRegroups(s: seq<Player>)
    requires RankOrdered(s)
    ensures OfRole(s, Portiere) + OfRole(s, Difensore) + OfRole(s, Centrocampista)
      + OfRole(s, Attaccante) == s
    decreases |s|
  {
    if s != [] {
      var init, x := s[..|s| - 1], s[|s| - 1];
      assert init + [x] == s;
      RankOrderedInit(init, x);
      ByRankRegroups(init);
      RegroupStep(init, x);
    }
  }

  /** Ranks never decrease along `s`. */
  predicate RankOrdered(s: seq<Player>)
  {
    forall i, j :: 0 <= i < j < |s| ==> RoleRank(s[i].role) <= RoleRank(s[j].role)
  }

  /** All but the last of a rank-ordered list is rank-ordered and ranked at most the last. */
  lemma RankOrderedInit(init: seq<Player>, x: Player)
    requires RankOrdered(init + [x])
    ensures RankOrdered(init)
    ensures forall k :: 0 <= k < |init| ==> RoleRank(init[k].role) <= RoleRank(x.role)
  {
    var s := init + [x];
    assert forall k :: 0 <= k < |init| ==> s[k] == init[k];
    assert s[|init|] == x;
  }

  /** Appending a player of the highest rank so far extends only its own role's list, the last one present. */
  lemma RegroupStep(init: seq<Player>, x: Player)
    requires OfRole(init, Portiere) + OfRole(init, Difensore) + OfRole(init, Centrocampista)
      + OfRole(init, Attaccante) == init
    requires forall k :: 0 <= k < |init| ==> RoleRank(init[k].role) <= RoleRank(x.role)
    ensures var s := init + [x];
      OfRole(s, Portiere) + OfRole(s, Difensore) + OfRole(s, Centrocampista) + OfRole(s, Attaccante) == s
  {
    var s := init + [x];
    assert s[..|s| - 1] == init;
    var a, b, c, d := OfRole(init, Portiere), OfRole(init, Difensore),
      OfRole(init, Centrocampista), OfRole(init, Attaccante);
    OfRoleLast(s, Portiere);
    OfRoleLast(s, Difensore);
    OfRoleLast(s, Centrocampista);
    OfRoleLast(s, Attaccante);
    ConcatSnoc(a, b, c, d, x);
    match x.role
    case Portiere =>
      NoLaterRole(init, x, Difensore);
      NoLaterRole(init, x, Centrocampista);
      NoLaterRole(init, x, Attaccante);
    case Difensore =>
      NoLaterRole(init, x, Centrocampista);
      NoLaterRole(init, x, Attaccante);
    case Centrocampista =>
      NoLaterRole(init, x, Attaccante);
    case Attaccante =>
  }

  /** Appending to the last non-empty part of a four-part concatenation appends to the whole. */
  lemma ConcatSnoc<T>(a: seq<T>, b: seq<T>, c: seq<T>, d: seq<T>, x: T)
    ensures b == c == d == [] ==> (a + [x]) + b + c + d == a + b + c + d + [x]
    ensures c == d == [] ==> a + (b + [x]) + c + d == a + b + c + d + [x]
    ensures d == [] ==> a + b + (c + [x]) + d == a + b + c + d + [x]
    ensures a + b + c + (d + [x]) == a + b + c + d + [x]
  {
  }

  /** A role's list of a non-empty list: that of all but the last player, plus the last if of the role. */
  lemma OfRoleLast(s: seq<Player>, role: Role)
    requires s != []
    ensures OfRole(s, role) == if s[|s| - 1].role == role then OfRole(s[..|s| - 1], role) + [s[|s| - 1]]
      else OfRole(s[..|s| - 1], role)
  {
  }

  /** No player ranked at most `x` belongs to a role ranked after `x`'s. */
  lemma NoLaterRole(s: seq<Player>, x: Player, role: Role)
    requires forall k :: 0 <= k < |s| ==> RoleRank(s[k].role) <= RoleRank(x.role)
    requires RoleRank(x.role) < RoleRank(role)
    ensures OfRole(s, role) == []
  {
    if OfRole(s, role) != [] {
      OfRoleSubsequence(s, role);
    }
  }

  /** `RowsByRole` over the four roles in rank order. */
  lemma RowsByRankOrder(s: seq<Player>)
    ensures RowsByRole(s, RoleOrder) == OfRole(s, Portiere) + OfRole(s, Difensore)
      + OfRole(s, Centrocampista) + OfRole(s, Attaccante)
  {
    assert RoleOrder[1..] == [Difensore, Centrocampista, Attaccante];
    assert RoleOrder[1..][1..] == [Centrocampista, Attaccante];
    assert RoleOrder[1..][1..][1..] == [Attaccante];
    assert RoleOrder[1..][1..][1..][1..] == [];
  }

  /**
   * The `sections` memo: filter, sort, group and order the groups. Reading the sections one
   * after another gives exactly the sorted filtered rows; every section is non-empty, holds only
   * players of its title role, sorted by name, and the titles come in rank order.
   */
  method BuildSections(roster: seq<Player>, roleFilter: RoleFilter, yearFilter: Option<int>,
                       search: string, lower: string -> string, le: (string, string) -> bool)
    returns (sections: seq<Section>)
    requires TotalPreorder(le)
    ensures Rows(sections) == SortPlayers(le, Filtered(roster, roleFilter, yearFilter, search, lower))
    ensures forall i, j :: 0 <= i < j < |sections| ==>
      RoleRank(sections[i].title) < RoleRank(sections[j].title)
    ensures forall i :: 0 <= i < |sections| ==> sections[i].data != []
    ensures forall i, k :: 0 <= i < |sections| && 0 <= k < |sections[i].data| ==>
      sections[i].data[k].role == sections[i].title
    ensures forall i :: 0 <= i < |sections| ==> Sorted(le, sections[i].data)
  {
    var filtered := Filtered(roster, roleFilter, yearFilter, search, lower);
    var sorted := SortPlayers(le, filtered);
    var grouped := Group(sorted);
    sections := SectionsOf(grouped);
    SectionsOfShape(grouped);
    SectionRows(grouped, sorted, RoleOrder);
    RowsByRankOrder(sorted);
    assert RankOrdered(sorted);
    ByRankRegroups(sorted);
    forall i | 0 <= i < |sections|
      ensures Sorted(le, sections[i].data)
      ensures forall k :: 0 <= k < |sections[i].data| ==> sections[i].data[k].role == sections[i].title
    {
      OfRoleSubsequence(sorted, sections[i].title);
      SubsequenceSorted(le, OfRole(sorted, sections[i].title), sorted);
    }
  }

  /** A player is listed exactly when they are on the roster and pass all three filters. */
  lemma ListedIffPasses(roster: seq<Player>, roleFilter: RoleFilter, yearFilter: Option<int>,
                        search: string, lower: string -> string, le: (string, string) -> bool, p: Player)
    requires TotalPreorder(le)
    ensures p in SortPlayers(le, Filtered(roster, roleFilter, yearFilter, search, lower))
      <==> p in roster && Passes(p, roleFilter, yearFilter, search, lower)
  {
    var filtered := Filtered(roster, roleFilter, yearFilter, search, lower);
    var sorted := SortPlayers(le, filtered);
    assert p in sorted <==> p in multiset(sorted);
    assert p in filtered <==> p in multiset(filtered);
  }

  /** A subsequence of a sorted list is sorted. */
  lemma {:induction false} SubsequenceSorted(le: (string, string) -> bool, a: seq<Player>, b: seq<Player>)
    requires Subsequence(a, b) && Sorted(le, b)
    ensures Sorted(le, a)
    decreases |b|
  {
    if b != [] {
      var bInit := b[..|b| - 1];
      if Subsequence(a, bInit) {
        SubsequenceSorted(le, a, bInit);
      } else {
        var aInit := a[..|a| - 1];
        SubsequenceSorted(le, aInit, bInit);
        SubsequenceMembers(aInit, bInit);
        forall i, j | 0 <= i < j < |a| ensures Before(le, a[i], a[j]) {
          if j == |a| - 1 {
            assert a[i] == aInit[i] && a[i] in aInit;
            var k :| 0 <= k < |bInit| && bInit[k] == a[i];
            assert b[k] == a[i] && a[j] == b[|b| - 1];
          } else {
            assert a[i] == aInit[i] && a[j] == aInit[j];
          }
        }
      }
    }
  }

  /** Strictly decreasing: each year offered once, newest first. */
  predicate Descending(s: seq<int>)
  {
    forall i, j :: 0 <= i < j < |s| ==> s[i] > s[j]
  }

  /** `y` placed into the descending `s` unless already there. */
  function InsertYear(y: int, s: seq<int>): (r: seq<int>)
    requires Descending(s)
    ensures Descending(r)
    ensures forall z :: z in r <==> z in s || z == y
    decreases |s|
  {
    if s == [] || y > s[0] then [y] + s
    else if y == s[0] then s
    else
      var rest := InsertYear(y, s[1..]);
      assert s == [s[0]] + s[1..];
      assert forall k :: 0 <= k < |rest| ==> s[0] > rest[k] by {
        forall k | 0 <= k < |rest| ensures s[0] > rest[k] {
          assert rest[k] in rest;
          if rest[k] != y {
            var m :| 0 <= m < |s[1..]| && s[1..][m] == rest[k];
            assert s[m + 1] == rest[k];
          }
        }
      }
      [s[0]] + rest
  }

  /** `years`: the distinct birth years of the roster, newest first. */
  function Years(roster: seq<Player>): (r: seq<int>)
    ensures Descending(r)
    ensures forall y :: y in r <==> exists i :: 0 <= i < |roster| && roster[i].year == y
    decreases |roster|
  {
    if roster == [] then []
    else
      var init := roster[..|roster| - 1];
      var r := InsertYear(roster[|roster| - 1].year, Years(init));
      assert forall i :: 0 <= i < |init| ==> init[i] == roster[i];
      r
  }

  /** The head of a strictly decreasing list is its largest element; the tail holds the rest. */
  lemma DescendingHeadTail(a: seq<int>)
    requires Descending(a) && a != []
    ensures Descending(a[1..])
    ensures forall y :: y in a ==> y <= a[0]
    ensures forall y :: y in a[1..] <==> y in a && y < a[0]
  {
    forall y | y in a ensures y <= a[0] {
      var k :| 0 <= k < |a| && a[k] == y;
    }
    forall y | y in a[1..] ensures y in a && y < a[0] {
      var k :| 0 <= k < |a[1..]| && a[1..][k] == y;
      assert a[k + 1] == y;
    }
    forall y | y in a && y < a[0] ensures y in a[1..] {
      var k :| 0 <= k < |a| && a[k] == y;
      assert a[1..][k - 1] == y;
    }
  }

  /** A strictly decreasing list is determined by its elements, so `Years` is the only such list. */
  lemma {:induction false} DescendingUnique(a: seq<int>, b: seq<int>)
    requires Descending(a) && Descending(b)
    requires forall y :: y in a <==> y in b
    ensures a == b
    decreases |a|
  {
    if a != [] {
      assert a[0] in a;
    }
    if b != [] {
      assert b[0] in b;
    }
    if a != [] && b != [] {
      DescendingHeadTail(a);
      DescendingHeadTail(b);
      assert a[0] == b[0] by {
        assert a[0] in b && b[0] in a;
      }
      DescendingUnique(a[1..], b[1..]);
      assert a == [a[0]] + a[1..];
      assert b == [b[0]] + b[1..];
    }
  }
}
