/** The assignee lists kept in the browser (`client/src/lib/settingsDefaults.ts`):
    sanitising stored people and groups, and loading them with their
    defaults. The factory and sales group sanitisers are the same code and
    are modelled once. */
module SettingsDefaults {
  import opened Wrappers
  import opened Json
  import Text
  import Seqs

  /** An assignee; `userId` links the entry to a registered user. */
  datatype Person = Person(name: string, email: string, userId: Option<string>)

  /** A named group of assignees (factory or sales). */
  datatype Group = Group(name: string, members: seq<Person>)

  /** What `localStorage.getItem` followed by `JSON.parse` gives: nothing
      stored (or the empty string), text that does not parse, or a value. */
  datatype Stored = Absent | Malformed | Parsed(value: Json)

  const DefaultTechAssignees: seq<Person> := [
    Person("技術部 田中次郎", "", None),
    Person("技術部 佐藤花子", "", None),
    Person("技術部 高橋太郎", "", None)
  ]

  const DefaultFactoryGroups: seq<Group> := [
    Group("工場 第1グループ", [Person("工場 鈴木一郎", "", None), Person("工場 山本和夫", "", None)]),
    Group("工場 第2グループ", [Person("工場 中村美咲", "", None)])
  ]

  const DefaultSalesGroups: seq<Group> := [
    Group("営業 第1グループ", [Person("営業 田中健", "", None), Person("営業 佐藤彩", "", None)]),
    Group("営業 第2グループ", [Person("営業 鈴木英樹", "", None)])
  ]

  /** What the sanitiser produces: a trimmed non-empty name, a trimmed e-mail
      and, when present, a trimmed non-empty user id. */
  predicate CleanPerson(p: Person)
  {
    && p.name != "" && Text.IsTrimmed(p.name)
    && Text.IsTrimmed(p.email)
    && (p.userId.Some? ==> p.userId.value != "" && Text.IsTrimmed(p.userId.value))
  }

  predicate CleanGroup(g: Group)
  {
    g.name != "" && Text.IsTrimmed(g.name) && forall i :: 0 <= i < |g.members| ==> CleanPerson(g.members[i])
  }

  // ---------------------------------------------------------------- people

  /** One entry of a stored people list: a non-blank string names a person
      without e-mail; an object contributes its trimmed string fields; anything
      else, and a blank name, is skipped. */
  function PersonOf(entry: Json): (r: Option<Person>)
    ensures r.Some? ==> CleanPerson(r.value)
    ensures entry.JStr? ==> (r.Some? <==> Text.Trim(entry.s) != "")
    ensures entry.JStr? && r.Some? ==> r.value == Person(Text.Trim(entry.s), "", None)
    ensures !entry.JStr? && !entry.JObj? && !entry.JArr? ==> r.None?
    ensures entry.JObj? ==> (r.Some? <==> TrimmedStringOrEmpty(Get(entry, "name")) != "")
    ensures entry.JObj? && r.Some? ==>
              && r.value.name == TrimmedStringOrEmpty(Get(entry, "name"))
              && r.value.email == TrimmedStringOrEmpty(Get(entry, "email"))
              && (r.value.userId.None? <==> TrimmedStringOrEmpty(Get(entry, "userId")) == "")
              && (r.value.userId.Some? ==> r.value.userId.value == TrimmedStringOrEmpty(Get(entry, "userId")))
  {
    if entry.JStr? then
      var name := Text.Trim(entry.s);
      Text.TrimProperties(entry.s);
      if name == "" then None else Some(Person(name, "", None))
    else if !(entry.JObj? || entry.JArr?) then None  // objects and arrays are truthy
    else
      ObjectPerson(TrimmedStringOrEmpty(Get(entry, "name")), TrimmedStringOrEmpty(Get(entry, "email")),
                   TrimmedStringOrEmpty(Get(entry, "userId")))
  }

  /** An object entry from its trimmed fields; a blank user id becomes absent. */
  function ObjectPerson(name: string, email: string, userIdRaw: string): (r: Option<Person>)
    ensures r.Some? <==> name != ""
    ensures r.Some? ==> r.value.name == name && r.value.email == email
    ensures r.Some? ==> (r.value.userId.None? <==> userIdRaw == "")
    ensures r.Some? && r.value.userId.Some? ==> r.value.userId.value == userIdRaw
  {
    if name == "" then None
    else Some(Person(name, email, if userIdRaw != "" then Some(userIdRaw) else None))
  }

  /** `sanitizePeople(value)`: `None` for anything that is not an array. */
  function SanitizePeople(value: Option<Json>): (r: Option<seq<Person>>)
    ensures r.None? <==> !IsArray(value)
    ensures r.Some? ==> forall i :: 0 <= i < |r.value| ==> CleanPerson(r.value[i])
    ensures r.Some? ==> forall p :: p in r.value <==> Some(p) in Seqs.Map(value.value.items, PersonOf)
  {
    if !IsArray(value) then None
    else
      var r := Seqs.Values(Seqs.Map(value.value.items, PersonOf));
      PeopleClean(value.value.items, r);
      Some(r)
  }

  lemma PeopleClean(items: seq<Json>, r: seq<Person>)
    requires r == Seqs.Values(Seqs.Map(items, PersonOf))
    ensures forall i :: 0 <= i < |r| ==> CleanPerson(r[i])
  {
    var m := Seqs.Map(items, PersonOf);
    forall i | 0 <= i < |r| ensures CleanPerson(r[i]) {
      assert Some(r[i]) in m;
      var j :| 0 <= j < |m| && m[j] == Some(r[i]);
      assert PersonOf(items[j]) == Some(r[i]);
    }
  }

  /** The people keep the order of the entries they come from. */
  lemma SanitizePeopleInOrder(items: seq<Json>)
    ensures Seqs.IsSubsequence(Seqs.Map(SanitizePeople(Some(JArr(items))).value, Seqs.Wrap),
                               Seqs.Map(items, PersonOf))
  {
    Seqs.ValuesInOrder(Seqs.Map(items, PersonOf));
  }

  /** How a person is stored: `JSON.stringify` drops an undefined `userId`. */
  function PersonJson(p: Person): Json
  {
    if p.userId.Some? then
      JObj(map["name" := JStr(p.name), "email" := JStr(p.email), "userId" := JStr(p.userId.value)])
    else
      JObj(map["name" := JStr(p.name), "email" := JStr(p.email)])
  }

  function PeopleJson(ps: seq<Person>): (r: Json)
    ensures r.JArr? && |r.items| == |ps|
    ensures forall i :: 0 <= i < |ps| ==> r.items[i] == PersonJson(ps[i])
  {
    JArr(seq(|ps|, i requires 0 <= i < |ps| => PersonJson(ps[i])))
  }

  /** The fields of a stored person. */
  lemma PersonJsonFields(p: Person)
    ensures PersonJson(p).JObj?
    ensures Get(PersonJson(p), "name") == Some(JStr(p.name))
    ensures Get(PersonJson(p), "email") == Some(JStr(p.email))
    ensures Get(PersonJson(p), "userId") == if p.userId.Some? then Some(JStr(p.userId.value)) else None
  {
  }

  /** A clean person reads back unchanged. */
  lemma PersonRoundTrip(p: Person)
    requires CleanPerson(p)
    ensures PersonOf(PersonJson(p)) == Some(p)
  {
    TrimmedStringOfTrimmed(p.name);
    TrimmedStringOfTrimmed(p.email);
    if p.userId.Some? {
      TrimmedStringOfTrimmed(p.userId.value);
    }
    PersonJsonFields(p);
  }

  /** Sanitising a sanitised list, stored and read back, changes nothing. */
  lemma SanitizePeopleIdempotent(ps: seq<Person>)
    requires forall i :: 0 <= i < |ps| ==> CleanPerson(ps[i])
    ensures SanitizePeople(Some(PeopleJson(ps))) == Some(ps)
  {
    PeopleReadBack(ps);
  }

  lemma PeopleReadBack(ps: seq<Person>)
    requires forall i :: 0 <= i < |ps| ==> CleanPerson(ps[i])
    ensures Seqs.Values(Seqs.Map(PeopleJson(ps).items, PersonOf)) == ps
  {
    forall i | 0 <= i < |ps| ensures PersonOf(PersonJson(ps[i])) == Some(ps[i]) {
      PersonRoundTrip(ps[i]);
    }
    assert PeopleJson(ps).items == Seqs.Map(ps, PersonJson);
    Seqs.ValuesOfInverse(ps, PersonJson, PersonOf);
  }

  /** `getStoredPeopleList(key, fallback)`. */
  function StoredPeopleList(stored: Stored, fallback: seq<Person>): (r: seq<Person>)
    ensures !stored.Parsed? ==> r == fallback
    ensures stored.Parsed? ==> var s := SanitizePeople(Some(stored.value));
            if s.Some? && |s.value| > 0 then r == s.value else r == fallback
    ensures |fallback| > 0 ==> |r| > 0
  {
    if !stored.Parsed? then fallback
    else
      var s := SanitizePeople(Some(stored.value));
      if s.Some? && |s.value| > 0 then s.value else fallback
  }

  /** A stored list is used exactly when its sanitised form is non-empty. */
  lemma StoredPeopleRoundTrip(ps: seq<Person>, fallback: seq<Person>)
    requires |ps| > 0 && forall i :: 0 <= i < |ps| ==> CleanPerson(ps[i])
    ensures StoredPeopleList(Parsed(PeopleJson(ps)), fallback) == ps
  {
    SanitizePeopleIdempotent(ps);
  }

  // ---------------------------------------------------------------- groups

  /** One group entry: a truthy object with a non-blank name; its members are
      sanitised, and non-array members become []. */
  function GroupOf(entry: Json): (r: Option<Group>)
    ensures r.Some? ==> CleanGroup(r.value)
    ensures r.Some? <==> (entry.JObj? || entry.JArr?) && TrimmedStringOrEmpty(Get(entry, "name")) != ""
    ensures r.Some? ==> r.value.name == TrimmedStringOrEmpty(Get(entry, "name"))
    ensures r.Some? && !IsArray(Get(entry, "members")) ==> r.value.members == []
    ensures r.Some? && IsArray(Get(entry, "members")) ==> r.value.members == SanitizePeople(Get(entry, "members")).value
  {
    if !(entry.JObj? || entry.JArr?) then None
    else
      var name := TrimmedStringOrEmpty(Get(entry, "name"));
      if name == "" then None
      else
        var members := SanitizePeople(Get(entry, "members"));
        Some(Group(name, if members.Some? then members.value else []))
  }

  /** `sanitizeFactoryGroups` / `sanitizeSalesGroups`. */
  function SanitizeGroups(value: Option<Json>): (r: Option<seq<Group>>)
    ensures r.None? <==> !IsArray(value)
    ensures r.Some? ==> forall i :: 0 <= i < |r.value| ==> CleanGroup(r.value[i])
    ensures r.Some? ==> forall g :: g in r.value <==> Some(g) in Seqs.Map(value.value.items, GroupOf)
  {
    if !IsArray(value) then None
    else
      var r := Seqs.Values(Seqs.Map(value.value.items, GroupOf));
      GroupsClean(value.value.items, r);
      Some(r)
  }

  lemma GroupsClean(items: seq<Json>, r: seq<Group>)
    requires r == Seqs.Values(Seqs.Map(items, GroupOf))
    ensures forall i :: 0 <= i < |r| ==> CleanGroup(r[i])
  {
    var m := Seqs.Map(items, GroupOf);
    forall i | 0 <= i < |r| ensures CleanGroup(r[i]) {
      assert Some(r[i]) in m;
      var j :| 0 <= j < |m| && m[j] == Some(r[i]);
      assert GroupOf(items[j]) == Some(r[i]);
    }
  }

  function GroupJson(g: Group): Json
  {
    JObj(map["name" := JStr(g.name), "members" := PeopleJson(g.members)])
  }

  function GroupsJson(gs: seq<Group>): (r: Json)
    ensures r.JArr? && |r.items| == |gs|
    ensures forall i :: 0 <= i < |gs| ==> r.items[i] == GroupJson(gs[i])
  {
    JArr(seq(|gs|, i requires 0 <= i < |gs| => GroupJson(gs[i])))
  }

  lemma GroupRoundTrip(g: Group)
    requires CleanGroup(g)
    ensures GroupOf(GroupJson(g)) == Some(g)
  {
    TrimmedStringOfTrimmed(g.name);
    SanitizePeopleIdempotent(g.members);
    var j := GroupJson(g);
    assert Get(j, "name") == Some(JStr(g.name));
    assert Get(j, "members") == Some(PeopleJson(g.members));
  }

  /** Sanitising sanitised groups, stored and read back, changes nothing. */
  lemma SanitizeGroupsIdempotent(gs: seq<Group>)
    requires forall i :: 0 <= i < |gs| ==> CleanGroup(gs[i])
    ensures SanitizeGroups(Some(GroupsJson(gs))) == Some(gs)
  {
    GroupsReadBack(gs);
  }

  lemma GroupsReadBack(gs: seq<Group>)
    requires forall i :: 0 <= i < |gs| ==> CleanGroup(gs[i])
    ensures Seqs.Values(Seqs.Map(GroupsJson(gs).items, GroupOf)) == gs
  {
    forall i | 0 <= i < |gs| ensures GroupOf(GroupJson(gs[i])) == Some(gs[i]) {
      GroupRoundTrip(gs[i]);
    }
    assert GroupsJson(gs).items == Seqs.Map(gs, GroupJson);
    Seqs.ValuesOfInverse(gs, GroupJson, GroupOf);
  }

  /** The legacy factory list: trimmed non-blank strings become groups without members. */
  function LegacyGroups(items: seq<Json>): (r: seq<Group>)
    ensures forall i :: 0 <= i < |r| ==> CleanGroup(r[i]) && r[i].members == []
    ensures forall g :: g in r <==> g.members == [] && exists e :: e in items && e.JStr? && g.name == Text.Trim(e.s) && g.name != ""
    ensures r == Seqs.Map(Seqs.Filter(Seqs.Map(items, LegacyName), NonBlank), Memberless)
  {
    LegacyPipeline(items);
    LegacyGroupsClean(items);
    Seqs.Values(Seqs.Map(items, LegacyGroup))
  }

  lemma LegacyGroupsClean(items: seq<Json>)
    ensures var r := Seqs.Values(Seqs.Map(items, LegacyGroup));
            forall i :: 0 <= i < |r| ==> CleanGroup(r[i]) && r[i].members == []
  {
    var m := Seqs.Map(items, LegacyGroup);
    var r := Seqs.Values(m);
    forall i | 0 <= i < |r| ensures CleanGroup(r[i]) && r[i].members == [] {
      assert Some(r[i]) in m;
      var j :| 0 <= j < |m| && m[j] == Some(r[i]);
      assert LegacyGroup(items[j]) == Some(r[i]);
    }
  }

  /** `typeof item === "string" ? item.trim() : ""`. */
  function LegacyName(e: Json): string
  {
    if e.JStr? then Text.Trim(e.s) else ""
  }

  /** `filter(Boolean)` on strings: the non-empty ones pass. */
  predicate NonBlank(s: string)
  {
    s != ""
  }

  /** `(name) => ({ name, members: [] })`. */
  function Memberless(name: string): Group
  {
    Group(name, [])
  }

  /** Keeping the groups one entry at a time is the source's map, filter, map
      chain: one group per non-blank entry, duplicates included, in order. */
  lemma {:induction false} LegacyPipeline(items: seq<Json>)
    ensures Seqs.Values(Seqs.Map(items, LegacyGroup))
            == Seqs.Map(Seqs.Filter(Seqs.Map(items, LegacyName), NonBlank), Memberless)
    decreases |items|
  {
    if |items| > 0 {
      LegacyPipeline(items[1..]);
      LegacyStep(items[0], items[1..]);
      assert items == [items[0]] + items[1..];
    }
  }

  /** One entry in front of the rest: the group it yields, if any, goes first. */
  lemma LegacyStep(e: Json, rest: seq<Json>)
    requires Seqs.Values(Seqs.Map(rest, LegacyGroup))
             == Seqs.Map(Seqs.Filter(Seqs.Map(rest, LegacyName), NonBlank), Memberless)
    ensures Seqs.Values(Seqs.Map([e] + rest, LegacyGroup))
            == Seqs.Map(Seqs.Filter(Seqs.Map([e] + rest, LegacyName), NonBlank), Memberless)
  {
    var n, ns := LegacyName(e), Seqs.Map(rest, LegacyName);
    var kept := Seqs.Filter(ns, NonBlank);
    Seqs.MapCons(e, rest, LegacyGroup);
    Seqs.ValuesCons(LegacyGroup(e), Seqs.Map(rest, LegacyGroup));
    Seqs.MapCons(e, rest, LegacyName);
    Seqs.FilterCons(n, ns, NonBlank);
    Seqs.MapCons(n, kept, Memberless);
    assert LegacyGroup(e) == if NonBlank(n) then Some(Memberless(n)) else None;
  }

  function LegacyGroup(e: Json): (r: Option<Group>)
    ensures r.Some? ==> CleanGroup(r.value) && r.value.members == []
    ensures r.Some? <==> e.JStr? && Text.Trim(e.s) != ""
    ensures r.Some? ==> r.value.name == Text.Trim(e.s)
  {
    if e.JStr? && Text.Trim(e.s) != "" then
      Text.TrimProperties(e.s);
      Some(Group(Text.Trim(e.s), []))
    else None
  }

  /** `getStoredFactoryGroups()`: the stored groups when that key holds an
      array (even one that sanitises to []), the defaults when it holds
      anything else; the legacy name list only when the key is absent. */
  function StoredFactoryGroups(groups: Stored, legacy: Stored): (r: seq<Group>)
    ensures groups.Malformed? ==> r == DefaultFactoryGroups
    ensures groups.Parsed? && IsArray(Some(groups.value)) ==> r == SanitizeGroups(Some(groups.value)).value
    ensures groups.Parsed? && !IsArray(Some(groups.value)) ==> r == DefaultFactoryGroups
    ensures groups.Absent? && legacy.Parsed? && legacy.value.JArr? ==> r == LegacyGroups(legacy.value.items)
    ensures groups.Absent? && !(legacy.Parsed? && legacy.value.JArr?) ==> r == DefaultFactoryGroups
  {
    match groups
    case Malformed => DefaultFactoryGroups
    case Parsed(v) =>
      var s := SanitizeGroups(Some(v));
      if s.Some? then s.value else DefaultFactoryGroups
    case Absent =>
      if legacy.Parsed? && legacy.value.JArr? then LegacyGroups(legacy.value.items)
      else DefaultFactoryGroups
  }

  /** Once the factory-group key is written, the legacy list no longer matters. */
  lemma LegacyIgnoredOnceStored(gs: seq<Group>, legacy: Stored, legacy': Stored)
    requires forall i :: 0 <= i < |gs| ==> CleanGroup(gs[i])
    ensures StoredFactoryGroups(Parsed(GroupsJson(gs)), legacy) == gs
    ensures StoredFactoryGroups(Parsed(GroupsJson(gs)), legacy) == StoredFactoryGroups(Parsed(GroupsJson(gs)), legacy')
  {
    SanitizeGroupsIdempotent(gs);
  }

  /** A stored empty array of groups stays empty: the defaults do not return. */
  lemma StoredEmptyGroupsStayEmpty(legacy: Stored)
    ensures StoredFactoryGroups(Parsed(JArr([])), legacy) == []
    ensures StoredSalesGroups(Parsed(JArr([]))) == []
  {
  }

  /** `getStoredSalesGroups()`: as the factory groups, without a legacy key. */
  function StoredSalesGroups(groups: Stored): (r: seq<Group>)
    ensures groups.Parsed? && IsArray(Some(groups.value)) ==> r == SanitizeGroups(Some(groups.value)).value
    ensures !(groups.Parsed? && IsArray(Some(groups.value))) ==> r == DefaultSalesGroups
  {
    match groups
    case Parsed(v) =>
      var s := SanitizeGroups(Some(v));
      if s.Some? then s.value else DefaultSalesGroups
    case _ => DefaultSalesGroups
  }
}
