/** The editing rules of the notification settings page
    (`client/src/pages/NotificationSettings.tsx`): selecting mail groups per
    workflow event, editing assignee lists and groups, linking an assignee to
    a registered user, and the clean-up done on save. React state is replaced
    by the values the handlers compute. */
module NotificationSettings {
  import opened Wrappers
  import Seqs
  import Text
  import Json
  import NS = NotificationStore
  import SD = SettingsDefaults
  import Auth

  // ---------------------------------------------------------------- workflow

  /** The workflow with the list of one event replaced. */
  function WithList(w: NS.Workflow, k: NS.EventKey, xs: seq<string>): (r: NS.Workflow)
    ensures r.Get(k) == xs
    ensures forall k' :: k' != k ==> r.Get(k') == w.Get(k')
  {
    match k
    case OnClaimCreated => w.(created := xs)
    case OnClaimAccepted => w.(accepted := xs)
    case OnCountermeasureSubmitted => w.(countermeasure := xs)
    case OnTechnicalApproved => w.(approved := xs)
  }

  /** The filter `id => id !== groupId`. */
  function IsNot(groupId: string): string -> bool
  {
    id => id != groupId
  }

  /** `toggleGroupInWorkflow(k, groupId)`: every occurrence is removed when
      the group is selected for the event, otherwise it is appended. */
  function Toggle(w: NS.Workflow, k: NS.EventKey, groupId: string): (r: NS.Workflow)
    ensures groupId in w.Get(k) ==> r.Get(k) == Seqs.Filter(w.Get(k), IsNot(groupId))
    ensures groupId !in w.Get(k) ==> r.Get(k) == w.Get(k) + [groupId]
    ensures forall k' :: k' != k ==> r.Get(k') == w.Get(k')
  {
    var current := w.Get(k);
    if groupId in current then WithList(w, k, Seqs.Filter(current, IsNot(groupId)))
    else WithList(w, k, current + [groupId])
  }

  /** A toggle flips the group's selection and keeps every other group's. */
  lemma ToggleFlips(w: NS.Workflow, k: NS.EventKey, groupId: string, other: string)
    requires other != groupId
    ensures groupId in Toggle(w, k, groupId).Get(k) <==> groupId !in w.Get(k)
    ensures other in Toggle(w, k, groupId).Get(k) <==> other in w.Get(k)
  {
    var current := w.Get(k);
    if groupId in current {
      var r := Seqs.Filter(current, IsNot(groupId));
      assert forall i :: 0 <= i < |r| ==> IsNot(groupId)(r[i]);
    }
  }

  /** Toggling twice restores the selection; from an unselected group it
      restores the settings exactly. */
  lemma ToggleTwice(w: NS.Workflow, k: NS.EventKey, groupId: string)
    ensures var r := Toggle(Toggle(w, k, groupId), k, groupId);
            forall x :: x in r.Get(k) <==> x in w.Get(k)
    ensures groupId !in w.Get(k) ==> Toggle(Toggle(w, k, groupId), k, groupId) == w
  {
    var once := Toggle(w, k, groupId);
    ToggleFlips(w, k, groupId, groupId + "-");
    forall x ensures x in Toggle(once, k, groupId).Get(k) <==> x in w.Get(k) {
      if x != groupId {
        ToggleFlips(w, k, groupId, x);
        ToggleFlips(once, k, groupId, x);
      } else {
        ToggleFlips(once, k, groupId, groupId + "-");
      }
    }
    if groupId !in w.Get(k) {
      FilterAppendedAbsent(w.Get(k), groupId);
      var twice := Toggle(once, k, groupId);
      assert forall k' :: twice.Get(k') == w.Get(k');
      WorkflowExt(twice, w);
    }
  }

  /** Dropping a just-appended absent element gives back the list. */
  lemma {:induction false} FilterAppendedAbsent(xs: seq<string>, g: string)
    requires g !in xs
    ensures Seqs.Filter(xs + [g], IsNot(g)) == xs
    decreases |xs|
  {
    if |xs| == 0 {
      assert Seqs.Filter([g], IsNot(g)) == Seqs.Filter([], IsNot(g));
    } else {
      assert (xs + [g])[1..] == xs[1..] + [g];
      FilterAppendedAbsent(xs[1..], g);
      assert xs == [xs[0]] + xs[1..];
    }
  }

  lemma WorkflowExt(a: NS.Workflow, b: NS.Workflow)
    requires forall k :: a.Get(k) == b.Get(k)
    ensures a == b
  {
    assert a.Get(NS.OnClaimCreated) == b.Get(NS.OnClaimCreated);
    assert a.Get(NS.OnClaimAccepted) == b.Get(NS.OnClaimAccepted);
    assert a.Get(NS.OnCountermeasureSubmitted) == b.Get(NS.OnCountermeasureSubmitted);
    assert a.Get(NS.OnTechnicalApproved) == b.Get(NS.OnTechnicalApproved);
  }

  // ---------------------------------------------------------------- user link

  /** The value the user picker sends for "enter by hand". */
  const ManualUser := "__manual__"

  /** `selected === manualUserValue ? null : selected`. */
  function Selection(selected: string): (r: Option<string>)
    ensures r.None? <==> selected == ManualUser
    ensures r.Some? ==> r.value == selected
  {
    if selected == ManualUser then None else Some(selected)
  }

  /** `userMap.get(id)`: the map is built from the users in order, so the
      last user with the id wins. */
  function UserById(users: seq<Auth.User>, id: string): (r: Option<Auth.User>)
    ensures r.None? <==> forall i :: 0 <= i < |users| ==> users[i].id != id
    ensures r.Some? ==> r.value in users && r.value.id == id
    ensures r.Some? ==> exists i :: 0 <= i < |users| && users[i] == r.value
                          && forall j :: i < j < |users| ==> users[j].id != id
  {
    if |users| == 0 then None
    else if users[|users| - 1].id == id then Some(users[|users| - 1])
    else
      var r := UserById(users[..|users| - 1], id);
      assert forall j :: 0 <= j < |users| - 1 ==> users[..|users| - 1][j] == users[j];
      r
  }

  /** `applyUserSelection(person, selectedId)`: a known user's name and
      e-mail are copied and linked; otherwise the person keeps name and
      e-mail and loses the link. A missing person counts as blank. */
  function ApplyUserSelection(users: seq<Auth.User>, person: Option<SD.Person>, selectedId: Option<string>)
    : (r: SD.Person)
    ensures var base := if person.Some? then person.value else SD.Person("", "", None);
            var linked := if selectedId.Some? && selectedId.value != "" then UserById(users, selectedId.value) else None;
            && (linked.None? ==> r == base.(userId := None))
            && (linked.Some? ==> r == SD.Person(linked.value.name, linked.value.email, selectedId))
  {
    var base := if person.Some? then person.value else SD.Person("", "", None);
    if selectedId.None? || selectedId.value == "" then base.(userId := None)
    else
      match UserById(users, selectedId.value)
      case None => base.(userId := None)
      case Some(u) => SD.Person(u.name, u.email, selectedId)
  }

  /** A linked person carries the e-mail of a registered user with that id. */
  lemma LinkedPersonIsRegistered(users: seq<Auth.User>, person: Option<SD.Person>, selectedId: Option<string>)
    ensures var r := ApplyUserSelection(users, person, selectedId);
            r.userId.Some? ==> exists u :: u in users && u.id == r.userId.value && u.name == r.name && u.email == r.email
  {
    var r := ApplyUserSelection(users, person, selectedId);
    if r.userId.Some? {
      var u := UserById(users, selectedId.value).value;
      assert u in users && u.id == r.userId.value;
    }
  }

  // ---------------------------------------------------------------- people

  const BlankPerson := SD.Person("", "", None)

  /** `addTechAssignee` / `addFactoryGroupMember`: a blank entry at the end. */
  function AddPerson(list: seq<SD.Person>): (r: seq<SD.Person>)
    ensures |r| == |list| + 1 && r[..|list|] == list && r[|list|] == BlankPerson
  {
    list + [BlankPerson]
  }

  /** A manual name edit: the name changes and the user link is dropped. */
  function EditName(list: seq<SD.Person>, index: nat, value: string): (r: seq<SD.Person>)
    requires index < |list|
    ensures |r| == |list|
    ensures r[index] == SD.Person(value, list[index].email, None)
    ensures forall i :: 0 <= i < |list| && i != index ==> r[i] == list[i]
  {
    list[index := list[index].(name := value, userId := None)]
  }

  /** A manual e-mail edit: the e-mail changes and the user link is dropped. */
  function EditEmail(list: seq<SD.Person>, index: nat, value: string): (r: seq<SD.Person>)
    requires index < |list|
    ensures |r| == |list|
    ensures r[index] == SD.Person(list[index].name, value, None)
    ensures forall i :: 0 <= i < |list| && i != index ==> r[i] == list[i]
  {
    list[index := list[index].(email := value, userId := None)]
  }

  /** Picking a user (or "manual") for the entry at `index`. */
  function SelectUser(users: seq<Auth.User>, list: seq<SD.Person>, index: nat, selected: string): (r: seq<SD.Person>)
    requires index < |list|
    ensures |r| == |list|
    ensures r[index] == ApplyUserSelection(users, Some(list[index]), Selection(selected))
    ensures forall i :: 0 <= i < |list| && i != index ==> r[i] == list[i]
  {
    list[index := ApplyUserSelection(users, Some(list[index]), Selection(selected))]
  }

  /** Choosing "manual" keeps the typed name and e-mail and drops the link. */
  lemma ManualSelectionUnlinks(users: seq<Auth.User>, list: seq<SD.Person>, index: nat)
    requires index < |list|
    ensures SelectUser(users, list, index, ManualUser)[index] == list[index].(userId := None)
  {
  }

  // ---------------------------------------------------------------- groups

  /** `addFactoryGroup` / `addSalesGroup`: an unnamed, empty group at the end. */
  function AddGroup(groups: seq<SD.Group>): (r: seq<SD.Group>)
    ensures |r| == |groups| + 1 && r[..|groups|] == groups && r[|groups|] == SD.Group("", [])
  {
    groups + [SD.Group("", [])]
  }

  /** Renaming a group; its members stay. */
  function RenameGroup(groups: seq<SD.Group>, index: nat, value: string): (r: seq<SD.Group>)
    requires index < |groups|
    ensures |r| == |groups| && r[index] == SD.Group(value, groups[index].members)
    ensures forall i :: 0 <= i < |groups| && i != index ==> r[i] == groups[i]
  {
    groups[index := groups[index].(name := value)]
  }

  /** Replacing the members of one group, the shape of every member handler. */
  function WithMembers(groups: seq<SD.Group>, index: nat, members: seq<SD.Person>): (r: seq<SD.Group>)
    requires index < |groups|
    ensures |r| == |groups| && r[index] == SD.Group(groups[index].name, members)
    ensures forall i :: 0 <= i < |groups| && i != index ==> r[i] == groups[i]
  {
    groups[index := groups[index].(members := members)]
  }

  function AddMember(groups: seq<SD.Group>, gi: nat): (r: seq<SD.Group>)
    requires gi < |groups|
    ensures |r| == |groups| && r[gi].members == AddPerson(groups[gi].members)
    ensures forall i :: 0 <= i < |groups| && i != gi ==> r[i] == groups[i]
  {
    WithMembers(groups, gi, AddPerson(groups[gi].members))
  }

  function EditMemberName(groups: seq<SD.Group>, gi: nat, mi: nat, value: string): (r: seq<SD.Group>)
    requires gi < |groups| && mi < |groups[gi].members|
    ensures |r| == |groups| && r[gi].name == groups[gi].name
    ensures r[gi].members == EditName(groups[gi].members, mi, value)
    ensures forall i :: 0 <= i < |groups| && i != gi ==> r[i] == groups[i]
  {
    WithMembers(groups, gi, EditName(groups[gi].members, mi, value))
  }

  function EditMemberEmail(groups: seq<SD.Group>, gi: nat, mi: nat, value: string): (r: seq<SD.Group>)
    requires gi < |groups| && mi < |groups[gi].members|
    ensures |r| == |groups| && r[gi].name == groups[gi].name
    ensures r[gi].members == EditEmail(groups[gi].members, mi, value)
    ensures forall i :: 0 <= i < |groups| && i != gi ==> r[i] == groups[i]
  {
    WithMembers(groups, gi, EditEmail(groups[gi].members, mi, value))
  }

  function SelectMemberUser(users: seq<Auth.User>, groups: seq<SD.Group>, gi: nat, mi: nat, selected: string)
    : (r: seq<SD.Group>)
    requires gi < |groups| && mi < |groups[gi].members|
    ensures |r| == |groups| && r[gi].name == groups[gi].name
    ensures r[gi].members == SelectUser(users, groups[gi].members, mi, selected)
    ensures forall i :: 0 <= i < |groups| && i != gi ==> r[i] == groups[i]
  {
    WithMembers(groups, gi, SelectUser(users, groups[gi].members, mi, selected))
  }

  function RemoveMember(groups: seq<SD.Group>, gi: nat, mi: int): (r: seq<SD.Group>)
    requires gi < |groups|
    ensures |r| == |groups| && r[gi].name == groups[gi].name
    ensures r[gi].members == Seqs.RemoveAt(groups[gi].members, mi)
    ensures forall i :: 0 <= i < |groups| && i != gi ==> r[i] == groups[i]
  {
    WithMembers(groups, gi, Seqs.RemoveAt(groups[gi].members, mi))
  }

  /** Removing the member at an index and re-inserting it restores the group. */
  lemma RemoveMemberExact(groups: seq<SD.Group>, gi: nat, mi: nat)
    requires gi < |groups| && mi < |groups[gi].members|
    ensures var ms := groups[gi].members;
            var left := RemoveMember(groups, gi, mi)[gi].members;
            left[..mi] + [ms[mi]] + left[mi..] == ms
  {
    var ms := groups[gi].members;
    var left := RemoveMember(groups, gi, mi)[gi].members;
    assert left == ms[..mi] + ms[mi + 1..];
    assert left[..mi] == ms[..mi];
    assert left[mi..] == ms[mi + 1..];
    assert ms == ms[..mi] + [ms[mi]] + ms[mi + 1..];
  }

  // ---------------------------------------------------------------- save

  /** `e => e.trim()` as a filter: the e-mail is not blank. */
  predicate NotBlank(e: string)
  {
    Text.Trim(e) != ""
  }

  /** The mail groups as saved: blank e-mails dropped, the others kept as typed. */
  function CleanGroup(g: NS.Group): (r: NS.Group)
    ensures r.id == g.id && r.name == g.name
    ensures forall e :: e in r.emails <==> e in g.emails && NotBlank(e)
  {
    g.(emails := Seqs.Filter(g.emails, NotBlank))
  }

  /** Cleaning on the page does not change what the server keeps: the server
      trims and drops empty e-mails anyway. */
  lemma CleanedEmailsSameOnServer(es: seq<string>)
    ensures NS.NormalizeEmails(Some(Json.Strings(Seqs.Filter(es, NotBlank))))
         == NS.NormalizeEmails(Some(Json.Strings(es)))
  {
    EmailsOfStrings(Seqs.Filter(es, NotBlank));
    EmailsOfStrings(es);
    TrimFilterBlank(es);
  }

  /** The server's reading of a list of e-mail strings. */
  lemma EmailsOfStrings(es: seq<string>)
    ensures NS.NormalizeEmails(Some(Json.Strings(es))) == Seqs.Filter(Seqs.Map(es, Text.Trim), Text.NonEmpty)
  {
    var items := Json.Strings(es).items;
    forall i | 0 <= i < |es| ensures NS.TrimmedEmail(items[i]) == Text.Trim(es[i]) {
      Json.ToJsStringOfString(es[i]);
    }
    assert Seqs.Map(items, NS.TrimmedEmail) == Seqs.Map(es, Text.Trim);
  }

  lemma {:induction false} TrimFilterBlank(es: seq<string>)
    ensures Seqs.Filter(Seqs.Map(Seqs.Filter(es, NotBlank), Text.Trim), Text.NonEmpty)
         == Seqs.Filter(Seqs.Map(es, Text.Trim), Text.NonEmpty)
    decreases |es|
  {
    if |es| > 0 {
      TrimFilterBlank(es[1..]);
      Seqs.MapCons(es[0], es[1..], Text.Trim);
      assert es == [es[0]] + es[1..];
      if NotBlank(es[0]) {
        Seqs.MapCons(es[0], Seqs.Filter(es[1..], NotBlank), Text.Trim);
      }
    }
  }

  /** One person as saved: name and e-mail trimmed; the user link kept, as
      is, only when it is non-empty. */
  function SavePerson(p: SD.Person): (r: SD.Person)
    ensures r.name == Text.Trim(p.name) && r.email == Text.Trim(p.email)
    ensures r.userId == if p.userId.Some? && p.userId.value != "" then p.userId else None
  {
    SD.Person(Text.Trim(p.name), Text.Trim(p.email), if p.userId.Some? && p.userId.value != "" then p.userId else None)
  }

  predicate Named(p: SD.Person)
  {
    p.name != ""
  }

  /** The people list as saved: every entry cleaned, the nameless dropped. */
  function SavePeople(list: seq<SD.Person>): (r: seq<SD.Person>)
    ensures |r| <= |list|
    ensures forall p :: p in r <==> p.name != "" && exists q :: q in list && SavePerson(q) == p
  {
    Seqs.MapMembers(list, SavePerson);
    Seqs.Filter(Seqs.Map(list, SavePerson), Named)
  }

  function SaveGroup(g: SD.Group): (r: SD.Group)
    ensures r == SD.Group(Text.Trim(g.name), SavePeople(g.members))
  {
    SD.Group(Text.Trim(g.name), SavePeople(g.members))
  }

  predicate NamedGroup(g: SD.Group)
  {
    g.name != ""
  }

  /** The factory or sales groups as saved. */
  function SaveGroups(groups: seq<SD.Group>): (r: seq<SD.Group>)
    ensures |r| <= |groups|
    ensures forall g :: g in r <==> g.name != "" && exists h :: h in groups && SaveGroup(h) == g
  {
    Seqs.Filter(Seqs.Map(groups, SaveGroup), NamedGroup)
  }

  /** User ids are stored trimmed (they come from registered users). */
  predicate TrimmedLinks(list: seq<SD.Person>)
  {
    forall i :: 0 <= i < |list| ==> list[i].userId.Some? ==> Text.IsTrimmed(list[i].userId.value)
  }

  /** Saved people are what the loader accepts unchanged. */
  lemma SavedPeopleClean(list: seq<SD.Person>)
    requires TrimmedLinks(list)
    ensures forall i :: 0 <= i < |SavePeople(list)| ==> SD.CleanPerson(SavePeople(list)[i])
  {
    var r := SavePeople(list);
    forall i | 0 <= i < |r| ensures SD.CleanPerson(r[i]) {
      assert r[i] in r;
      var q :| q in list && SavePerson(q) == r[i];
      var k :| 0 <= k < |list| && list[k] == q;
      SavedPersonClean(q);
    }
  }

  /** One saved entry with a name is clean. */
  lemma SavedPersonClean(q: SD.Person)
    requires q.userId.Some? ==> Text.IsTrimmed(q.userId.value)
    requires SavePerson(q).name != ""
    ensures SD.CleanPerson(SavePerson(q))
  {
    Text.TrimProperties(q.name);
    Text.TrimProperties(q.email);
  }

  /** What is saved is what the page reads back on its next load: a
      non-empty people list unchanged, an empty one replaced by the fallback. */
  lemma SavedPeopleReload(list: seq<SD.Person>, fallback: seq<SD.Person>)
    requires TrimmedLinks(list)
    ensures var saved := SavePeople(list);
            SD.StoredPeopleList(SD.Parsed(SD.PeopleJson(saved)), fallback) == if |saved| > 0 then saved else fallback
  {
    SavedPeopleClean(list);
    SD.SanitizePeopleIdempotent(SavePeople(list));
  }

  /** Saved groups are read back unchanged, even when there are none, and
      the legacy factory list no longer matters. */
  lemma SavedGroupsReload(groups: seq<SD.Group>, legacy: SD.Stored)
    requires forall i :: 0 <= i < |groups| ==> TrimmedLinks(groups[i].members)
    ensures var saved := SaveGroups(groups);
            && SD.StoredFactoryGroups(SD.Parsed(SD.GroupsJson(saved)), legacy) == saved
            && SD.StoredSalesGroups(SD.Parsed(SD.GroupsJson(saved))) == saved
  {
    var saved := SaveGroups(groups);
    forall i | 0 <= i < |saved| ensures SD.CleanGroup(saved[i]) {
      var h :| h in groups && SaveGroup(h) == saved[i];
      var k :| 0 <= k < |groups| && groups[k] == h;
      SavedPeopleClean(h.members);
      Text.TrimProperties(h.name);
    }
    SD.SanitizeGroupsIdempotent(saved);
  }
}
