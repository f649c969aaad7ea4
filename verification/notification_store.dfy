/** The server's notification settings (`server/notification-store.ts`): mail
    groups, the groups selected for each workflow event, normalisation of the
    stored JSON file and the recipient lookup the mailer performs. The file
    itself is a parameter: `None` when it cannot be read or parsed. */
module NotificationStore {
  import opened Wrappers
  import opened Json
  import Seqs
  import Text

  /** A named mail group. */
  datatype Group = Group(id: string, name: string, emails: seq<string>)

  /** The four workflow events a group can be selected for. */
  datatype EventKey = OnClaimCreated | OnClaimAccepted | OnCountermeasureSubmitted | OnTechnicalApproved
  {
    function Name(): string
    {
      match this
      case OnClaimCreated => "onClaimCreated"
      case OnClaimAccepted => "onClaimAccepted"
      case OnCountermeasureSubmitted => "onCountermeasureSubmitted"
      case OnTechnicalApproved => "onTechnicalApproved"
    }
  }

  /** The group ids selected for each event. All four lists always exist. */
  datatype Workflow = Workflow(created: seq<string>, accepted: seq<string>,
                               countermeasure: seq<string>, approved: seq<string>)
  {
    function Get(k: EventKey): seq<string>
    {
      match k
      case OnClaimCreated => created
      case OnClaimAccepted => accepted
      case OnCountermeasureSubmitted => countermeasure
      case OnTechnicalApproved => approved
    }
  }

  datatype Settings = Settings(groups: seq<Group>, workflow: Workflow)

  /** `normalizeSettings` dereferences `g.id` on every group entry: a `null`
      entry throws a `TypeError`. */
  datatype NormalizeError = TypeError

  /** The settings used when the file cannot be read or normalised. */
  const Empty := Settings([], Workflow([], [], [], []))

  /** `String(e ?? '').trim()` for one entry of a group's `emails`. */
  function TrimmedEmail(e: Json): (r: string)
    ensures e.JStr? ==> r == Text.Trim(e.s)
    ensures e.JNull? ==> r == ""
    ensures Text.IsTrimmed(r)
  {
    Text.TrimProperties(StringOrEmpty(Some(e)));
    Text.Trim(StringOrEmpty(Some(e)))
  }

  /** The `emails` of a group entry: trimmed strings, empties dropped. */
  function NormalizeEmails(emails: Option<Json>): (r: seq<string>)
    ensures forall i :: 0 <= i < |r| ==> r[i] != "" && Text.IsTrimmed(r[i])
    ensures !IsArray(emails) ==> r == []
    ensures IsArray(emails) ==> forall x ::
              x in r <==> x != "" && exists e :: e in emails.value.items && TrimmedEmail(e) == x
  {
    if IsArray(emails) then
      var items := emails.value.items;
      var trimmed := Seqs.Map(items, TrimmedEmail);
      Seqs.MapMembers(items, TrimmedEmail);
      Seqs.Filter(trimmed, Text.NonEmpty)
    else []
  }

  /** A group entry as `normalizeSettings` maps it, before the filter. */
  function GroupOf(g: Json): Group
  {
    Group(StringOrEmpty(Get(g, "id")), StringOrEmpty(Get(g, "name")), NormalizeEmails(Get(g, "emails")))
  }

  /** The filter `g.id && g.name`. */
  predicate Kept(g: Group)
  {
    g.id != "" && g.name != ""
  }

  /** A group as normalisation leaves it. */
  predicate NormalGroup(g: Group)
  {
    Kept(g) && forall i :: 0 <= i < |g.emails| ==> g.emails[i] != "" && Text.IsTrimmed(g.emails[i])
  }

  /** The `groups` of the file: every entry mapped, then the unnamed ones dropped. */
  function NormalizeGroups(groups: Option<Json>): (r: Result<seq<Group>, NormalizeError>)
    ensures r.Err? <==> IsArray(groups) && exists g :: g in groups.value.items && g.JNull?
    ensures r.Ok? && !IsArray(groups) ==> r.value == []
    ensures r.Ok? ==> forall i :: 0 <= i < |r.value| ==> NormalGroup(r.value[i])
    ensures r.Ok? && IsArray(groups) ==> Seqs.IsSubsequence(r.value, Seqs.Map(groups.value.items, GroupOf))
    ensures r.Ok? && IsArray(groups) ==> forall g ::
              g in r.value <==> Kept(g) && exists e :: e in groups.value.items && GroupOf(e) == g
  {
    if !IsArray(groups) then Ok([])
    else
      var items := groups.value.items;
      if exists g :: g in items && g.JNull? then Err(TypeError)
      else
        var mapped := Seqs.Map(items, GroupOf);
        var r := Seqs.Filter(mapped, Kept);
        Seqs.FilterIsSubsequence(mapped, Kept);
        Seqs.MapMembers(items, GroupOf);
        Ok(r)
  }

  /** One workflow list: `Array.isArray(v) ? v.map(String) : []`. */
  function WorkflowList(v: Option<Json>): (r: seq<string>)
    ensures !IsArray(v) ==> r == []
    ensures IsArray(v) ==> |r| == |v.value.items|
    ensures IsArray(v) ==> forall i :: 0 <= i < |r| ==> r[i] == ToJsString(v.value.items[i])
  {
    if IsArray(v) then Seqs.Map(v.value.items, ToJsString) else []
  }

  /** `normalizeSettings(obj)`. */
  function Normalize(obj: Json): (r: Result<Settings, NormalizeError>)
    ensures r.Err? <==> NormalizeGroups(GetOpt(Some(obj), "groups")).Err?
    ensures r.Ok? ==> forall i :: 0 <= i < |r.value.groups| ==> NormalGroup(r.value.groups[i])
    ensures r.Ok? ==> forall k: EventKey ::
              var wf := Coalesce(GetOpt(Some(obj), "workflowSettings"), Some(JObj(map[])));
              r.value.workflow.Get(k) == WorkflowList(Get(wf.value, k.Name()))
  {
    var groups :- NormalizeGroups(GetOpt(Some(obj), "groups"));
    var wf := Coalesce(GetOpt(Some(obj), "workflowSettings"), Some(JObj(map[]))).value;
    var workflow := Workflow(
      WorkflowList(Get(wf, OnClaimCreated.Name())),
      WorkflowList(Get(wf, OnClaimAccepted.Name())),
      WorkflowList(Get(wf, OnCountermeasureSubmitted.Name())),
      WorkflowList(Get(wf, OnTechnicalApproved.Name())));
    Ok(Settings(groups, workflow))
  }

  /** `loadNotificationSettings()`: any failure, reading, parsing or
      normalising, yields the empty settings. */
  function Load(file: Option<Json>): (r: Settings)
    ensures file.None? ==> r == Empty
    ensures file.Some? && Normalize(file.value).Err? ==> r == Empty
    ensures file.Some? && Normalize(file.value).Ok? ==> r == Normalize(file.value).value
  {
    if file.None? then Empty
    else match Normalize(file.value)
      case Ok(s) => s
      case Err(_) => Empty
  }

  /** The JSON the settings are written as by `saveNotificationSettings`. */
  function GroupJson(g: Group): Json
  {
    JObj(map["id" := JStr(g.id), "name" := JStr(g.name), "emails" := Strings(g.emails)])
  }

  function WorkflowJson(w: Workflow): Json
  {
    JObj(map[OnClaimCreated.Name() := Strings(w.created),
             OnClaimAccepted.Name() := Strings(w.accepted),
             OnCountermeasureSubmitted.Name() := Strings(w.countermeasure),
             OnTechnicalApproved.Name() := Strings(w.approved)])
  }

  function ToJson(s: Settings): Json
  {
    JObj(map["groups" := JArr(Seqs.Map(s.groups, GroupJson)), "workflowSettings" := WorkflowJson(s.workflow)])
  }

  /** `saveNotificationSettings(payload)`: what is written to the file, if anything. */
  function Save(payload: Json): (r: Result<Json, NormalizeError>)
    ensures r.Err? <==> Normalize(payload).Err?
    ensures r.Ok? ==> Load(Some(r.value)) == Normalize(payload).value
  {
    var s :- Normalize(payload);
    NormalizeIdempotent(s);
    Ok(ToJson(s))
  }

  /** Settings as normalisation produces them. */
  predicate Normal(s: Settings)
  {
    forall i :: 0 <= i < |s.groups| ==> NormalGroup(s.groups[i])
  }

  /** Normalising written settings gives them back unchanged: normalisation
      is idempotent across a save and a load. */
  lemma NormalizeIdempotent(s: Settings)
    requires Normal(s)
    ensures Normalize(ToJson(s)) == Ok(s)
  {
    var obj := ToJson(s);
    assert GetOpt(Some(obj), "groups") == Some(JArr(Seqs.Map(s.groups, GroupJson)));
    GroupsRoundTrip(s.groups);
    assert GetOpt(Some(obj), "workflowSettings") == Some(WorkflowJson(s.workflow));
    WorkflowRoundTrip(s.workflow);
  }

  lemma GroupsRoundTrip(groups: seq<Group>)
    requires forall i :: 0 <= i < |groups| ==> NormalGroup(groups[i])
    ensures NormalizeGroups(Some(JArr(Seqs.Map(groups, GroupJson)))) == Ok(groups)
  {
    var items := Seqs.Map(groups, GroupJson);
    GroupsReadBack(groups);
    assert !exists g :: g in items && g.JNull?;
    Seqs.FilterKeepsAll(groups, Kept);
  }

  /** Written groups are objects and each reads back as itself. */
  lemma GroupsReadBack(groups: seq<Group>)
    requires forall i :: 0 <= i < |groups| ==> NormalGroup(groups[i])
    ensures forall g :: g in Seqs.Map(groups, GroupJson) ==> g.JObj?
    ensures Seqs.Map(Seqs.Map(groups, GroupJson), GroupOf) == groups
  {
    var items := Seqs.Map(groups, GroupJson);
    forall i | 0 <= i < |items| ensures GroupOf(items[i]) == groups[i] {
      GroupRoundTrip(groups[i]);
    }
  }

  lemma WorkflowRoundTrip(w: Workflow)
    ensures var wf := WorkflowJson(w);
            Workflow(WorkflowList(Get(wf, OnClaimCreated.Name())),
                     WorkflowList(Get(wf, OnClaimAccepted.Name())),
                     WorkflowList(Get(wf, OnCountermeasureSubmitted.Name())),
                     WorkflowList(Get(wf, OnTechnicalApproved.Name()))) == w
  {
    var wf := WorkflowJson(w);
    assert Get(wf, OnClaimCreated.Name()) == Some(Strings(w.created));
    assert Get(wf, OnClaimAccepted.Name()) == Some(Strings(w.accepted));
    assert Get(wf, OnCountermeasureSubmitted.Name()) == Some(Strings(w.countermeasure));
    assert Get(wf, OnTechnicalApproved.Name()) == Some(Strings(w.approved));
    StringsRoundTrip(w.created);
    StringsRoundTrip(w.accepted);
    StringsRoundTrip(w.countermeasure);
    StringsRoundTrip(w.approved);
  }

  lemma GroupRoundTrip(g: Group)
    requires NormalGroup(g)
    ensures GroupOf(GroupJson(g)) == g
  {
    GroupJsonFields(g);
    ToJsStringOfString(g.id);
    ToJsStringOfString(g.name);
    EmailsRoundTrip(g.emails);
  }

  /** The fields of a written group. */
  lemma GroupJsonFields(g: Group)
    ensures Get(GroupJson(g), "id") == Some(JStr(g.id))
    ensures Get(GroupJson(g), "name") == Some(JStr(g.name))
    ensures Get(GroupJson(g), "emails") == Some(Strings(g.emails))
  {
  }

  lemma EmailsRoundTrip(es: seq<string>)
    requires forall i :: 0 <= i < |es| ==> es[i] != "" && Text.IsTrimmed(es[i])
    ensures NormalizeEmails(Some(Strings(es))) == es
  {
    var items := Strings(es).items;
    var trimmed := Seqs.Map(items, TrimmedEmail);
    forall i | 0 <= i < |items| ensures trimmed[i] == es[i] {
      TrimmedEmailOfString(es[i]);
    }
    assert trimmed == es;
    Seqs.FilterKeepsAll(es, Text.NonEmpty);
  }

  lemma TrimmedEmailOfString(e: string)
    requires Text.IsTrimmed(e)
    ensures TrimmedEmail(JStr(e)) == e
  {
    Text.TrimProperties(e);
  }

  lemma StringsRoundTrip(xs: seq<string>)
    ensures WorkflowList(Some(Strings(xs))) == xs
  {
  }

  /** `emails.add(v)` on an insertion-ordered `Set`. */
  function AddEmail(acc: seq<string>, e: string): (r: seq<string>)
    requires Seqs.Distinct(acc)
    ensures Seqs.Distinct(r)
    ensures forall x :: x in r <==> x in acc || (x != "" && Text.Trim(e) == x)
  {
    var v := Text.Trim(e);
    if v != "" && v !in acc then acc + [v] else acc
  }

  function AddEmails(acc: seq<string>, es: seq<string>): (r: seq<string>)
    requires Seqs.Distinct(acc)
    ensures Seqs.Distinct(r)
    ensures forall x :: x in r <==> x in acc || (x != "" && TrimsTo(es, x))
    decreases |es|
  {
    if |es| == 0 then acc
    else
      var next := AddEmail(acc, es[0]);
      TrimsToCons(es);
      AddEmails(next, es[1..])
  }

  /** Some entry of `es` trims to `x`. */
  predicate TrimsTo(es: seq<string>, x: string)
  {
    exists j :: 0 <= j < |es| && Text.Trim(es[j]) == x
  }

  lemma TrimsToCons(es: seq<string>)
    requires |es| > 0
    ensures forall x :: TrimsTo(es, x) <==> Text.Trim(es[0]) == x || TrimsTo(es[1..], x)
  {
    forall x ensures TrimsTo(es, x) <==> Text.Trim(es[0]) == x || TrimsTo(es[1..], x) {
      if TrimsTo(es[1..], x) {
        var j :| 0 <= j < |es[1..]| && Text.Trim(es[1..][j]) == x;
        assert es[j + 1] == es[1..][j];
      }
      if TrimsTo(es, x) && Text.Trim(es[0]) != x {
        var j :| 0 <= j < |es| && Text.Trim(es[j]) == x;
        assert es[1..][j - 1] == es[j];
      }
    }
  }

  /** An email the lookup for `selected` must return: the trimmed, non-empty
      email of some selected group. */
  predicate Selected(groups: seq<Group>, selected: set<string>, x: string)
  {
    x != "" && exists i, j :: 0 <= i < |groups| && groups[i].id in selected && 0 <= j < |groups[i].emails|
                              && Text.Trim(groups[i].emails[j]) == x
  }

  /** The loop of `getRecipientsFor` over the groups. */
  function Collect(acc: seq<string>, groups: seq<Group>, selected: set<string>): (r: seq<string>)
    requires Seqs.Distinct(acc)
    ensures Seqs.Distinct(r)
    ensures forall x :: x in r <==> x in acc || Selected(groups, selected, x)
    decreases |groups|
  {
    if |groups| == 0 then acc
    else
      var next := if groups[0].id in selected then AddEmails(acc, groups[0].emails) else acc;
      var r := Collect(next, groups[1..], selected);
      forall x ensures Selected(groups, selected, x) <==>
                       (groups[0].id in selected && x != "" && exists j :: 0 <= j < |groups[0].emails| && Text.Trim(groups[0].emails[j]) == x)
                       || Selected(groups[1..], selected, x) {
        SelectedCons(groups, selected, x);
      }
      r
  }

  lemma SelectedCons(groups: seq<Group>, selected: set<string>, x: string)
    requires |groups| > 0
    ensures Selected(groups, selected, x) <==>
              (groups[0].id in selected && x != "" && exists j :: 0 <= j < |groups[0].emails| && Text.Trim(groups[0].emails[j]) == x)
              || Selected(groups[1..], selected, x)
  {
    if Selected(groups, selected, x) {
      var i, j :| 0 <= i < |groups| && groups[i].id in selected && 0 <= j < |groups[i].emails|
                  && Text.Trim(groups[i].emails[j]) == x;
      if i > 0 {
        assert groups[1..][i - 1] == groups[i];
      }
    }
    if Selected(groups[1..], selected, x) {
      var i, j :| 0 <= i < |groups[1..]| && groups[1..][i].id in selected && 0 <= j < |groups[1..][i].emails|
                  && Text.Trim(groups[1..][i].emails[j]) == x;
      assert groups[i + 1] == groups[1..][i];
    }
  }

  /** `getRecipientsFor(eventKey)`: the distinct trimmed emails of the groups
      selected for the event, in the order the groups and emails are listed. */
  function RecipientsFor(file: Option<Json>, key: EventKey): (r: seq<string>)
    ensures Seqs.Distinct(r)
    ensures var s := Load(file);
            forall x :: x in r <==> Selected(s.groups, SelectedIds(s, key), x)
  {
    var s := Load(file);
    Collect([], s.groups, SelectedIds(s, key))
  }

  /** `new Set(workflowSettings[eventKey] || [])`. */
  function SelectedIds(s: Settings, key: EventKey): (r: set<string>)
    ensures forall id :: id in r <==> id in s.workflow.Get(key)
  {
    set id | id in s.workflow.Get(key)
  }
}
