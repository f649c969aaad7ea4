/** The three workflow pages that move a claim along: acceptance
    (`client/src/pages/ClaimAcceptance.tsx`), countermeasure
    (`client/src/pages/ClaimCountermeasure.tsx`) and technical approval
    (`client/src/pages/TechnicalApproval.tsx`), plus the two updates of the
    detail page (`client/src/pages/ClaimDetail.tsx`). Each action either stops
    with a message or sends a PATCH body; the body is then read by the update
    schema and merged into the stored claim. */
module Workflow {
  import opened Wrappers
  import opened Json
  import opened Schema
  import Numerals
  import Storage
  import SD = SettingsDefaults

  /** Why a page stops before sending anything. */
  datatype Refusal = NoAssignees | NoSelection | NoComment

  datatype Outcome = Refused(reason: Refusal) | Send(body: map<string, Json>)

  /** The merge the server performs for a PATCH body, or `None` if the update
      schema rejects it. */
  function ServerApply(f: ClaimFields, body: map<string, Json>): Option<ClaimFields>
  {
    match ParseUpdate(JObj(body))
    case Ok(p) => Some(Storage.ApplyPatch(f, p))
    case Err(_) => None
  }

  // ---- acceptance ----

  function AcceptBody(tech: string, factory: string): map<string, Json>
  {
    map["assigneeTech" := JStr(tech), "assigneeFactory" := JStr(factory),
        "status" := JStr(PendingCountermeasure.Name())]
  }

  /** `handleAccept`: with no technical assignee or no factory group configured
      it stops first; then with either selection empty; otherwise it sends the
      two assignees and the next status in one body. */
  function Accept(techOptions: seq<SD.Person>, factoryGroups: seq<SD.Group>, tech: string, factory: string): (r: Outcome)
    ensures r == Refused(NoAssignees) <==> |techOptions| == 0 || |factoryGroups| == 0
    ensures r == Refused(NoSelection) <==> |techOptions| > 0 && |factoryGroups| > 0 && (tech == "" || factory == "")
    ensures r.Send? <==> |techOptions| > 0 && |factoryGroups| > 0 && tech != "" && factory != ""
    ensures r.Send? ==> r.body == AcceptBody(tech, factory)
  {
    if |techOptions| == 0 || |factoryGroups| == 0 then Refused(NoAssignees)
    else if tech == "" || factory == "" then Refused(NoSelection)
    else Send(AcceptBody(tech, factory))
  }

  /** The accept button is enabled only with both selections made and no
      request pending. */
  predicate AcceptEnabled(pending: bool, tech: string, factory: string)
  {
    !pending && tech != "" && factory != ""
  }

  /** With both lists configured, an enabled accept button always sends. */
  lemma EnabledAcceptSends(techOptions: seq<SD.Person>, factoryGroups: seq<SD.Group>, pending: bool, tech: string, factory: string)
    requires |techOptions| > 0 && |factoryGroups| > 0
    ensures AcceptEnabled(pending, tech, factory) ==> Accept(techOptions, factoryGroups, tech, factory).Send?
    ensures Accept(techOptions, factoryGroups, tech, factory).Send? <==> AcceptEnabled(false, tech, factory)
  {
  }

  /** Accepting sets both assignees and moves the claim to
      PENDING_COUNTERMEASURE; nothing else changes. */
  lemma AcceptApplied(f: ClaimFields, tech: string, factory: string)
    ensures ServerApply(f, AcceptBody(tech, factory)) ==
              Some(f.(assigneeTech := Some(tech), assigneeFactory := Some(factory),
                      status := PendingCountermeasure.Name()))
  {
    AcceptParsed(tech, factory);
  }

  lemma AcceptParsed(tech: string, factory: string)
    ensures ParseUpdate(JObj(AcceptBody(tech, factory))) ==
              Ok(EmptyPatch.(assigneeTech := Some(Some(tech)), assigneeFactory := Some(Some(factory)),
                             status := Some(PendingCountermeasure.Name())))
  {
  }

  // ---- countermeasure ----

  function CountermeasureBody(comment: string): map<string, Json>
  {
    map["remarks" := JStr(comment), "status" := JStr(PendingCountermeasure.Name())]
  }

  /** `handleSubmit` of the countermeasure page: an empty comment stops;
      otherwise the comment goes out as `remarks` with the status
      PENDING_COUNTERMEASURE. */
  function SubmitCountermeasure(comment: string): (r: Outcome)
    ensures r.Refused? <==> comment == ""
    ensures r.Refused? ==> r.reason == NoComment
    ensures r.Send? ==> r.body == CountermeasureBody(comment)
  {
    if comment == "" then Refused(NoComment) else Send(CountermeasureBody(comment))
  }

  predicate SubmitEnabled(pending: bool, comment: string)
  {
    !pending && comment != ""
  }

  lemma EnabledSubmitSends(pending: bool, comment: string)
    ensures SubmitEnabled(pending, comment) ==> SubmitCountermeasure(comment).Send?
    ensures SubmitCountermeasure(comment).Send? <==> SubmitEnabled(false, comment)
  {
  }

  /** Submitting a countermeasure stores the comment as the remarks and
      re-asserts PENDING_COUNTERMEASURE: a claim already in that state stays
      there, so submission does not advance the workflow by itself. */
  lemma CountermeasureApplied(f: ClaimFields, comment: string)
    ensures ServerApply(f, CountermeasureBody(comment)) ==
              Some(f.(remarks := Some(comment), status := PendingCountermeasure.Name()))
    ensures f.status == PendingCountermeasure.Name() ==>
              ServerApply(f, CountermeasureBody(comment)).value.status == f.status
  {
    CountermeasureParsed(comment);
  }

  lemma CountermeasureParsed(comment: string)
    ensures ParseUpdate(JObj(CountermeasureBody(comment))) ==
              Ok(EmptyPatch.(remarks := Some(Some(comment)), status := Some(PendingCountermeasure.Name())))
  {
  }

  /** The upload control is shown only while the claim has no document link
      (`claim.driveFileUrl` falsy). */
  predicate UploadOffered(driveFileUrl: Option<string>)
  {
    driveFileUrl.None? || driveFileUrl.value == ""
  }

  // ---- technical approval ----

  function StatusBody(status: string): map<string, Json>
  {
    map["status" := JStr(status)]
  }

  /** Approving sends only COMPLETED. The server does not check it against
      the current status, so it applies from any state. */
  lemma ApproveApplied(f: ClaimFields)
    ensures ServerApply(f, StatusBody(Completed.Name())) == Some(f.(status := Completed.Name()))
  {
    Storage.StatusOnlyPatch(f, Completed.Name());
  }

  /** Requesting changes sends only PENDING_COUNTERMEASURE, from any state. */
  lemma RequestChangesApplied(f: ClaimFields)
    ensures ServerApply(f, StatusBody(PendingCountermeasure.Name())) ==
              Some(f.(status := PendingCountermeasure.Name()))
  {
    Storage.StatusOnlyPatch(f, PendingCountermeasure.Name());
  }

  /** The detail page's status update: a body with just the chosen status,
      accepted exactly when it names one of the three states. */
  lemma DetailStatusUpdate(f: ClaimFields, status: string)
    ensures ServerApply(f, StatusBody(status)).Some? <==> StatusFromName(status).Some?
    ensures StatusFromName(status).Some? ==> ServerApply(f, StatusBody(status)) == Some(f.(status := status))
  {
    if StatusFromName(status).None? {
      UpdateRejectsUnknownStatus(map[], status);
      assert map[]["status" := JStr(status)] == StatusBody(status);
    } else {
      Storage.StatusOnlyPatch(f, status);
    }
  }

  function ActionsBody(corrective: string, preventive: string): map<string, Json>
  {
    map["correctiveAction" := JStr(corrective), "preventiveAction" := JStr(preventive)]
  }

  /** Saving actions on the detail page writes the two texts and nothing else. */
  lemma DetailActionsApplied(f: ClaimFields, corrective: string, preventive: string)
    ensures ServerApply(f, ActionsBody(corrective, preventive)) ==
              Some(f.(correctiveAction := Some(corrective), preventiveAction := Some(preventive)))
  {
  }

  /** The editable part of the approval page. */
  datatype ApprovalForm = ApprovalForm(defectName: string, defectCount: Option<int>, remarks: string)

  /** The form as loaded from the claim: `defectName || ""`,
      `defectCount ?? undefined`, `remarks || ""`. */
  function InitForm(f: ClaimFields): (r: ApprovalForm)
    ensures r.defectName == f.defectName && r.defectCount == f.defectCount
    ensures r.remarks == "" <==> f.remarks.None? || f.remarks.value == ""
    ensures f.remarks.Some? ==> r.remarks == f.remarks.value
  {
    ApprovalForm(f.defectName, f.defectCount, if f.remarks.Some? then f.remarks.value else "")
  }

  /** What a number input can hold here: an optional minus sign and digits. */
  predicate IntegerText(raw: string)
  {
    || (|raw| > 0 && Numerals.AllDigits(raw))
    || (|raw| > 1 && raw[0] == '-' && Numerals.AllDigits(raw[1..]))
  }

  /** `value === '' ? undefined : Number(value)`. */
  function DefectCountInput(raw: string): (r: Option<int>)
    requires raw == "" || IntegerText(raw)
    ensures r.None? <==> raw == ""
    ensures r.Some? && raw[0] != '-' ==> r.value >= 0
    ensures r == Numerals.ParseInt(raw)
  {
    if raw == "" then
      Text.TrimStartOfTrimmed(raw);
      None
    else if raw[0] == '-' then
      Numerals.ParseNegativeDigits(raw);
      Some(-(Numerals.DigitsValue(raw[1..]) as int))
    else
      Numerals.ParseDigits(raw);
      Some(Numerals.DigitsValue(raw))
  }

  /** `defectCount ?? ''`, the text the input shows. */
  function CountText(c: Option<int>): (s: string)
    ensures s == "" || IntegerText(s)
  {
    if c.None? then "" else Numerals.IntToString(c.value)
  }

  /** Reading back the shown count gives the count. */
  lemma CountTextRoundTrip(c: Option<int>)
    ensures DefectCountInput(CountText(c)) == c
  {
    if c.Some? {
      var n := c.value;
      if n < 0 {
        var s := CountText(c);
        assert s[1..] == Numerals.NatToString(-n);
        Numerals.NatToStringValue(-n);
      } else {
        Numerals.NatToStringValue(n);
      }
    }
  }

  /** The save body: `defectName`, `defectCount` and `remarks`; an undefined
      count is dropped by `JSON.stringify`, and no status is sent. */
  function SaveBody(form: ApprovalForm): map<string, Json>
  {
    var m := map["defectName" := JStr(form.defectName), "remarks" := JStr(form.remarks)];
    if form.defectCount.Some? then m["defectCount" := JNum(form.defectCount.value)] else m
  }

  /** Saving writes the name and the remarks, writes the count only when one is
      entered (an emptied count keeps the stored one), and keeps the status. */
  lemma SaveApplied(f: ClaimFields, form: ApprovalForm)
    ensures ServerApply(f, SaveBody(form)) ==
              Some(f.(defectName := form.defectName, remarks := Some(form.remarks),
                      defectCount := if form.defectCount.Some? then form.defectCount else f.defectCount))
    ensures ServerApply(f, SaveBody(form)).value.status == f.status
  {
    if form.defectCount.Some? {
      SaveWithCount(f, form.defectName, form.defectCount.value, form.remarks);
    } else {
      SaveWithoutCount(f, form.defectName, form.remarks);
    }
  }

  lemma SaveWithCount(f: ClaimFields, name: string, count: int, remarks: string)
    ensures ServerApply(f, SaveBody(ApprovalForm(name, Some(count), remarks))) ==
              Some(f.(defectName := name, remarks := Some(remarks), defectCount := Some(count)))
  {
    SaveParsedWithCount(name, count, remarks);
  }

  lemma SaveParsedWithCount(name: string, count: int, remarks: string)
    ensures ParseUpdate(JObj(SaveBody(ApprovalForm(name, Some(count), remarks)))) ==
              Ok(EmptyPatch.(defectName := Some(name), remarks := Some(Some(remarks)), defectCount := Some(Some(count))))
  {
    assert SaveBody(ApprovalForm(name, Some(count), remarks)) ==
      map["defectName" := JStr(name), "remarks" := JStr(remarks), "defectCount" := JNum(count)];
  }

  lemma SaveWithoutCount(f: ClaimFields, name: string, remarks: string)
    ensures ServerApply(f, SaveBody(ApprovalForm(name, None, remarks))) ==
              Some(f.(defectName := name, remarks := Some(remarks)))
  {
    assert SaveBody(ApprovalForm(name, None, remarks)) ==
      map["defectName" := JStr(name), "remarks" := JStr(remarks)];
  }

  /** Loading a claim into the form and saving it untouched changes nothing
      but a missing remarks text, which is stored as "". */
  lemma SaveUnchangedForm(f: ClaimFields)
    ensures ServerApply(f, SaveBody(InitForm(f))) ==
              Some(f.(remarks := Some(if f.remarks.Some? then f.remarks.value else "")))
  {
    SaveApplied(f, InitForm(f));
  }
}
