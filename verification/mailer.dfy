/** The pure parts of the mailer (`server/mailer.ts`): reading flags from the
    environment, choosing a transport, resolving recipients, deciding whether a
    mail is handed to the transport, and the bilingual subjects and bodies.
    The environment is a map from variable names to values; SMTP delivery is
    not modelled, only the mail that would be handed to `sendMail`. */
module Mailer {
  import opened Wrappers
  import opened Schema
  import Text
  import Numerals
  import Seqs

  type Env = map<string, string>

  /** `process.env[name]`. */
  function EnvVar(env: Env, name: string): Option<string>
  {
    if name in env then Some(env[name]) else None
  }

  /** JavaScript truthiness of an optional string. */
  predicate Truthy(v: Option<string>)
  {
    v.Some? && v.value != ""
  }

  /** `a || b` on optional strings. */
  function Or(a: Option<string>, b: Option<string>): (r: Option<string>)
    ensures Truthy(a) ==> r == a
    ensures !Truthy(a) ==> r == b
  {
    if Truthy(a) then a else b
  }

  /** The spellings `getBool` accepts as true, after lower-casing. */
  const TrueWords: set<string> := {"1", "true", "yes"}

  /** `getBool(val, def)`. */
  function GetBool(val: Option<string>, def: bool): (r: bool)
    ensures val.None? ==> r == def
    ensures val.Some? ==> (r <==> Text.ToLower(val.value) in TrueWords)
  {
    if val.None? then def else Text.ToLower(val.value) in TrueWords
  }

  /** A present value decides on its own, whatever the default, and the
      decision does not depend on letter case. */
  lemma GetBoolCaseInsensitive(v: string, d1: bool, d2: bool)
    ensures GetBool(Some(v), d1) == GetBool(Some(v), d2)
    ensures GetBool(Some(Text.ToLower(v)), d1) == GetBool(Some(v), d1)
  {
    Text.ToLowerIdempotent(v);
  }

  /** What `buildTransport` produces. */
  datatype Transport =
    | GmailOAuth2(user: string)
    | Smtp(host: string, port: int, secure: bool)
    | NotConfigured

  /** `buildTransport()`: Gmail OAuth2 when the user and the three OAuth2
      variables are all set; otherwise SMTP when a host and a non-zero port
      parse; otherwise no transport. */
  function BuildTransport(env: Env): (r: Transport)
    ensures r.GmailOAuth2? <==>
              Truthy(EnvVar(env, "SMTP_USER")) && Truthy(EnvVar(env, "GMAIL_OAUTH2_CLIENT_ID"))
              && Truthy(EnvVar(env, "GMAIL_OAUTH2_CLIENT_SECRET")) && Truthy(EnvVar(env, "GMAIL_OAUTH2_REFRESH_TOKEN"))
    ensures r.Smtp? ==> r.host != "" && r.port != 0 && EnvVar(env, "SMTP_HOST") == Some(r.host)
    ensures r.Smtp? ==> SmtpPort(env) == Some(r.port)
    ensures r.Smtp? ==> r.secure == GetBool(EnvVar(env, "SMTP_SECURE"), false)
    ensures r.NotConfigured? <==>
              (!r.GmailOAuth2? && (!Truthy(EnvVar(env, "SMTP_HOST")) || SmtpPort(env).None? || SmtpPort(env) == Some(0)))
  {
    var host := EnvVar(env, "SMTP_HOST");
    var port := SmtpPort(env);
    var user := EnvVar(env, "SMTP_USER");
    if Truthy(user) && Truthy(EnvVar(env, "GMAIL_OAUTH2_CLIENT_ID"))
       && Truthy(EnvVar(env, "GMAIL_OAUTH2_CLIENT_SECRET")) && Truthy(EnvVar(env, "GMAIL_OAUTH2_REFRESH_TOKEN"))
    then GmailOAuth2(user.value)
    else if !Truthy(host) || port.None? || port.value == 0 then NotConfigured
    else Smtp(host.value, port.value, GetBool(EnvVar(env, "SMTP_SECURE"), false))
  }

  /** `SMTP_PORT ? parseInt(SMTP_PORT, 10) : undefined`, with `None` for both
      `undefined` and `NaN`. */
  function SmtpPort(env: Env): (r: Option<int>)
    ensures !Truthy(EnvVar(env, "SMTP_PORT")) ==> r.None?
    ensures Truthy(EnvVar(env, "SMTP_PORT")) ==> r == Numerals.ParseInt(EnvVar(env, "SMTP_PORT").value)
  {
    var v := EnvVar(env, "SMTP_PORT");
    if Truthy(v) then Numerals.ParseInt(v.value) else None
  }

  /** `isEmailConfigured()`. */
  predicate IsEmailConfigured(env: Env)
  {
    !BuildTransport(env).NotConfigured? && Truthy(EnvVar(env, "MAIL_FROM"))
  }

  /** The four notification events. */
  datatype MailEvent = ClaimCreated | ClaimAccepted | CountermeasureSubmitted | TechnicalApproved
  {
    /** The environment variable listing the event's default recipients. */
    function EnvName(): string
    {
      match this
      case ClaimCreated => "NOTIFY_ON_CLAIM_CREATED"
      case ClaimAccepted => "NOTIFY_ON_CLAIM_ACCEPTED"
      case CountermeasureSubmitted => "NOTIFY_ON_COUNTERMEASURE"
      case TechnicalApproved => "NOTIFY_ON_TECHNICAL_APPROVED"
    }
  }

  /** `process.env.NOTIFY_… || process.env.MAIL_TO || ''`. */
  function FallbackList(env: Env, ev: MailEvent): (r: string)
    ensures Truthy(EnvVar(env, ev.EnvName())) ==> r == env[ev.EnvName()]
    ensures !Truthy(EnvVar(env, ev.EnvName())) && Truthy(EnvVar(env, "MAIL_TO")) ==> r == env["MAIL_TO"]
    ensures !Truthy(EnvVar(env, ev.EnvName())) && !Truthy(EnvVar(env, "MAIL_TO")) ==> r == ""
  {
    var v := Or(EnvVar(env, ev.EnvName()), EnvVar(env, "MAIL_TO"));
    if Truthy(v) then v.value else ""
  }

  /** `.split(',').map(s => s.trim()).filter(Boolean)`. */
  function SplitList(s: string): (r: seq<string>)
    ensures forall i :: 0 <= i < |r| ==> r[i] != "" && Text.IsTrimmed(r[i])
    ensures forall x :: x in r <==> x != "" && exists p :: p in Text.Split(s, ',') && Text.Trim(p) == x
  {
    var parts := Text.Split(s, ',');
    var trimmed := Seqs.Map(parts, Text.Trim);
    forall i | 0 <= i < |trimmed| ensures Text.IsTrimmed(trimmed[i]) {
      Text.TrimProperties(parts[i]);
    }
    Seqs.MapMembers(parts, Text.Trim);
    Seqs.Filter(trimmed, Text.NonEmpty)
  }

  /** A list written as comma-separated clean addresses reads back unchanged. */
  lemma SplitListOfJoin(xs: seq<string>)
    requires forall i :: 0 <= i < |xs| ==> xs[i] != "" && Text.IsTrimmed(xs[i]) && ',' !in xs[i]
    ensures SplitList(Text.Join(xs, ",")) == xs
  {
    if |xs| == 0 {
      assert Text.Split("", ',') == [""];
      assert Text.Trim("") == "";
    } else {
      Text.SplitJoin(xs, ',');
      assert Text.Split(Text.Join(xs, ","), ',') == xs;
      TrimAllTrimmed(xs);
      Seqs.FilterKeepsAll(xs, Text.NonEmpty);
    }
  }

  lemma TrimAllTrimmed(xs: seq<string>)
    requires forall i :: 0 <= i < |xs| ==> Text.IsTrimmed(xs[i])
    ensures Seqs.Map(xs, Text.Trim) == xs
  {
    var trimmed := Seqs.Map(xs, Text.Trim);
    forall i | 0 <= i < |xs| ensures trimmed[i] == xs[i] {
      Text.TrimProperties(xs[i]);
    }
  }

  /** The recipients a `send…Email` call resolves: a non-empty explicit list
      verbatim, otherwise the event's list from the environment. */
  function ResolveRecipients(recipients: Option<seq<string>>, env: Env, ev: MailEvent): (r: seq<string>)
    ensures recipients.Some? && |recipients.value| > 0 ==> r == recipients.value
    ensures !(recipients.Some? && |recipients.value| > 0) ==> r == SplitList(FallbackList(env, ev))
  {
    if recipients.Some? && |recipients.value| > 0 then recipients.value
    else SplitList(FallbackList(env, ev))
  }

  /** The mail handed to the transport. */
  datatype Mail = Mail(from: string, to: string, subject: string, text: string)

  /** One `send…Email(claim, recipients)` call: the mail it hands to
      `sendMail`, or `None` when it returns early. A failure inside
      `sendMail` is caught and logged, so the call itself never fails. */
  function Send(env: Env, ev: MailEvent, claim: Claim, recipients: Option<seq<string>>): (r: Option<Mail>)
    ensures r.Some? <==> !BuildTransport(env).NotConfigured? && Truthy(EnvVar(env, "MAIL_FROM"))
                         && Text.Join(ResolveRecipients(recipients, env, ev), ",") != ""
    ensures r.Some? ==> r.value.from == env["MAIL_FROM"]
    ensures r.Some? ==> r.value.to == Text.Join(ResolveRecipients(recipients, env, ev), ",")
    ensures r.Some? ==> r.value.subject == Subject(ev, claim)
    ensures r.Some? ==> Text.Includes(r.value.subject, "TCAR-" + claim.tcarNo)
    ensures r.Some? ==> r.value.text == Text.Join(BodyLines(ev, claim), "\n")
  {
    if BuildTransport(env).NotConfigured? then None
    else
      var from := EnvVar(env, "MAIL_FROM");
      var to := Text.Join(ResolveRecipients(recipients, env, ev), ",");
      if !Truthy(from) || to == "" then None
      else
        SubjectNamesClaim(ev, claim);
        Some(Mail(from.value, to, Subject(ev, claim), Text.Join(BodyLines(ev, claim), "\n")))
  }

  /** With no explicit list and an empty environment list, nothing is sent. */
  lemma NoRecipientsNoMail(env: Env, ev: MailEvent, claim: Claim)
    requires !Truthy(EnvVar(env, ev.EnvName())) && !Truthy(EnvVar(env, "MAIL_TO"))
    ensures Send(env, ev, claim, None) == None
    ensures Send(env, ev, claim, Some([])) == None
  {
    assert Text.Split("", ',') == [""];
    assert Text.Trim("") == "";
    assert SplitList("") == [];
  }

  /** `【…】TCAR-${tcarNo} … / …`. */
  function Subject(ev: MailEvent, claim: Claim): string
  {
    match ev
    case ClaimCreated => "【クレーム受付】TCAR-" + claim.tcarNo + " 新規登録 / Claim Registered"
    case ClaimAccepted => "【受付完了】TCAR-" + claim.tcarNo + " 技術へ回付 / Claim Accepted"
    case CountermeasureSubmitted => "【対策完了】TCAR-" + claim.tcarNo + " 対策書登録完了 / Countermeasure Submitted"
    case TechnicalApproved => "【技術承認完了】TCAR-" + claim.tcarNo + " 完了通知 / Technical Approval Completed"
  }

  /** Every subject names the claim as `TCAR-` followed by its number. */
  lemma SubjectNamesClaim(ev: MailEvent, claim: Claim)
    ensures Text.Includes(Subject(ev, claim), "TCAR-" + claim.tcarNo)
  {
    var q := "TCAR-" + claim.tcarNo;
    var head := match ev
      case ClaimCreated => "【クレーム受付】"
      case ClaimAccepted => "【受付完了】"
      case CountermeasureSubmitted => "【対策完了】"
      case TechnicalApproved => "【技術承認完了】";
    var tail := match ev
      case ClaimCreated => " 新規登録 / Claim Registered"
      case ClaimAccepted => " 技術へ回付 / Claim Accepted"
      case CountermeasureSubmitted => " 対策書登録完了 / Countermeasure Submitted"
      case TechnicalApproved => " 完了通知 / Technical Approval Completed";
    assert Subject(ev, claim) == head + q + tail;
    IncludesMiddle(head, q, tail);
  }

  lemma IncludesMiddle(a: string, q: string, b: string)
    ensures Text.Includes(a + q + b, q)
  {
    assert (a + q + b)[|a|..|a| + |q|] == q;
    assert Text.OccursAt(a + q + b, q, |a|);
  }

  /** Different events give different subjects for the same claim. */
  lemma SubjectsDistinguishEvents(a: MailEvent, b: MailEvent, claim: Claim)
    requires a != b
    ensures Subject(a, claim) != Subject(b, claim)
  {
    assert Subject(a, claim)[1] != Subject(b, claim)[1];
  }

  /** `${v ?? '-'}`. */
  function OrDash(v: Option<string>): string
  {
    if v.Some? then v.value else "-"
  }

  function CountOrDash(v: Option<int>): string
  {
    if v.Some? then Numerals.IntToString(v.value) else "-"
  }

  /** `claim.driveFileUrl ? `${label}${url}` : ''`. */
  function DocumentLine(caption: string, url: Option<string>): string
  {
    if Truthy(url) then caption + url.value else ""
  }

  /** The lines of the bilingual body, before `join('\n')`. The
      countermeasure and approval bodies drop every empty line. */
  function BodyLines(ev: MailEvent, claim: Claim): seq<string>
  {
    var f := claim.fields;
    match ev
    case ClaimCreated =>
      ["新しいクレームが登録されました。", "",
       "TCAR No: " + claim.tcarNo, "顧客名: " + f.customerName, "不具合名: " + f.defectName,
       "不具合数: " + CountOrDash(f.defectCount) + " 件", "受付日: " + f.receivedDate,
       "期限: " + OrDash(f.dueDate), "備考: " + OrDash(f.remarks)]
      + ["", "---", "A new claim has been registered.", "",
         "TCAR No: " + claim.tcarNo, "Customer: " + f.customerName, "Defect: " + f.defectName,
         "Quantity: " + CountOrDash(f.defectCount), "Received Date: " + f.receivedDate,
         "Due Date: " + OrDash(f.dueDate), "Remarks: " + OrDash(f.remarks)]
    case ClaimAccepted =>
      ["クレームが受付完了になりました。", "",
       "TCAR No: " + claim.tcarNo, "顧客名: " + f.customerName, "不具合名: " + f.defectName,
       "不具合数: " + CountOrDash(f.defectCount) + " 件", "期限: " + OrDash(f.dueDate),
       "対応をお願いします。"]
      + ["", "---", "The claim has been accepted and assigned.", "",
         "TCAR No: " + claim.tcarNo, "Customer: " + f.customerName, "Defect: " + f.defectName,
         "Quantity: " + CountOrDash(f.defectCount), "Due Date: " + OrDash(f.dueDate),
         "Please take necessary actions."]
    case CountermeasureSubmitted =>
      Seqs.Filter(CountermeasureJp(claim), Text.NonEmpty) + Seqs.Filter(CountermeasureEn(claim), Text.NonEmpty)
    case TechnicalApproved =>
      Seqs.Filter(ApprovalJp(claim), Text.NonEmpty) + Seqs.Filter(ApprovalEn(claim), Text.NonEmpty)
  }

  function CountermeasureJp(claim: Claim): seq<string>
  {
    var f := claim.fields;
    ["対策書が登録され、クレームが完了しました。", "",
     "TCAR No: " + claim.tcarNo, "顧客名: " + f.customerName, "不具合名: " + f.defectName,
     "不具合数: " + CountOrDash(f.defectCount) + " 件",
     "是正処置: " + OrDash(f.correctiveAction), "予防処置: " + OrDash(f.preventiveAction),
     DocumentLine("資料: ", f.driveFileUrl)]
  }

  /** The sentence that opens the countermeasure mail. The verifier does not
      look inside a literal this long, so the first word is written apart to
      let it see how the line begins. */
  const CountermeasureDoneEn := "The " + "countermeasure document has been submitted and the claim is completed."

  function CountermeasureEn(claim: Claim): seq<string>
  {
    var f := claim.fields;
    ["", "---", CountermeasureDoneEn, "",
     "TCAR No: " + claim.tcarNo, "Customer: " + f.customerName, "Defect: " + f.defectName,
     "Quantity: " + CountOrDash(f.defectCount),
     "Corrective Action: " + OrDash(f.correctiveAction), "Preventive Action: " + OrDash(f.preventiveAction),
     DocumentLine("Document: ", f.driveFileUrl)]
  }

  function ApprovalJp(claim: Claim): seq<string>
  {
    var f := claim.fields;
    ["技術承認が完了しました。", "",
     "TCAR No: " + claim.tcarNo, "顧客名: " + f.customerName, "不具合名: " + f.defectName,
     "不具合数: " + CountOrDash(f.defectCount),
     "是正処置: " + OrDash(f.correctiveAction), "予防処置: " + OrDash(f.preventiveAction),
     DocumentLine("対策書: ", f.driveFileUrl)]
  }

  function ApprovalEn(claim: Claim): seq<string>
  {
    var f := claim.fields;
    ["", "---", "Technical approval has been completed.", "",
     "TCAR No: " + claim.tcarNo, "Customer: " + f.customerName, "Defect: " + f.defectName,
     "Quantity: " + CountOrDash(f.defectCount),
     "Corrective Action: " + OrDash(f.correctiveAction), "Preventive Action: " + OrDash(f.preventiveAction),
     DocumentLine("Document: ", f.driveFileUrl)]
  }

  /** Some line starts with `caption`. */
  predicate HasLine(lines: seq<string>, caption: string)
  {
    exists i :: 0 <= i < |lines| && Text.StartsWith(lines[i], caption)
  }

  /** The countermeasure and approval bodies carry an English `Document:`
      line exactly when the claim has a drive file URL, and it names that URL. */
  lemma DocumentLineIffUrl(ev: MailEvent, claim: Claim)
    requires ev == CountermeasureSubmitted || ev == TechnicalApproved
    ensures HasLine(BodyLines(ev, claim), "Document: ") <==> Truthy(claim.fields.driveFileUrl)
    ensures Truthy(claim.fields.driveFileUrl) ==> "Document: " + claim.fields.driveFileUrl.value in BodyLines(ev, claim)
  {
    var jp := if ev == CountermeasureSubmitted then CountermeasureJp(claim) else ApprovalJp(claim);
    var en := if ev == CountermeasureSubmitted then CountermeasureEn(claim) else ApprovalEn(claim);
    assert BodyLines(ev, claim) == Seqs.Filter(jp, Text.NonEmpty) + Seqs.Filter(en, Text.NonEmpty);
    var url := claim.fields.driveFileUrl;
    var doc := DocumentLine("Document: ", url);
    JpHasNoDocumentLine(ev, claim);
    EnDocumentLineOnlyLast(ev, claim);
    if Truthy(url) {
      assert doc == "Document: " + url.value;
      assert doc[..|"Document: "|] == "Document: ";
    }
    FilteredDocumentLine(jp, en, "Document: ");
  }

  /** Where the only line of `en` that may start with `d` is its last, the
      filtered body has such a line exactly when that last line does. */
  lemma FilteredDocumentLine(jp: seq<string>, en: seq<string>, d: string)
    requires d != ""
    requires forall l :: l in jp ==> !Text.StartsWith(l, d)
    requires |en| == 11 && forall i :: 0 <= i < 10 ==> !Text.StartsWith(en[i], d)
    ensures var lines := Seqs.Filter(jp, Text.NonEmpty) + Seqs.Filter(en, Text.NonEmpty);
            && (HasLine(lines, d) <==> Text.StartsWith(en[10], d))
            && (Text.StartsWith(en[10], d) ==> en[10] in lines)
  {
    if Text.StartsWith(en[10], d) {
      DocumentLineKept(jp, en, d);
    } else {
      NoDocumentLine(jp, en, d);
    }
  }

  lemma DocumentLineKept(jp: seq<string>, en: seq<string>, d: string)
    requires d != "" && |en| == 11 && Text.StartsWith(en[10], d)
    ensures var lines := Seqs.Filter(jp, Text.NonEmpty) + Seqs.Filter(en, Text.NonEmpty);
            HasLine(lines, d) && en[10] in lines
  {
    var fj := Seqs.Filter(jp, Text.NonEmpty);
    var fe := Seqs.Filter(en, Text.NonEmpty);
    var lines := fj + fe;
    assert en[10] in fe;
    var i :| 0 <= i < |fe| && fe[i] == en[10];
    assert lines[|fj| + i] == en[10];
  }

  lemma NoDocumentLine(jp: seq<string>, en: seq<string>, d: string)
    requires forall l :: l in jp ==> !Text.StartsWith(l, d)
    requires |en| == 11 && forall i :: 0 <= i < 11 ==> !Text.StartsWith(en[i], d)
    ensures !HasLine(Seqs.Filter(jp, Text.NonEmpty) + Seqs.Filter(en, Text.NonEmpty), d)
  {
    var fj := Seqs.Filter(jp, Text.NonEmpty);
    var fe := Seqs.Filter(en, Text.NonEmpty);
    var lines := fj + fe;
    forall i | 0 <= i < |lines| ensures !Text.StartsWith(lines[i], d) {
      if i < |fj| {
        assert fj[i] in jp;
      } else {
        assert fe[i - |fj|] in en;
      }
    }
  }

  /** No Japanese line starts with `Document: `. */
  lemma JpHasNoDocumentLine(ev: MailEvent, claim: Claim)
    requires ev == CountermeasureSubmitted || ev == TechnicalApproved
    ensures forall l :: l in (if ev == CountermeasureSubmitted then CountermeasureJp(claim) else ApprovalJp(claim))
              ==> !Text.StartsWith(l, "Document: ")
  {
    var jp := if ev == CountermeasureSubmitted then CountermeasureJp(claim) else ApprovalJp(claim);
    forall i | 0 <= i < |jp| ensures !Text.StartsWith(jp[i], "Document: ") {
      if jp[i] != "" {
        Text.NotStartsWithAt(jp[i], "Document: ", 0);
      }
    }
  }

  /** Among the English lines only the last may start with `Document: `; it
      is the document line. */
  lemma EnDocumentLineOnlyLast(ev: MailEvent, claim: Claim)
    requires ev == CountermeasureSubmitted || ev == TechnicalApproved
    ensures var en := if ev == CountermeasureSubmitted then CountermeasureEn(claim) else ApprovalEn(claim);
            && |en| == 11
            && en[10] == DocumentLine("Document: ", claim.fields.driveFileUrl)
            && forall i :: 0 <= i < 10 ==> !Text.StartsWith(en[i], "Document: ")
  {
    if ev == CountermeasureSubmitted {
      assert CountermeasureDoneEn[0] == 'T';
      OnlyLastIsDocument(CountermeasureEn(claim));
    } else {
      OnlyLastIsDocument(ApprovalEn(claim));
    }
  }

  /** The fixed shape both English bodies share. */
  lemma OnlyLastIsDocument(en: seq<string>)
    requires |en| == 11 && en[0] == "" && en[1] == "---" && en[3] == ""
    requires |en[2]| > 0 && en[2][0] == 'T'
    requires Text.StartsWith(en[4], "TCAR No: ") && Text.StartsWith(en[5], "Customer: ")
    requires Text.StartsWith(en[6], "Defect: ") && Text.StartsWith(en[7], "Quantity: ")
    requires Text.StartsWith(en[8], "Corrective Action: ") && Text.StartsWith(en[9], "Preventive Action: ")
    ensures forall i :: 0 <= i < 10 ==> !Text.StartsWith(en[i], "Document: ")
  {
    var d := "Document: ";
    Text.NotStartsWithAt(en[1], d, 0);
    Text.NotStartsWithAt(en[2], d, 0);
    Text.NotStartsWithAt(en[4], d, 0);
    Text.NotStartsWithAt(en[5], d, 0);
    Text.NotStartsWithAt(en[6], d, 1);
    Text.NotStartsWithAt(en[7], d, 0);
    Text.NotStartsWithAt(en[8], d, 0);
    Text.NotStartsWithAt(en[9], d, 0);
  }
}
