# sqlsync claims tracker — a Dafny model

This project models the logic of a claims-tracking web application (TCAR
claims: a customer defect report that moves from acceptance, through a
countermeasure, to technical approval). Everything here is pure functions over
immutable data:

- the claim repository of the server (`MemStorage`) and the REST backend's
  field mapping;
- the TCAR number allocator and its bounded retry loop;
- the creation and update schemas of claims;
- notification settings on the server, recipient resolution and the mail
  builders;
- the client's user registry and session rule;
- the settings sanitisers and the list editors of the settings pages;
- the pure derivations of the client pages: the new-claim form and payload,
  the workflow PATCH bodies, the work queues, the search, the detail view and
  the dashboard.

Modules follow the program: `Schema` (`shared/schema.ts`), `Storage` and
`RestMapping` (`server/storage.ts`), `Allocator` (`server/routes.ts`),
`NotificationStore` (`server/notification-store.ts`), `Mailer`
(`server/mailer.ts`), `Auth` (`client/src/lib/auth.tsx`), `SettingsDefaults`
(`client/src/lib/settingsDefaults.ts`), `NotificationSettings`,
`CustomerSettings`, `NewClaim`, `Workflow`, `ClaimViews` and `Dashboard` (the
client pages). `Wrappers`, `Seqs`, `Text`, `Numerals` and `Json` hold the
shared vocabulary: results and options, sequence filters, trimming, splitting
and lower-casing, decimal formatting and parsing, and JSON values.

Conventions:

- A JSON object is a `map<string, Json>`, and an absent key is JavaScript's
  `undefined`. Numbers are integers.
- A point in time is an `Instant` carrying its local calendar year and month.
- Fresh UUIDs, the clock, stored `localStorage` values, environment variables
  and settings files are parameters.
- Sending mail and the network are abstract events.

## Model

| member | source | states |
|---|---|---|
| Schema.StatusFromName | shared/schema.ts:62 | the update schema's enum accepts a string exactly when it is the name of one of the three states |
| Schema.StatusNameInjective | shared/schema.ts:69 | the three state names are pairwise distinct |
| Schema.ParseDcItems | shared/schema.ts:6-9 | a DC list parses exactly when every element does; then item i is element i's `dc` and `quantity`, an integer of at least 1 |
| Schema.DcItemList | shared/schema.ts:57-59 | an accepted `dcItems` list is non-empty and every item is valid |
| Schema.ParseInsert | shared/schema.ts:50-59 | every creation body the schema accepts has at least one DC item, each valid |
| Schema.ParseInsertAccepts | shared/schema.ts:22-59 | the creation schema accepts exactly the objects with a string under each required text key, a string, null or nothing under each nullable one, an integer, null or nothing as defect count, a string or nothing as status, and a non-empty list of valid DC items |
| Schema.ParseInsertReadsBack | shared/schema.ts:22-59 | an accepted creation body reads back: each column holds the body's value under its key, a missing or null nullable key gives none, and the DC items are the body's elements |
| Schema.ParseInsertIgnoresOtherKeys | shared/schema.ts:50-56 | keys outside the creation schema do not influence the parse |
| Schema.ParseInsertAgree | shared/schema.ts:50-59 | two bodies that agree on every schema key parse the same |
| Schema.ParseInsertDropsIdentity | shared/schema.ts:50-56 | `id`, `tcarNo`, `createdAt` and `updatedAt` in a creation body are ignored |
| Schema.PatchStatus | shared/schema.ts:61-63 | a status accepted in an update body names one of the three states |
| Schema.PatchDcItems | shared/schema.ts:61-63 | a DC list accepted in an update body is non-empty |
| Schema.ParseUpdate | shared/schema.ts:61-63 | every accepted update carries only an enum status and only a non-empty DC list |
| Schema.ParseUpdateAccepts | shared/schema.ts:61-63 | the update schema accepts exactly the objects whose supplied keys pass the creation schema's type checks, with the status one of the three names and a supplied DC list non-empty and valid |
| Schema.ParseUpdateReadsBack | shared/schema.ts:61-63 | an accepted update reads back: an absent key leaves its field unset, null under a nullable key clears it, and a value sets it |
| Schema.EmptyUpdateBody | shared/schema.ts:61-63 | the empty body is a valid update that supplies nothing |
| Schema.UpdateRejectsUnknownStatus | shared/schema.ts:62 | any body whose status is outside the enum is rejected |
| Storage.GetClaim | server/storage.ts:49-51 | the lookup finds a stored claim under its id, and finds nothing exactly when no entry has that id |
| Storage.Put | server/storage.ts:97 | `Map.set` makes the key map to the new claim, leaves every other key's claim unchanged, replaces in place or appends at the end |
| Storage.Remove | server/storage.ts:118 | `Map.delete` removes the key, keeps every other key's claim, and changes nothing when the key is absent |
| Storage.GetClaimByTcarNo | server/storage.ts:53-57 | the result is the first claim in iteration order with that TCAR number, and nothing iff no claim has it |
| Storage.GreatestWithPrefix | server/storage.ts:60-65 | the result is a stored TCAR number with the prefix that no other such number exceeds lexicographically, and nothing iff none has the prefix |
| Storage.LatestTcarForMonth | server/storage.ts:59-66 | the latest number for a month is the lexicographically greatest stored number starting with `yearMonth-`, absent iff there is none |
| Storage.LatestIsUnique | server/storage.ts:59-66 | any stored number with the prefix that no other exceeds is the one returned |
| Storage.InitialStatus | server/storage.ts:81 | a new claim's status is the supplied one when non-empty, else PENDING_ACCEPTANCE, and never empty |
| Storage.AttachmentsOrEmpty | server/storage.ts:92 | missing or null attachments become `[]`; supplied ones are kept |
| Storage.NewClaim | server/storage.ts:68-96 | the new claim carries the given id, TCAR number and time for both stamps, the defaulted status and attachments, the input's required fields and every optional column as given, absent ones as null |
| Storage.CreateClaim | server/storage.ts:68-99 | the new claim is stored under its id, every other entry is unchanged, and a fresh id appends it at the end |
| Storage.CreateKeepsSchemaInvariants | server/storage.ts:77 | a claim created from schema-valid input has a non-empty list of valid DC items |
| Storage.CreateAllowsDuplicateTcarNo | server/storage.ts:68-99 | the in-memory create stores a TCAR number that is already present; the uniqueness of `shared/schema.ts:24` is not enforced here |
| Storage.ApplyEmptyPatch | server/storage.ts:105-107 | merging an empty update changes no field |
| Storage.ApplyFullPatch | server/storage.ts:105-107 | an update supplying every field replaces them all |
| Storage.ApplyPatchIdempotent | server/storage.ts:105-107 | merging the same update twice equals merging it once |
| Storage.ApplyPatchThen | server/storage.ts:105-107 | two successive merges equal one merge in which the later keys win |
| Storage.StatusOnlyPatch | server/storage.ts:105-112 | an update with only a status changes only the status |
| Storage.UpdateClaim | server/storage.ts:101-115 | an unknown id yields nothing and leaves the map alone; otherwise the stored id, TCAR number and creation time are kept, supplied fields are overwritten, others kept, `updatedAt` becomes now, and no other entry changes |
| Storage.UpdateIgnoresIdentityKeys | server/storage.ts:108-111 | identity or audit values in the update make no difference to the result |
| Storage.DeleteClaim | server/storage.ts:117-119 | the result is true iff the id was present; afterwards the id is absent and every other entry is unchanged |
| Storage.OperationsKeepWellFormed | server/storage.ts:97-118 | create, update and delete keep the stored ids distinct |
| Storage.CreateGrowsByOne | server/storage.ts:68-99 | creating under a fresh id adds exactly one entry, and its TCAR number can then be looked up |
| Storage.DeleteTwice | server/storage.ts:117-119 | deleting a present id removes exactly one entry, and deleting it again reports false |
| RestMapping.EncodeRow | server/storage.ts:22-48 | a stored row holds every column of the claim under its snake_case name and nothing else |
| RestMapping.NormalizeClaim | server/storage.ts:149-176 | a column is in the normalised claim exactly when its reading gives a value, and then holds that value |
| RestMapping.NormalizeDefaults | server/storage.ts:153-172 | nullable columns read as `null` and the two list columns as `[]` when neither name carries a value; timestamps are kept only when truthy |
| RestMapping.NormalizePrefersCamel | server/storage.ts:152-172 | a camelCase value that is neither missing nor null wins over the snake_case one, which is used otherwise |
| RestMapping.NormalizeCopiesPlain | server/storage.ts:151-160 | `id` and `status` are copied from their one key as they are, and are absent when the key is |
| RestMapping.NormalizeEncodedRow | server/storage.ts:149-176 | a database row normalises back to the claim it stores |
| RestMapping.SnakeCasePayload | server/storage.ts:178-203 | the insert payload has `tcar_no` exactly when the number is non-empty, never the generated columns, and only snake_case keys |
| RestMapping.InsertColumn | server/storage.ts:180-199 | each column of the insert payload carries what the in-memory create stores; only the identity and time columns are not sent |
| RestMapping.RestCreateMatchesMemory | server/storage.ts:250-257 | the payload plus the generated columns is the row of the claim `createClaim` builds in memory, and reads back as that claim |
| RestMapping.PatchPayload | server/storage.ts:259-286 | the PATCH body never holds `id`, `tcar_no` or `created_at`, always holds the new `updated_at`, and only snake_case keys |
| RestMapping.PatchPayloadKeys | server/storage.ts:261-286 | a column's key is in the PATCH body exactly when the update supplies that column; `updated_at` always, `id`, `tcar_no` and `created_at` never |
| RestMapping.EmptyPatchPayload | server/storage.ts:283-286 | an empty update sends only `updated_at` |
| RestMapping.RestUpdateMatchesMemory | server/storage.ts:259-292 | merging the PATCH body into the stored row gives the row of the claim the in-memory update produces |
| Allocator.YearMonth | server/routes.ts:73-74 | the month key ends with the month number (index + 1) as two digits, and for a non-negative year it is all digits with no dash |
| Allocator.YearMonthDigits | server/routes.ts:73-74 | for a four-digit year the month key is six digits with no dash |
| Allocator.YearMonthReadsBack | server/routes.ts:73-74 | the month key's first four characters parse to the year, and the last two are the month number (index + 1) zero-padded |
| Allocator.SuffixOf | server/routes.ts:80-81 | `split('-')[1] \|\| ''`: empty when there is no dash, otherwise the text between the first dash and the next one (or the end) |
| Allocator.NextSeq | server/routes.ts:77-84 | the next number is 1 without a latest number or when its suffix does not parse, and the parsed suffix plus 1 otherwise; it is always at least 1 |
| Allocator.MakeNext | server/routes.ts:76-86 | the proposal starts with `yearMonth-` and its suffix is the next number padded to at least four digits, never truncated |
| Allocator.CandidateRoundTrip | server/routes.ts:79-85 | the suffix of a formatted candidate is the padded number and parses back to it |
| Allocator.NextAfterCandidate | server/routes.ts:76-86 | after the candidate for n the allocator proposes the candidate for n + 1 |
| Allocator.CandidateOrder | server/routes.ts:85 | for numbers up to 9999 candidates compare lexicographically as their numbers compare, which `server/storage.ts:64` relies on |
| Allocator.CandidateInjective | server/routes.ts:85 | two candidates of the same month are equal iff their sequence numbers are |
| Allocator.NextInNumberedStore | server/routes.ts:76-86 | in a store whose month numbers are exactly 1..m, the latest is m (none for m = 0), the proposal is m + 1, and no stored claim carries it |
| Allocator.LatestOfNumbered | server/storage.ts:59-66 | in a store numbered 1..m the latest number for the month is the candidate for m |
| Allocator.NextIsFresh | server/routes.ts:76-86 | the proposal for a store numbered 1..m is carried by no stored claim |
| Allocator.CreateKeepsNumbering | server/routes.ts:92-94 | creating the proposed claim leaves the month numbered 1..m + 1, so sequential creates get 0001, 0002, … |
| Allocator.TryCreate | server/routes.ts:94 | an attempt fails exactly when uniqueness is enforced and the number is taken; otherwise it is the in-memory create |
| Allocator.CreateWithRetry | server/routes.ts:88-101 | at most three attempts; the third failure is the error; without a uniqueness check the first attempt succeeds on the store as given; a success creates, in the store after that attempt's concurrent commits, the claim numbered `makeNext` of the store its attempt read, which is the input store plus the earlier attempts' concurrent commits; under the uniqueness check no other stored claim carries that number; the loop stops at `LastAttempt`, the first attempt whose proposal is free (or the third), so every earlier attempt's proposal was taken in the store it wrote to, and a final failure reports DuplicateTcarNo of the last proposal |
| Allocator.LastAttemptAfterTaken | server/routes.ts:88-101 | from attempt `k` on, the loop ends at an attempt below the bound whose proposal is free unless it is the last allowed, and every attempt from `k` up to that one found its proposal taken |
| Allocator.UniqueAfterCreate | server/routes.ts:94 | creating under a number no claim carries leaves the new claim the only holder |
| NotificationStore.TrimmedEmail | server/notification-store.ts:60 | a string entry becomes its trimmed text and `null` the empty string; the result is always trimmed |
| NotificationStore.NormalizeEmails | server/notification-store.ts:60 | a group's emails are the trimmed non-empty strings of the entries, and `[]` when the value is not an array |
| NotificationStore.NormalizeGroups | server/notification-store.ts:57-61 | a null entry makes normalisation throw; otherwise the groups are the mapped entries with a non-empty id and name, in order, and `[]` for a non-array |
| NotificationStore.WorkflowList | server/notification-store.ts:65-68 | a workflow list is the entries converted with `String`, one per entry, and `[]` when the value is not an array |
| NotificationStore.Normalize | server/notification-store.ts:56-72 | normalisation fails exactly when the group list does; otherwise every group is normalised and all four event lists are present |
| NotificationStore.Load | server/notification-store.ts:31-47 | an unreadable file or a failed normalisation gives no groups and four empty lists; otherwise the normalised settings |
| NotificationStore.Save | server/notification-store.ts:50-54 | what is written loads back as the normalised payload, and nothing is written when normalisation throws |
| NotificationStore.NormalizeIdempotent | server/notification-store.ts:56-72 | normalising the written form of normalised settings gives them back unchanged |
| NotificationStore.GroupsRoundTrip | server/notification-store.ts:57-61 | written normalised groups read back unchanged |
| NotificationStore.EmailsRoundTrip | server/notification-store.ts:60 | trimmed non-empty emails read back unchanged |
| NotificationStore.StringsRoundTrip | server/notification-store.ts:65-68 | a written list of ids reads back unchanged |
| NotificationStore.AddEmail | server/notification-store.ts:81-82 | adding to the insertion-ordered set keeps it duplicate-free and adds exactly the trimmed email when it is non-empty |
| NotificationStore.Collect | server/notification-store.ts:78-85 | the loop yields a duplicate-free list holding exactly the trimmed non-empty emails of the selected groups, besides what it started with |
| NotificationStore.RecipientsFor | server/notification-store.ts:74-87 | the recipients are duplicate-free and are exactly the trimmed non-empty emails of the groups whose id is listed for the event |
| NotificationStore.SelectedIds | server/notification-store.ts:76 | the selected set is exactly the ids listed for the event |
| Mailer.GetBool | server/mailer.ts:4-8 | a missing value gives the default; a present one is true iff its lower-cased form is `1`, `true` or `yes` |
| Mailer.GetBoolCaseInsensitive | server/mailer.ts:4-8 | a present value decides regardless of the default, and its case does not matter |
| Mailer.BuildTransport | server/mailer.ts:11-46 | Gmail OAuth2 iff the user and the three OAuth2 variables are set; otherwise SMTP with the configured host, the parsed non-zero port and the `SMTP_SECURE` flag; no transport iff neither applies |
| Mailer.SmtpPort | server/mailer.ts:13 | the port is the parsed `SMTP_PORT` when that is non-empty, and absent otherwise |
| Mailer.FallbackList | server/mailer.ts:81 | the event's variable when non-empty, else `MAIL_TO` when non-empty, else the empty string |
| Mailer.SplitList | server/mailer.ts:82-84 | the entries are trimmed and non-empty, and are exactly the non-empty trimmed comma-separated parts |
| Mailer.SplitListOfJoin | server/mailer.ts:82-85 | a list of clean addresses joined with commas splits back into the same list |
| Mailer.ResolveRecipients | server/mailer.ts:79-84 | a non-empty explicit list is used verbatim; otherwise the split environment list |
| Mailer.Send | server/mailer.ts:75-96 | mail is handed over iff a transport exists, `MAIL_FROM` is set and the joined recipients are non-empty; it goes from `MAIL_FROM` to the joined list, its subject is exactly the event's bilingual subject (`Subject`, the `【…】TCAR-<number> … / …` line of the mail builders) and so names the claim, and its text is the event's body lines (`BodyLines`) joined with newlines |
| Mailer.NoRecipientsNoMail | server/mailer.ts:79-86 | with no explicit recipients and no configured list, nothing is sent |
| Mailer.SubjectNamesClaim | server/mailer.ts:200-296 | every subject contains `TCAR-` followed by the claim's number |
| Mailer.SubjectsDistinguishEvents | server/mailer.ts:200-296 | different events give different subjects for the same claim |
| Mailer.DocumentLineIffUrl | server/mailer.ts:266-324 | the countermeasure and approval bodies have an English `Document:` line iff the claim's document link is non-empty, and it carries that link |
| Mailer.JpHasNoDocumentLine | server/mailer.ts:267-277 | no Japanese line of those bodies starts with `Document: ` |
| Mailer.EnDocumentLineOnlyLast | server/mailer.ts:278-290 | among the English lines only the last can start with `Document: ` |
| Auth.EmailCheckIsRegex | client/src/lib/auth.tsx:59 | the character-wise check (no whitespace, exactly one `@` with text before it, a later `.` with text on both sides) accepts exactly the strings the e-mail pattern matches |
| Auth.FindLogin | client/src/lib/auth.tsx:150-155 | the match is the first user with the name, the password and the role, and none iff no user has all three |
| Auth.Login | client/src/lib/auth.tsx:145-175 | login succeeds iff some user has the trimmed name, the trimmed password and the role, and otherwise fails with INVALID_CREDENTIALS |
| Auth.ValidateRegister | client/src/lib/auth.tsx:177-200 | the input checks fail in order with NAME_REQUIRED, EMAIL_REQUIRED, INVALID_EMAIL (on the lower-cased trimmed e-mail), PASSWORD_REQUIRED and PASSWORD_TOO_SHORT (under 6), each exactly when the earlier ones pass |
| Auth.Register | client/src/lib/auth.tsx:177-233 | an input error is reported first; then a taken name gives DUPLICATE_USER before a taken e-mail (ignoring case) gives DUPLICATE_EMAIL; success appends one user with the trimmed name and password, the role and the lower-cased trimmed e-mail; it succeeds iff the input is valid, the trimmed name is free and the lower-cased trimmed e-mail is free |
| Auth.RegisterKeepsUnique | client/src/lib/auth.tsx:204-225 | registration keeps names unique and lower-cased e-mails unique |
| Auth.ValidateUpdate | client/src/lib/auth.tsx:237-260 | each error code is returned exactly when the checks before it pass and its own fails: NAME_REQUIRED, EMAIL_REQUIRED, INVALID_EMAIL, then PASSWORD_REQUIRED for a supplied password that trims to empty and PASSWORD_TOO_SHORT for a supplied non-empty one under six characters; none when all pass |
| Auth.FindIndex | client/src/lib/auth.tsx:266 | the index is the first user with the id, and -1 iff there is none |
| Auth.UpdateUser | client/src/lib/auth.tsx:235-327 | an unknown id gives USER_NOT_FOUND, then duplicates among the other users are refused; success replaces only the target entry, keeps its id and position, keeps the old password when none is supplied and stores the trimmed one otherwise; it succeeds iff the input is valid, the id exists and neither the name nor the e-mail belongs to another user |
| Auth.RegisterAsWritten | client/src/lib/auth.tsx:204-230 | what the caller of `registerUser` receives when the duplicate checks throw inside the `setUsers` updater: the intended result, except that DUPLICATE_USER and DUPLICATE_EMAIL surface as UNKNOWN_ERROR |
| Auth.RegisterDuplicateHidden | client/src/lib/auth.tsx:204-230 | for valid input with a taken name or e-mail, the intended registration refuses with a duplicate error while the caller receives UNKNOWN_ERROR |
| Auth.RegisterTakenNameExample | client/src/lib/auth.tsx:204-230 | registering a second `alice` with a valid e-mail and password is DUPLICATE_USER as intended and UNKNOWN_ERROR as written |
| Auth.UpdateUserAsWritten | client/src/lib/auth.tsx:265-301 | what the caller of `updateUser` receives when the lookup and duplicate checks throw inside the `setUsers` updater: USER_NOT_FOUND, DUPLICATE_USER and DUPLICATE_EMAIL surface as UNKNOWN_ERROR |
| Auth.UpdateFailureHidden | client/src/lib/auth.tsx:265-301 | for valid input with an unknown id or a taken name or e-mail, the intended update refuses with the specific error while the caller receives UNKNOWN_ERROR |
| Auth.UpdateKeepsUnique | client/src/lib/auth.tsx:271-296 | updating keeps names unique and lower-cased e-mails unique |
| Auth.SessionAfterUpdate | client/src/lib/auth.tsx:303-322 | a session of the previous name and role follows the updated user; any other session is unchanged |
| Auth.CheckSession | client/src/lib/auth.tsx:336-348 | the session is kept iff some registered user has its name and role, and cleared otherwise |
| Auth.LoginSessionSurvives | client/src/lib/auth.tsx:145-175 | a session just created by login passes the session check |
| Auth.UpdatedSessionSurvives | client/src/lib/auth.tsx:303-348 | the session carried over by an update passes the check against the new list |
| Auth.InitialUsers | client/src/lib/auth.tsx:95-123 | nothing stored, a non-array or an empty array gives the default admin; otherwise one user per truthy entry, in order, each field the entry's string or, when missing or null, the fresh id, `""` or role `general` |
| Auth.TruthyEntries | client/src/lib/auth.tsx:112 | `filter(Boolean)`: the truthy entries, every one of them, in their original order |
| Auth.FieldOr | client/src/lib/auth.tsx:114-118 | a missing or null field gives the fallback, and a string field its value |
| Auth.AllFalsyListHasNoUsers | client/src/lib/auth.tsx:107-119 | a stored list whose only entry is `null` passes the emptiness check and yields no users at all |
| Auth.InitialSession | client/src/lib/auth.tsx:73-93 | no stored or a falsy stored session gives none; otherwise a session whose name, role and email are the stored strings, or `""`, `general` and `""` when missing or null |
| SettingsDefaults.PersonOf | client/src/lib/settingsDefaults.ts:23-40 | a non-blank string becomes a person with the trimmed name and no e-mail; an object becomes a person with trimmed fields when its trimmed name is non-blank; anything else is skipped |
| SettingsDefaults.ObjectPerson | client/src/lib/settingsDefaults.ts:35-40 | the person exists iff the name is non-empty, and a blank user id becomes absent |
| SettingsDefaults.SanitizePeople | client/src/lib/settingsDefaults.ts:19-44 | a non-array gives null; otherwise the result holds exactly the people the entries give, each with a trimmed non-empty name |
| SettingsDefaults.SanitizePeopleInOrder | client/src/lib/settingsDefaults.ts:23-43 | the people keep the order of the entries they come from |
| SettingsDefaults.PersonRoundTrip | client/src/lib/settingsDefaults.ts:31-40 | a clean person, stored and read back, is unchanged |
| SettingsDefaults.SanitizePeopleIdempotent | client/src/lib/settingsDefaults.ts:19-44 | sanitising a sanitised list, stored and read back, changes nothing |
| SettingsDefaults.StoredPeopleList | client/src/lib/settingsDefaults.ts:46-58 | nothing stored or unparseable text gives the fallback; a stored value is used when it sanitises to a non-empty list and the fallback otherwise |
| SettingsDefaults.StoredPeopleRoundTrip | client/src/lib/settingsDefaults.ts:46-58 | a stored non-empty clean list is read back as it is |
| SettingsDefaults.GroupOf | client/src/lib/settingsDefaults.ts:94-109 | a group exists iff the entry is an object with a non-blank trimmed name; non-array members become `[]`, array members are sanitised |
| SettingsDefaults.SanitizeGroups | client/src/lib/settingsDefaults.ts:90-113 | a non-array gives null; otherwise exactly the groups the entries give, each clean |
| SettingsDefaults.GroupRoundTrip | client/src/lib/settingsDefaults.ts:94-109 | a clean group, stored and read back, is unchanged |
| SettingsDefaults.SanitizeGroupsIdempotent | client/src/lib/settingsDefaults.ts:90-113 | sanitising sanitised groups, stored and read back, changes nothing |
| SettingsDefaults.LegacyGroups | client/src/lib/settingsDefaults.ts:132-135 | the legacy list gives one member-less group per non-blank string, named by the trimmed string; it equals the source's chain of mapping each entry to its trimmed text (or `""`), keeping the non-empty ones and wrapping each, so repeated names give repeated groups, in entry order |
| SettingsDefaults.LegacyPipeline | client/src/lib/settingsDefaults.ts:132-135 | keeping one group per entry, in order, is the map, filter, map chain of the source |
| SettingsDefaults.LegacyGroup | client/src/lib/settingsDefaults.ts:133-135 | one legacy entry gives a member-less group iff it is a non-blank string |
| SettingsDefaults.StoredFactoryGroups | client/src/lib/settingsDefaults.ts:115-145 | a stored array under the group key is sanitised and used, even when empty; other stored values give the defaults; without the key a legacy array is converted; otherwise the defaults |
| SettingsDefaults.LegacyIgnoredOnceStored | client/src/lib/settingsDefaults.ts:120-139 | once clean groups are stored under the group key, they are read back and the legacy list no longer matters |
| SettingsDefaults.StoredEmptyGroupsStayEmpty | client/src/lib/settingsDefaults.ts:112 | a stored empty array of groups reads as no groups, not as the defaults |
| SettingsDefaults.StoredSalesGroups | client/src/lib/settingsDefaults.ts:192-209 | a stored array is sanitised and used; anything else gives the defaults |
| NotificationSettings.WithList | client/src/pages/NotificationSettings.tsx:141-146 | the event's list is replaced and the other three events' lists stay |
| NotificationSettings.Toggle | client/src/pages/NotificationSettings.tsx:137-147 | a selected group is removed from the event's list everywhere it occurs, an unselected one is appended; other events are untouched |
| NotificationSettings.ToggleFlips | client/src/pages/NotificationSettings.tsx:137-147 | a toggle flips the toggled group's selection and keeps every other group's |
| NotificationSettings.ToggleTwice | client/src/pages/NotificationSettings.tsx:137-147 | toggling twice restores the selection, and restores the exact settings when the group started unselected |
| NotificationSettings.FilterAppendedAbsent | client/src/pages/NotificationSettings.tsx:144-145 | removing a just-appended group that was absent gives back the list |
| NotificationSettings.Selection | client/src/pages/NotificationSettings.tsx:169-176 | the "manual" choice means no user; any other choice is that user id |
| NotificationSettings.UserById | client/src/pages/NotificationSettings.tsx:71 | the user with the id, found iff some registered user has that id |
| NotificationSettings.ApplyUserSelection | client/src/pages/NotificationSettings.tsx:62-82 | with no selection or an unknown id the person keeps name and e-mail and loses the link; with a known id the person takes that user's name and e-mail and the id |
| NotificationSettings.LinkedPersonIsRegistered | client/src/pages/NotificationSettings.tsx:62-82 | a linked person always carries the name and e-mail of a registered user with that id |
| NotificationSettings.AddPerson | client/src/pages/NotificationSettings.tsx:149-151 | a blank unlinked person is appended and the others are unchanged |
| Seqs.RemoveAt | client/src/pages/NotificationSettings.tsx:153-155 | the entry at the index is dropped and the others keep their order; an index outside the list changes nothing |
| NotificationSettings.EditName | client/src/pages/NotificationSettings.tsx:157-161 | only the entry at the index changes: its name is set and its user link cleared |
| NotificationSettings.EditEmail | client/src/pages/NotificationSettings.tsx:163-167 | only the entry at the index changes: its e-mail is set and its user link cleared |
| NotificationSettings.SelectUser | client/src/pages/NotificationSettings.tsx:169-176 | only the entry at the index changes, to the result of applying the selection to it |
| NotificationSettings.ManualSelectionUnlinks | client/src/pages/NotificationSettings.tsx:169-176 | choosing "manual" keeps the typed name and e-mail and clears the link |
| NotificationSettings.AddGroup | client/src/pages/NotificationSettings.tsx:178-180 | an unnamed group without members is appended and the others are unchanged |
| NotificationSettings.RenameGroup | client/src/pages/NotificationSettings.tsx:186-190 | only the group at the index changes: its name, not its members |
| NotificationSettings.WithMembers | client/src/pages/NotificationSettings.tsx:192-197 | only the group at the index changes: its members, not its name |
| NotificationSettings.AddMember | client/src/pages/NotificationSettings.tsx:192-198 | a blank member is appended to one group; other groups are unchanged |
| NotificationSettings.EditMemberName | client/src/pages/NotificationSettings.tsx:200-206 | one member's name is set and its link cleared; the group name and other groups are unchanged |
| NotificationSettings.EditMemberEmail | client/src/pages/NotificationSettings.tsx:208-214 | one member's e-mail is set and its link cleared; the group name and other groups are unchanged |
| NotificationSettings.SelectMemberUser | client/src/pages/NotificationSettings.tsx:216-229 | one member takes the selection; the group name and other groups are unchanged |
| NotificationSettings.RemoveMember | client/src/pages/NotificationSettings.tsx:231-236 | exactly one member is dropped from one group; other groups are unchanged |
| NotificationSettings.RemoveMemberExact | client/src/pages/NotificationSettings.tsx:231-236 | re-inserting the removed member at its index restores the member list |
| NotificationSettings.CleanGroup | client/src/pages/NotificationSettings.tsx:300-303 | a mail group keeps its id and name and exactly its non-blank e-mails, untrimmed |
| NotificationSettings.CleanedEmailsSameOnServer | client/src/pages/NotificationSettings.tsx:300-303 | dropping blank e-mails on the page does not change the e-mails the server keeps |
| NotificationSettings.EmailsOfStrings | client/src/pages/NotificationSettings.tsx:300-303 | the server reads a list of e-mail strings as the trimmed non-empty ones, in order |
| NotificationSettings.TrimFilterBlank | client/src/pages/NotificationSettings.tsx:302 | trimming after dropping blanks equals trimming then dropping empties |
| NotificationSettings.SavePerson | client/src/pages/NotificationSettings.tsx:305-313 | name and e-mail are trimmed, and the user link is kept only when it is a non-empty string |
| NotificationSettings.SavePeople | client/src/pages/NotificationSettings.tsx:304-314 | exactly the cleaned people with a non-empty name are kept, never more than there were |
| NotificationSettings.SaveGroup | client/src/pages/NotificationSettings.tsx:316-331 | a group is saved with its trimmed name and its saved members |
| NotificationSettings.SaveGroups | client/src/pages/NotificationSettings.tsx:315-352 | exactly the saved groups with a non-empty name are kept |
| NotificationSettings.SavedPeopleClean | client/src/pages/NotificationSettings.tsx:304-314 | every saved person is one the loader accepts unchanged |
| NotificationSettings.SavedPeopleReload | client/src/pages/NotificationSettings.tsx:362 | the saved people list is read back as saved when non-empty, and as the fallback when empty |
| NotificationSettings.SavedGroupsReload | client/src/pages/NotificationSettings.tsx:363-365 | saved factory and sales groups are read back as saved, even when empty, whatever the legacy list holds |
| CustomerSettings.Load | client/src/pages/Settings.tsx:27-29 | nothing stored reads as the empty list, unparseable text is an error, and a loaded list is exactly the stored strings |
| CustomerSettings.AddCustomer | client/src/pages/Settings.tsx:37-39 | an empty name is appended and the others are unchanged |
| CustomerSettings.RemoveCustomer | client/src/pages/Settings.tsx:41-43 | exactly the entry at the index is dropped; an index outside the list changes nothing |
| CustomerSettings.UpdateCustomer | client/src/pages/Settings.tsx:45-49 | only the entry at the index changes, to the new value |
| CustomerSettings.SaveCustomers | client/src/pages/Settings.tsx:51-57 | the saved names are exactly the non-empty trimmed entries, each trimmed and non-empty |
| CustomerSettings.SaveKeepsOrder | client/src/pages/Settings.tsx:52 | the saved names keep the order of the entries they come from |
| CustomerSettings.SaveIdempotent | client/src/pages/Settings.tsx:51-57 | saving a saved list changes nothing |
| CustomerSettings.SaveThenLoad | client/src/pages/Settings.tsx:27-29 | the saved list is what the page loads next time |
| NewClaim.AddDcItem | client/src/components/NewClaimForm.tsx:87-92 | a row with no DC number and quantity 1 is appended; the other rows and fields are unchanged |
| NewClaim.RemoveDcItem | client/src/components/NewClaimForm.tsx:94-101 | with one row left nothing changes; otherwise exactly the row at the index is dropped; no other field changes |
| NewClaim.UpdateDc | client/src/components/NewClaimForm.tsx:103-107 | only the DC number of the row at the index changes |
| NewClaim.UpdateQuantity | client/src/components/NewClaimForm.tsx:103-107 | only the quantity of the row at the index changes |
| NewClaim.QuantityInput | client/src/components/NewClaimForm.tsx:253 | never zero: 1 when the text has no leading integer or it is zero, the parsed integer otherwise |
| NewClaim.QuantityInputPositive | client/src/components/NewClaimForm.tsx:253 | without a minus sign the quantity is at least 1 |
| NewClaim.QuantityInputKeepsNegative | client/src/components/NewClaimForm.tsx:251-253 | a negative typed quantity passes through the handler |
| NewClaim.ApplyEditKeepsInvariant | client/src/components/NewClaimForm.tsx:87-107 | each row edit keeps at least one row and no zero quantity |
| NewClaim.EditsKeepInvariant | client/src/components/NewClaimForm.tsx:87-107 | any sequence of row edits keeps at least one row and no zero quantity |
| NewClaim.DcItemsNeverEmpty | client/src/components/NewClaimForm.tsx:58-68 | starting from the initial form, the DC list is never empty |
| NewClaim.SubmitStep | client/src/components/NewClaimForm.tsx:73-85 | a click while a request runs does nothing; otherwise it starts one; the end of a request, even a failed one, clears the flag |
| NewClaim.AtMostOneInFlight | client/src/components/NewClaimForm.tsx:73-85 | at any point every started request but at most one has ended |
| NewClaim.CustomerOptions | client/src/components/NewClaimForm.tsx:50-57 | the stored list when it is a non-empty array, the defaults otherwise; never empty |
| NewClaim.SavedCustomersOffered | client/src/components/NewClaimForm.tsx:50-57 | names saved on the settings page are the options offered, unless none were saved |
| NewClaim.ReceivedDateReadsBack | client/src/pages/NewClaim.tsx:16 | the date splits at its dashes into the year, the month index plus one and the day, each padded to two digits |
| NewClaim.OrUndefined | client/src/pages/NewClaim.tsx:19 | an empty string becomes absent, anything else is kept |
| NewClaim.MakePayload | client/src/pages/NewClaim.tsx:18-29 | customer name, DC rows and defect name are passed through; empty optional fields become absent; no status is sent |
| NewClaim.DcItemsReadBack | client/src/pages/NewClaim.tsx:22 | valid DC rows, sent as JSON, are read back by the server as sent |
| NewClaim.DcItemsRejected | client/src/pages/NewClaim.tsx:22 | one row with quantity below 1 makes the server reject the rows |
| NewClaim.PutOptionalFields | client/src/pages/NewClaim.tsx:19-28 | an optional field reads back as sent and the other keys are unchanged |
| NewClaim.PayloadRequired | client/src/pages/NewClaim.tsx:20-26 | the required fields of the posted object hold the form's values |
| NewClaim.PayloadOptional | client/src/pages/NewClaim.tsx:19-28 | the optional fields of the posted object read back as the form's values, or are absent |
| NewClaim.PayloadOmits | client/src/pages/NewClaim.tsx:25 | status and the fields the form does not have are absent from the posted object |
| NewClaim.PayloadAccepted | client/src/pages/NewClaim.tsx:18-31 | the server accepts the posted object iff every DC row has quantity at least 1, and reads it back as sent |
| NewClaim.RegisteredClaimPending | client/src/pages/NewClaim.tsx:25 | a claim registered through the form is stored with status PENDING_ACCEPTANCE |
| Workflow.Accept | client/src/pages/ClaimAcceptance.tsx:77-96 | refused for missing assignees iff either option list is empty; refused for a missing selection iff both lists exist but a selection is empty; otherwise the body carries both assignees and PENDING_COUNTERMEASURE |
| Workflow.EnabledAcceptSends | client/src/pages/ClaimAcceptance.tsx:77-96 | with both lists configured, an enabled accept button always sends, and sending happens exactly when both selections are made |
| Workflow.AcceptApplied | client/src/pages/ClaimAcceptance.tsx:46-53 | the server stores both assignees and PENDING_COUNTERMEASURE and changes nothing else |
| Workflow.AcceptParsed | client/src/pages/ClaimAcceptance.tsx:48-52 | the server reads the acceptance body as a patch of the two assignees and the status |
| Workflow.SubmitCountermeasure | client/src/pages/ClaimCountermeasure.tsx:90-101 | refused iff the comment is empty; otherwise the body is the comment as remarks plus PENDING_COUNTERMEASURE |
| Workflow.EnabledSubmitSends | client/src/pages/ClaimCountermeasure.tsx:226-229 | an enabled submit button always sends, and sending happens exactly when the comment is non-empty |
| Workflow.CountermeasureApplied | client/src/pages/ClaimCountermeasure.tsx:30-36 | the server stores the comment as the remarks and PENDING_COUNTERMEASURE; a claim already in that status keeps it |
| Workflow.CountermeasureParsed | client/src/pages/ClaimCountermeasure.tsx:32-35 | the server reads the countermeasure body as a patch of remarks and status |
| Workflow.ApproveApplied | client/src/pages/TechnicalApproval.tsx:55-61 | approving stores COMPLETED and changes nothing else, from any status |
| Workflow.RequestChangesApplied | client/src/pages/TechnicalApproval.tsx:156-158 | requesting changes stores PENDING_COUNTERMEASURE and changes nothing else, from any status |
| Workflow.DetailStatusUpdate | client/src/pages/ClaimDetail.tsx:59-62 | the status-only body is accepted iff the status is a known one, and then changes only the status |
| Workflow.DetailActionsApplied | client/src/pages/ClaimDetail.tsx:81-87 | saving actions changes only the corrective and preventive texts |
| Workflow.InitForm | client/src/pages/TechnicalApproval.tsx:31-37 | the form takes the claim's defect name and count, and its remarks or "" when there are none |
| Workflow.DefectCountInput | client/src/pages/TechnicalApproval.tsx:122 | empty input is no count; any other input is its numeric value, which equals `parseInt` of the text (a minus sign negates the digits' value), not negative without a minus sign |
| Workflow.CountText | client/src/pages/TechnicalApproval.tsx:121 | the shown text is empty or an integer |
| Workflow.CountTextRoundTrip | client/src/pages/TechnicalApproval.tsx:121-122 | reading back the shown count gives the count |
| Workflow.SaveApplied | client/src/pages/TechnicalApproval.tsx:39-47 | saving stores the name and the remarks, the count only when one is entered, and never changes the status |
| Workflow.SaveWithCount | client/src/pages/TechnicalApproval.tsx:42-46 | with a count entered, the server stores name, count and remarks |
| Workflow.SaveParsedWithCount | client/src/pages/TechnicalApproval.tsx:42-46 | the server reads the save body with a count as a patch of the three fields |
| Workflow.SaveWithoutCount | client/src/pages/TechnicalApproval.tsx:42-46 | with the count emptied, the stored count is kept |
| Workflow.SaveUnchangedForm | client/src/pages/TechnicalApproval.tsx:31-47 | loading a claim into the form and saving it untouched changes nothing but missing remarks, stored as "" |
| ClaimViews.TruthyText | client/src/pages/ClaimsList.tsx:23 | a null or empty text becomes absent, anything else is kept |
| ClaimViews.TruthyCount | client/src/pages/ClaimsList.tsx:28 | a null or zero count becomes absent, anything else is kept |
| ClaimViews.FirstDc | client/src/pages/ClaimsList.tsx:26 | present iff there is a DC item, and then the first item's DC number |
| ClaimViews.ListRow | client/src/pages/ClaimsList.tsx:20-33 | the identifying fields are copied, the DC is the first item's, and falsy optional fields become absent |
| ClaimViews.QueueRow | client/src/pages/AcceptanceList.tsx:14-25 | a queue row is the list row without DC number and occurrence date |
| ClaimViews.AcceptanceQueue | client/src/pages/AcceptanceList.tsx:12 | exactly the claims with status PENDING_ACCEPTANCE |
| ClaimViews.CountermeasureQueue | client/src/pages/CountermeasureList.tsx:12 | exactly the claims with status PENDING_COUNTERMEASURE |
| ClaimViews.ApprovalQueue | client/src/pages/TechnicalApprovalList.tsx:13-15 | exactly the claims with status PENDING_COUNTERMEASURE and a non-empty document link |
| ClaimViews.QueueRows | client/src/pages/TechnicalApprovalList.tsx:17-28 | one row per queued claim, in the same order |
| ClaimViews.QueuesKeepOrder | client/src/pages/AcceptanceList.tsx:12 | each queue keeps the server's order of the claims |
| ClaimViews.QueuesDisjoint | client/src/pages/CountermeasureList.tsx:12 | no claim waits for acceptance and countermeasure at once; every claim awaiting approval awaits countermeasure; completed claims are in neither queue |
| ClaimViews.ApprovalWithinCountermeasure | client/src/pages/TechnicalApprovalList.tsx:13-15 | the approval queue is the countermeasure queue narrowed to claims with a document |
| ClaimViews.ListRoute | client/src/pages/ClaimsList.tsx:77-83 | PENDING_ACCEPTANCE opens the acceptance page, PENDING_COUNTERMEASURE the countermeasure page, anything else the detail page |
| ClaimViews.QueueRoutesAgree | client/src/pages/AcceptanceList.tsx:42 | a queued claim opens the same page from its queue and from the claims list; an approval-queue claim opens elsewhere from the list |
| ClaimViews.OpenRow | client/src/pages/ClaimsList.tsx:73-84 | a click opens the route of the first shown row with the id, and nothing when no shown row has it |
| ClaimViews.FilterRows | client/src/pages/ClaimsList.tsx:35-44 | exactly the rows matching the query and the status filter, in their original order |
| ClaimViews.ClaimsList | client/src/pages/ClaimsList.tsx:20-44 | every shown row comes from a claim, every claim whose row matches is shown, every shown row matches the query and the status filter, and the rows keep the order of the claims they come from |
| ClaimViews.EmptyQueryMatches | client/src/pages/ClaimsList.tsx:38-40 | the empty query occurs in every text |
| ClaimViews.NoFilterShowsAll | client/src/pages/ClaimsList.tsx:35-44 | with an empty query and the filter on 'all', every row is shown in order |
| ClaimViews.StatusFilterNarrows | client/src/pages/ClaimsList.tsx:42 | a one-status filter shows exactly the 'all' rows that have that status |
| ClaimViews.CreatedAtText | client/src/pages/ClaimDetail.tsx:17-22 | a date gives its ISO text, a string is kept, anything else gives the current time |
| ClaimViews.ToDetail | client/src/pages/ClaimDetail.tsx:12-45 | the detail copies every field, the DC is the first item's, and nullable fields keep their value |
| ClaimViews.ListRowFromDetail | client/src/pages/ClaimDetail.tsx:24-44 | the claims-list row is the detail with falsy values dropped |
| ClaimViews.ZeroCountOnlyInDetail | client/src/pages/ClaimDetail.tsx:32 | a defect count of zero shows in the detail but not in the list |
| Dashboard.PrevMonth | client/src/pages/Dashboard.tsx:17-21 | the previous month is a month index one month earlier and never the current month |
| Dashboard.Incomplete | client/src/pages/Dashboard.tsx:23 | exactly the claims whose status is not COMPLETED |
| Dashboard.BucketsPartition | client/src/pages/Dashboard.tsx:25-40 | each bucket holds exactly the open claims of its month range; the this-month and last-month buckets share no claim |
| Dashboard.BucketSizes | client/src/pages/Dashboard.tsx:25-40 | the three buckets together have as many claims as the open list |
| Dashboard.ThreeWaySplit | client/src/pages/Dashboard.tsx:25-40 | the three month tests split any list without loss or overlap |
| Dashboard.IssuedSplits | client/src/pages/Dashboard.tsx:52-77 | issued claims of a month are the in-progress ones plus the completed ones |
| Dashboard.DashboardCounts | client/src/pages/Dashboard.tsx:52-77 | both rows of counts: issued equals the bucket size plus the completed count, this month and last month |
| Dashboard.Insert | client/src/pages/Dashboard.tsx:42-50 | insertion adds exactly the one claim |
| Dashboard.InsertSorted | client/src/pages/Dashboard.tsx:42-50 | insertion into a sorted list keeps it sorted |
| Dashboard.SortByCreation | client/src/pages/Dashboard.tsx:42-50 | the result is a permutation of the input, sorted by creation time |
| Dashboard.SortedBuckets | client/src/pages/Dashboard.tsx:42-50 | every displayed bucket is a sorted permutation of its bucket |
| Dashboard.SortKeepsSorted | client/src/pages/Dashboard.tsx:42-50 | a bucket already in creation order is shown unchanged |
| Dashboard.InsertAtEnd | client/src/pages/Dashboard.tsx:42-50 | a claim created no earlier than the others goes last, after those with the same time |
| Numerals.ParseIntNonNegative | client/src/components/NewClaimForm.tsx:253 | `parseInt` of a text without a minus sign is never negative |
| Numerals.PaddedRoundTrip | server/routes.ts:82-85 | a zero-padded number is all digits and parses back to the number |
| Numerals.NatStringRoundTrip | server/routes.ts:82-85 | `String(n)` of a non-negative number parses back to it |
| Numerals.Pad4Order | server/routes.ts:85 | for sequence numbers up to 9999, string order of the four-digit rendering is numeric order |
| Text.TrimIdempotent | client/src/lib/settingsDefaults.ts:25 | trimming a trimmed string changes nothing |
| Text.ToLower | client/src/lib/auth.tsx:188 | lower-casing keeps the length and folds each character on its own |
| Text.Split | server/mailer.ts:82 | splitting gives at least one piece, and no piece holds the separator |
| Text.JoinSplit | server/mailer.ts:82 | joining the pieces of a split with the separator gives back the text |
| Text.SplitJoin | server/mailer.ts:82 | splitting a join of separator-free pieces gives back the pieces |
| Json.TrimmedStringOrEmpty | client/src/lib/settingsDefaults.ts:35 | a string is trimmed, anything else or nothing gives the empty string |
| Json.TrimmedStringOfTrimmed | client/src/lib/settingsDefaults.ts:35 | a trimmed string reads back as itself |
| Json.Strings | server/notification-store.ts:60 | a JSON array holding exactly the given strings, in order |

## Left out

- Network I/O: fetch calls, HTTP headers and status codes, the REST requests of `RestStorage` and the choice between the in-memory and REST backends (`server/storage.ts:122-147`, `server/storage.ts:205-248`, `server/storage.ts:294-309`) are not modelled; only the field mapping those requests carry is.
- `localStorage`, `JSON.parse` and reading settings files are parameters: the model takes the stored value as absent, unparseable or a parsed JSON value.
- Fresh UUIDs and the current time are parameters, because they come from the runtime.
- ISO date formatting: a timestamp is rendered by `Stamp`, the decimal text of its time, because `Date.prototype.toISOString` is calendar arithmetic outside the claims logic.
- Local calendar fields: an `Instant` carries its own local year and month, because time-zone conversion belongs to the runtime.
- `toLowerCase` is modelled on ASCII letters only, because full Unicode case mapping is a table outside the program.
- String lengths count characters, not UTF-16 code units, which matters only for text outside the Basic Multilingual Plane.
- Allocator.NextInNumberedStore: stated for stores whose latest sequence number is at most 9999. At 10000 the padded rendering grows to five digits, `…-9999` stays the lexicographically latest number, and `…-10000` would be proposed again and again; the source leaves this unhandled.
- Allocator.CreateKeepsNumbering: stated for the same bound, at most 9999, for the same reason.
- Auth.FieldOr: a stored field that is present but not a string (a number, say) is turned into its `String()` text, whereas the source keeps the raw value, so a later strict comparison with a typed name fails there; user fields are strings in this model, so only missing, null and string fields are promised to match the source.
- Auth.InitialUsers: inherits the FieldOr gap; a present non-string field of a stored user is promised nothing.
- Auth.InitialSession: inherits the FieldOr gap; a present non-string field of the stored session is promised nothing.
- Allocator.YearMonthDigits: stated for four-digit years only, because other years do not give a six-character prefix.
- Sending mail: the SMTP transport and `sendMail` are an abstract send event, and error logging is left out, because both are I/O.
- Database constraints other than the uniqueness of `tcar_no` are not modelled, because the REST backend's database schema is not part of this model.
- Rendering: JSX markup, toasts, navigation side effects and the translation tables are left out; only the values pages compute and the routes they open are modelled.
- The list editors take the row index the page rendered (`requires index < |list|`), because the handlers are only reachable from rendered rows.
- File uploads and the Google Drive integration are I/O and are left out; only the presence of a document link is used.
- Workflow.DefectCountInput: defined for the texts a number input yields as an integer (an optional minus sign and digits); fractions and exponents are not modelled, because numbers are integers here.
- React effects, state batching and query-cache invalidation are left out; each handler is the function from the state it reads to the state it sets.
- Auth.RegisterAsWritten: models React's eager path, where the `setUsers` updater runs at once and an error it throws is swallowed. When React queues the update instead, the updater has not run when `createdUser` is checked, so even a valid registration reports UNKNOWN_ERROR; that path is not modelled, because it depends on the scheduler's state.
- Auth.UpdateUserAsWritten: the same eager path only; the queued path, and the error React throws again when it replays the updater during the next render, are not modelled.
- The workflow-settings loader and the server-side reload of the notification settings page (`client/src/pages/NotificationSettings.tsx:84-135`) are left out; the server's own normalisation of the same data is modelled in `NotificationStore`.
- The PATCH route handler of `server/routes.ts` is not part of this model. Updates are modelled from `server/storage.ts` and the update schema.
- Dashboard.SortByCreation: sortedness and permutation are proved, and so is keeping an already sorted bucket unchanged; stability for equal creation times in general is not stated.
- The user lookups `getUserByUsername` and `createUser` of the storage layer are left out, because no page of the modelled core uses them.
- The login and user-administration pages are left out; the rules they rely on are modelled in `Auth`.

## Findings

`Auth.Register` and `Auth.UpdateUser` are the evidently intended behaviour and
the rest of the model uses them; the as-written members show what a caller of
the source receives.

| source | as written | input that shows it | evidently intended | confidence | as-written member | corrected member |
|---|---|---|---|---|---|---|
| client/src/lib/auth.tsx:204-230 | DUPLICATE_USER and DUPLICATE_EMAIL are thrown inside the `setUsers` updater; React swallows an error from an eagerly run updater, `createdUser` stays null and the caller receives UNKNOWN_ERROR | registering `alice` again (valid e-mail `c@d.ee`, password `secret2`) when a user `alice` exists | the caller receives DUPLICATE_USER (or DUPLICATE_EMAIL for a taken e-mail) | medium, not executed; relies on React's eager state-update path | Auth.RegisterAsWritten | Auth.Register |
| client/src/lib/auth.tsx:265-301 | USER_NOT_FOUND, DUPLICATE_USER and DUPLICATE_EMAIL are thrown inside the `setUsers` updater; the caller receives UNKNOWN_ERROR | updating a user whose id is not in the registry, with otherwise valid input | the caller receives USER_NOT_FOUND, DUPLICATE_USER or DUPLICATE_EMAIL | medium, not executed; relies on React's eager state-update path | Auth.UpdateUserAsWritten | Auth.UpdateUser |
