# A verified model of MoeURL

MoeURL is a URL shortener whose logic is mostly transactions on shared PostgreSQL rows, together with
hand-written scanners, normalizers and strict decoders. This project models that logic in Dafny 4.11 and
proves what it is for. `dafny verify dfyconfig.toml` checks everything.

Two styles are used. A service call that runs against shared rows is a state machine: one step per statement
or per locked section, row and advisory locks held until commit or rollback, other calls in between. The main
results are about every run of such a machine. The code that changes things step by step inside one call is a
method, usually of a class that holds the rows, proved against a specification function or a stated property;
the lemmas are about that specification.

The functions that steps and methods share are described once more by lemmas in the rows' own fields, in bytes, numbers
or literal text, mostly named `...Means`, so that no result rests on such a definition alone.

| file | what it models |
|---|---|
| `VisitClaims.dfy` | public redirects: the unlocked read, the locked re-check and the visit claim |
| `UnlockLimiter.dfy`, `LoginLimiter.dfy`, `FailureWindows.dfy` | the two failure limiters and their counting bounds |
| `Credentials.dfy`, `CredentialRuns.dfy` | `Login` and `ChangePassword` on one account row, and their calls as runs of the two protocols |
| `LoginPolicy.dfy` | settings and provider changes that keep some login method usable |
| `Paging.dfy`, `PagingRuns.dfy` | keyset paging over a log that grows and is trimmed, and its interleaving with the cleanup |
| `Cursors.dfy`, `Base64.dfy`, `Timestamps.dfy`, `Numerals.dfy`, `StrictJson.dfy` | the cursor codec and the strict object readers |
| `CursorWalks.dfy`, `Uuids.dfy` | paging with the cursor sent back and forth as text, and the numbers behind UUID texts |
| `Domains.dfy` | the domain registry under its advisory lock, and its rows' revisions |
| `Revisions.dfy` | revisions that advance under any clock, and the settings collection |
| `FooterUrl.dfy`, `FooterGrammar.dfy`, `FooterLinks.dfy` | the footer link normalizer, what it accepts and writes in the target's own text, and its compare-and-set update |
| `SurrogateScanners.dfy` | the three surrogate-escape scanners |
| `Permissions.dfy`, `Groups.dfy`, `AdminGroup.dfy` | the permission catalog, membership changes and their interleavings |
| `BulkCreate.dfy`, `BulkRuns.dfy` | bulk link creation and its exactly-once receipt |
| `Notes.dfy` | note preview, replacement and clearing |
| `Tags.dfy` | tag edits, renames and their batches |

What came out differently from what one might expect:

- A `Continue` on a password-protected link is not always atomic. The grant is checked after the deciding
  read, so a refusal for a missing grant can be an answer that no single instant of the call would give: the
  owner deletes an unlimited link between the two, or a link with a limit expires while its lock is held and
  its grant expires no earlier, yet before the five seconds of the claim are over.
  `VisitClaims.ContinueAtomicExactly` gives the exact condition on what the call reads; no target is ever handed
  out in that case, and every `Open` is atomic.
- Paging does not promise every record above the last request's retention cutoff. The cutoff is fixed when the
  request's transaction begins, the snapshot is taken with its first query, and a cleanup in between can take
  records that have expired by then. `PagingRuns.ShownExactlyUnlessExpired` gives the exact condition.
- Normalizing a footer URL twice changes nothing unless the first result is longer than 2048 bytes, which only an
  IPv6 host can cause, by one byte. `FooterUrl.NormalizeTwice` states both directions,
  `FooterUrl.GrowthHappens` shows that it happens, and
  `FooterLinks.NormalIsStored` carries them to the list, where the check after the write refuses such a list.
- The login limiter's bound of nineteen and the unlock limiter's bound of eight are both reached by some run.

## Model

| member | source | states |
|---|---|---|
| VisitClaims.OpenIsAtomic | internal/shortlink/redirect_service.go:93-143 | In every interleaving, the outcome of an `Open`, and whether it used up a visit, is that of one visit made at some instant between the call's start and its last statement, with a clock value from inside the call. |
| VisitClaims.ContinueIsAtomic | internal/shortlink/redirect_service.go:200-254 | The same for `Continue`, except for a refusal for want of a grant after a read that had admitted the visit and was vulnerable. |
| VisitClaims.AnsweredByItsLastStatement | internal/shortlink/visit_claim.go:21-86 | The recorded last statement, which bounds that instant, is the very step that answered the call. |
| VisitClaims.ContinueAtomicExactly | internal/shortlink/redirect_service.go:200-254 | For given rows, clock and request, every run that decides on them ends atomically if and only if the read is not vulnerable; for a limited link that means it expires no later than the grant, and the grant within the five seconds a claim may take. |
| VisitClaims.UnlimitedLinkDeletedMidway | internal/shortlink/redirect_service.go:237-253 | For every vulnerable read of an unlimited link there is a run that ends non-atomically: the owner deletes the link before the grant check. |
| VisitClaims.LimitedLinkExpiresMidway | internal/shortlink/visit_claim.go:12-72 | For every vulnerable read of a limited link there is a run that ends non-atomically: link and grant expire while the lock is held, before the claim is cancelled. |
| VisitClaims.QuotaHolds | internal/shortlink/visit_claim.go:21-86 | While the limit is not edited, the counter grows by exactly the number of committed claims and never beyond the limit; refused and rolled-back claims change nothing. |
| VisitClaims.TargetsStayWithinLimit | internal/shortlink/visit_claim.go:21-86 | While the limit is not edited, no more calls decided since then are answered with the target than the limit still allowed. |
| VisitClaims.StepCounts | queries/short_link.sql:50-58 | One step moves the counter by one exactly when it commits a claim. |
| VisitClaims.ClaimSucceeds | queries/short_link.sql:35-58 | The conditional claim never comes back empty, because the locked re-read saw room. |
| VisitClaims.CleanupIsInvisible | queries/short_link.sql:435-457 | Deleting expired grants never changes the answer of the grant query. |
| VisitClaims.GrantWasValid | queries/short_link.sql:448-457 | A grant found valid at the check was valid at the earlier deciding read. |
| VisitClaims.EveryRunOk | internal/shortlink/visit_claim.go:21-86 | The invariant behind the results above holds in every reachable run: consistent rows, one lock holder, and every call accounted for. |
| VisitClaims.RedirectStore.ClaimLimitedVisit | internal/shortlink/visit_claim.go:21-86 | The whole locked claim as one call: the outcome is the atomic visit at the clock it read, and the rows change only by the visit it hands out. |
| VisitClaims.ClaimIsARun | internal/shortlink/visit_claim.go:21-86 | A claim call that stays within its five seconds is a run of the protocol with the same answer and the same effect. |
| VisitClaims.VisitMeans | internal/shortlink/redirect_service.go:93-254 | Which answer a visit gives, if and only if, in the fields of link, domain and grant: the target only of a present, undeleted, active, unexpired link with visits left on an enabled and served short-link domain, which for an `Open` has no password and the direct mode, and for a `Continue` has a running grant no older than the password, or no password and a mode that needs the page; a refusal by the first condition that fails. |
| VisitClaims.VisitCosts | queries/short_link.sql:50-58 | A visit that hands out the target of a limited link uses up one visit; no visit changes anything else. |
| VisitClaims.OpenAnswersItsRow | internal/shortlink/redirect_service.go:93-143 | In every interleaving an `Open` ends with the answer its link and domain called for, in those fields, at some instant of the call. |
| VisitClaims.ContinueAnswersItsRow | internal/shortlink/redirect_service.go:200-254 | So does a `Continue`, except for the refusal after a vulnerable read. |
| VisitClaims.VulnerableMeans | internal/shortlink/redirect_service.go:237-253 | Vulnerable reads in the row's fields, with the five seconds as a number. |
| UnlockLimiter.AtMostEightWrongPasswords | internal/shortlink/redirect_service.go:321-347 | In every run, any fifteen-minute interval without a success or password edit holds at most eight counted wrong passwords, and the counter never exceeds five. |
| UnlockLimiter.EightWrongPasswordsHappen | internal/shortlink/redirect_service.go:525-540 | The bound is exact: some run counts eight within one interval. |
| UnlockLimiter.FirstFailureAfterBlock | internal/shortlink/redirect_service.go:525-540 | The first failure counted after a block opens a fresh window with count one. |
| UnlockLimiter.BlockOutlivesWindow | internal/shortlink/redirect_service.go:525-540 | When a full counter is no longer blocked, its window is over as well. |
| UnlockLimiter.ProtectedLink.Unlock | internal/shortlink/redirect_service.go:279-369 | Which of the six answers an unlock gives; a grant of 900 seconds exactly for a right password that is not blocked; it clears the counter; a compared wrong password advances the counter once; every other answer changes nothing. |
| UnlockLimiter.UnlockIsARun | internal/shortlink/redirect_service.go:279-369 | An unlock call is a run of the protocol with the same counter, and logs a failure exactly for a compared wrong password. |
| UnlockLimiter.NextFailureMeans | internal/shortlink/redirect_service.go:525-540 | In numbers: a failure within 900 seconds of the window's start counts on, the fifth blocks for 900 seconds, and a later one opens a new window. |
| FailureWindows.SpreadBoundsCount | internal/db/sqlc/auth.sql.go:253-275 | If every entry is a window later than the n-th before it, no interval one window long holds more than n entries. |
| LoginLimiter.AtMostNineteenFailures | queries/auth.sql:1-66 | In every run, stale-row cleanup included, any fifteen-minute interval without a success or password change holds at most nineteen recorded failures. |
| LoginLimiter.NineteenFailuresHappen | queries/auth.sql:24-46 | The bound is exact: some run records nineteen within one interval. |
| LoginLimiter.CommittedRow | queries/auth.sql:24-46 | Every committed row has at most ten failures, is blocked exactly at ten, and its block ends no earlier than its window. |
| LoginLimiter.FailureMeans | queries/auth.sql:24-46 | In numbers: a failure within 900 seconds of the window's start counts on, the tenth blocks for 900 seconds, and a later one opens a new window. |
| LoginLimiter.RecordingIsSpread | queries/auth.sql:24-46 | A failure about to be recorded is a window later than the nineteenth before it, whichever row the login holds. |
| LoginLimiter.LockOrCreateLoginAttempt | internal/auth/service.go:225-238 | However often others create and delete the row in between, the loop ends with the first round that finds a row or inserts its own, and locks that row. |
| Credentials.LivePasswordSessionsMatchStoredHash | internal/auth/password_service.go:79-141 | However logins and changes interleave, every live session made by a password login verifies against the hash stored now. |
| Credentials.OneChangePerSession | internal/auth/password_service.go:79-141 | Of any number of changes raced from one session at most one commits. |
| Credentials.RunKeepsConsistent | queries/auth.sql:82-125 | The lock invariant over runs: a login sees the stored hash until it commits, a change owns it until every session is revoked. |
| Credentials.Utf8LengthMeans | internal/auth/password_service.go:49-49 | The bytes of a text are those of its characters together, one to four each by their code. |
| Credentials.AcceptableMeans | internal/auth/password_service.go:49-49 | Accepted input: a current password of 1 to 4096 bytes and a different new one of 8 to 128 characters. |
| Credentials.AuthService.RecordFailure | queries/auth.sql:24-46 | Exactly one failure is recorded on the locked row, and the reply says whether it is blocked now. |
| Credentials.AuthService.Login | internal/auth/service.go:110-221 | Exactly when a login succeeds; it then adds one live session and drops the attempt row, otherwise no session changes, and exactly which refusals count as failures: a password that was compared and does not match a usable hash; a disabled account counts none. |
| Credentials.AuthService.ChangePassword | internal/auth/password_service.go:48-142 | Exactly when a change commits; it then stores the new hash, revokes every session of the account and drops its attempt row. Otherwise hash and sessions stay, and the attempt row changes only by one counted failure after a compared wrong password. |
| CredentialRuns.LoginIsARun | internal/auth/service.go:110-221 | What a `Login` call leaves in the rows is what one login transaction of the account's protocol leads to, and every other account's state stays; a refused call is the empty run. |
| CredentialRuns.ChangeIsARun | internal/auth/password_service.go:48-142 | The same for `ChangePassword` and one change transaction. |
| CredentialRuns.AttemptsAreARun | queries/auth.sql:1-66 | On the attempt rows either call is one transaction of the login limiter: it records one failure, ends in success, or leaves every row as it was. |
| LoginPolicy.SomeMethodAlwaysUsable | internal/loginpolicy/service.go:80-95 | Over every interleaving of settings updates and provider creations, updates and deletions, local login stays enabled or some enabled provider works. |
| LoginPolicy.StartupAlwaysAccepts | internal/loginpolicy/service.go:98-131 | If created providers work, every committed state also passes the startup check, which wants all enabled providers to work. |
| LoginPolicy.MethodsMean | internal/loginpolicy/service.go:98-141 | Both properties in the rows' fields: only providers that are enabled and not deleted count, and at startup every one of them has to work. |
| LoginPolicy.ChangedMeans | queries/oidc.sql:61-94 | When a provider update or deletion applies, and the row it leaves, field by field; a provider somebody is bound to keeps issuer and client. |
| LoginPolicy.CommitMeans | internal/loginpolicy/service.go:80-95 | A commit makes the setting public under a newer revision, or one provider row, and nothing else. |
| LoginPolicy.CreationIsHarmless | internal/oidc/provider_service.go:91-99 | Creation may skip the policy lock: adding a provider takes no usable method away. |
| LoginPolicy.AvailabilityIsEnough | internal/loginpolicy/service.go:89-95 | The availability check made under the lock is enough for both forms of the invariant. |
| LoginPolicy.InsertCommitKeeps | internal/oidc/provider_service.go:91-99 | A creation committed between another transaction's check and its commit does not spoil that check. |
| LoginPolicy.ProviderStore.RequireAvailableProvider | internal/loginpolicy/service.go:133-141 | True exactly when some provider is enabled and every enabled one passes. |
| LoginPolicy.ProviderStore.ChangeProvider | internal/oidc/provider_service.go:110-172 | A change is stored exactly when local login is on or the providers as written are available; otherwise the rows are as before. |
| LoginPolicy.ChangeIsARun | internal/oidc/provider_service.go:110-172 | A change is stored exactly when its transaction of the protocol can commit, and both leave the same rows; other transactions may be waiting. |
| Paging.PagesDescend | internal/insights/audit.go:21-48 | Whatever is inserted or deleted between requests, the pages together are strictly descending, so nothing is shown twice. |
| Paging.PagesAreComplete | queries/audit.sql:1-13 | When the last page says there is no more, every record that was listed by every request has been shown. |
| Paging.EligibleMeans | queries/audit.sql:1-13 | What a request may list, in fields: inside the half-open range and the retention cutoff, equal to every filter given, and older than the cursor, by id among equal times. |
| PagingRuns.UnexpiredRecordsAreShownOnce | internal/insights/service.go:31-78 | With transaction begin, snapshot, insert and cleanup as separate steps: every matching record of the first snapshot that has not expired at the last is shown exactly once. |
| PagingRuns.ExpiredBeforeTheSnapshot | queries/insights.sql:7-8 | For every record between the last cutoff and the expiry at the last snapshot, and every page size, there is a run in which a cleanup between begin and snapshot takes it and no page shows it. |
| PagingRuns.ShownExactlyUnlessExpired | internal/insights/audit_cleanup.go:14-28 | For a record matching at the last cutoff and any page size: every finished walk shows it exactly once if and only if it has not expired at the last snapshot. |
| PagingRuns.RunKeepsInv | queries/audit.sql:15-19 | The invariant over runs: a record of the first snapshot stays in every later table until it has expired there. |
| PagingRuns.ServeMeans | internal/insights/service.go:31-78 | A served request took less than five seconds, recorded the table as it was, and looked back 180 days from its own begin. |
| Paging.ExpirableMeans | queries/audit.sql:15-19 | A record may go only after 180 days, in microseconds, and only while nobody has locked it. |
| Paging.StaticPagesAreTheList | internal/insights/visits.go:45-60 | On a table that does not change the pages concatenate to the full sorted filtered list. |
| Paging.CursorStaysInRange | internal/insights/audit.go:21-46 | Every cursor handed out lies inside the requested range and not before the retention cutoff of the request that made it. |
| Paging.ListingIsUnique | queries/audit.sql:1-13 | Order, filter and limit determine the answer of the list query. |
| Paging.ListingExists | queries/audit.sql:1-13 | Every finite table has such an answer. |
| Paging.Audit | internal/insights/audit.go:31-46 | The page is the first rows of the list, there is more exactly if one row was left over, and the cursor is that of the last row shown. |
| Paging.AuditLog.DeleteExpired | queries/audit.sql:15-19 | Deletes only expired unlocked rows, oldest first, at most 500. |
| Paging.AuditLog.CleanupAudit | internal/insights/audit_cleanup.go:14-28 | At most four batches and two thousand rows, all of them expired; the cycle stops early only when no expired unlocked row is left. |
| Cursors.CursorRoundTrip | internal/insights/query.go:72-121 | Decoding an encoded cursor returns the same timestamp and identifier, for every stored time and every plain identifier the validator accepts. |
| Cursors.AuditCursorRoundTrip | internal/insights/audit.go:43-56 | This covers every audit id. |
| Cursors.VisitCursorRoundTrip | internal/insights/query.go:117-127 | This covers every visit id. |
| Cursors.DocumentMeans | internal/insights/query.go:117-121 | The bytes of a cursor's document, character by character around the two values. |
| Cursors.AuditIDsExactly | internal/insights/audit.go:53-56 | The validator accepts exactly the canonical decimals of positive 64-bit integers. |
| Cursors.DecodeKeysetCursor | internal/insights/query.go:72-115 | The decoder agrees with its layered specification: bounded, canonical base64, one object with exactly the two members, a time after the start of year 1 and a valid id. |
| Cursors.AcceptedCursorsAreCanonical | internal/insights/query.go:72-115 | A text is accepted as a cursor if and only if it is the canonical encoding, of at most 512 characters, of an object with exactly those two members, in either order, whose time parses and lies after the start of year 1 and whose id is valid; only the empty text is the first page. |
| Cursors.FieldsWhenComplete | internal/insights/query.go:88-111 | The member loop's verdict for two fields is one of two orders and nothing else. |
| CursorWalks.KeySurvives | internal/insights/query.go:72-121 | The cursor text of a storable row in the requested range is read back as that row's key, whichever stamp the time is written as. |
| CursorWalks.OutOfRangeIsRefused | internal/insights/visits.go:34-60 | The visit list refuses exactly the cursors whose time lies outside the requested range; the audit list refuses none of them. |
| CursorWalks.TextWalkIsWalk | internal/insights/audit.go:13-49 | A client that sends back the text it got is never refused, and its requests are a walk of `Paging`; the visit list's own range check on cursors is included. |
| CursorWalks.WalkTravelsAsText | internal/insights/visits.go:34-60 | Conversely every walk over storable rows is such an exchange of texts. |
| CursorWalks.AuditIdsAreSpelled | internal/insights/audit.go:43-56 | Every positive 64-bit audit id is written as a cursor id that is read back as itself. |
| CursorWalks.VisitIdsAreSpelled | internal/insights/query.go:123-127 | So is every visit id, whose number is that of its UUID. |
| Uuids.UuidOfNumber | internal/insights/query.go:123-127 | Every accepted UUID text is the canonical text of a positive 128-bit number. |
| Uuids.NumberOfUuid | internal/insights/query.go:123-127 | Every such number has an accepted text, which is read back as it. |
| Uuids.OrderOfUuids | queries/insights.sql:63-64 | Comparing the numbers is comparing the hexadecimal digits from the left. |
| CursorWalks.StampExists | internal/insights/query.go:117-121 | Every microsecond of the years 1 to 9999 but the very first has a UTC stamp that a cursor can carry. |
| Base64.AcceptsExactlyEncodings | internal/insights/query.go:79-82 | Decoding and comparing with the re-encoding accepts exactly the encodings, although the decoder itself skips line breaks. |
| Base64.DecodeOfEncode | internal/insights/query.go:120-120 | Every byte string is decoded from its encoding. |
| Base64.EncodeOfDecode | internal/insights/query.go:79-82 | Every accepted text is the encoding of what it decodes to. |
| Base64.SplitMeans | internal/insights/query.go:120-120 | Four sextets are the same twenty-four bits as the three bytes, most significant first. |
| Base64.CharMeans | internal/insights/query.go:120-120 | The URL-safe alphabet by character codes. |
| Timestamps.ParseOfFormat | internal/insights/query.go:61-64 | Every UTC time of the years 0 to 9999, to the nanosecond, is read back from its text. |
| Timestamps.FractionSurvives | internal/insights/query.go:111-111 | A fraction whose trailing zeros were dropped still denotes the same nanoseconds. |
| Timestamps.ParseHeadMeans | internal/insights/query.go:61-64 | Date and time are read if and only if each number stands in its place with its separators and within the calendar's and the clock's bounds. |
| Timestamps.FormatMeans | internal/insights/query.go:61-64 | A fraction, if any, comes between the seconds and the closing Z and does not end in a zero. |
| Timestamps.DaysFollow | internal/insights/query.go:111-111 | The same time of the next calendar day, over month and year ends and leap days, is exactly 24 hours later. |
| Timestamps.TimeOfDay | internal/insights/query.go:111-111 | Within a day, instants count hours, minutes, seconds and the zone's offset from midnight. |
| StrictJson.CollectFields | internal/system/footer_links_json.go:68-102 | Accepts exactly the member lists that have every allowed name once and no other, and returns their values. |
| StrictJson.DecodeNoteInput | internal/shortlink/note_handler.go:123-166 | The same for the three note members, which must also be strings without lone surrogates. |
| Domains.RegistryHolds | internal/domain/service.go:98-131 | In every interleaving of domain writes and link creations there is one default, enabled and mirrored, authorities are distinct, and no domain with links is deleted or re-addressed. |
| Domains.LinksGoWhereAllowed | internal/shortlink/service.go:133-150 | In every interleaving, a link about to be stored goes to a domain that is enabled, granted to its group and of the kind asked for at that very moment. |
| Domains.CreateMeans | internal/domain/service.go:98-131 | When a creation is refused and why, and the new row, grants and every other row field by field. |
| Domains.UpdateMeans | internal/domain/service.go:135-202 | The same for an update of the version named: the stored address, name, state and grants are the requested ones under a later revision, purpose, default flag, order and mode stay, and the mirrored setting follows a default. |
| Domains.SetDefaultMeans | internal/domain/service.go:205-257 | A switch makes the enabled domain the default, clears the others and mirrors its address; every other field stays. |
| Domains.DeleteMeans | internal/domain/service.go:269-319 | A deletion removes a domain that is not the default and has no link, with its grants, and nothing else. |
| Domains.ConfigurationMeans | internal/domain/order_service.go:82-110 | A configuration write replaces the sort order, or the redirect mode, of one row under a later revision, or leaves an equal row untouched. |
| Domains.FirstGuards | internal/domain/order_service.go:82-110 | Not found and version conflict, for all five later writes, in row fields. |
| Domains.GroupsMean | internal/domain/service.go:347-361 | The five group lists that are accepted. |
| Domains.CreateKeeps | internal/domain/service.go:98-131 | Creation keeps the registry's invariant and every link's domain and address. |
| Domains.UpdateKeeps | internal/domain/service.go:135-202 | So does an update. |
| Domains.SetDefaultKeeps | internal/domain/service.go:205-257 | So does a switch of the default, which makes the requested domain the default. |
| Domains.DeleteKeeps | internal/domain/service.go:269-319 | So does a deletion. |
| Domains.ConfigurationKeeps | internal/domain/order_service.go:82-110 | So does a change of order or of the default redirect mode. |
| Domains.RevisionsAdvance | queries/domain.sql:80-98 | Over every interleaving, a domain present at both ends is the identical row or has a strictly larger revision, whichever write touched it, a default switch of another domain included; equal revisions mean equal rows. |
| Domains.StaleWritesConflict | internal/domain/order_service.go:90-109 | A reorder, update, default switch, deletion or redirect default built on an earlier version conflicts if and only if that version has been replaced, even when it asks for what is stored. |
| Domains.GoneForGood | queries/domain.sql:100-102 | A deleted domain's id never comes back. |
| Domains.Registry.CheckAuthorityConflict | internal/domain/service.go:376-392 | Reports a conflict exactly when another domain has the same host or the same parseable authority. |
| Domains.Registry.ReplaceGrants | internal/domain/service.go:395-423 | The grants become the requested set, deleting only what is not asked for and inserting only what is missing. |
| Domains.Registry.Create | internal/domain/service.go:98-131 | The transaction's effect and error are those of the specified write. |
| Domains.Registry.Update | internal/domain/service.go:135-202 | The same for an update, checks in the code's order. |
| Domains.Registry.SetDefault | internal/domain/service.go:205-257 | The same for a switch of the default. |
| Domains.Registry.Delete | internal/domain/service.go:269-319 | The same for a deletion. |
| Domains.Registry.ApplyDomainOrder | internal/domain/order_service.go:82-110 | The same for a change of order; an equal order still needs the current revision. |
| Domains.Registry.ApplyDomainRedirectDefault | internal/domain/redirect_default_service.go:108-129 | The same for the default redirect mode. |
| Revisions.RevisionsOnlyAdvance | internal/system/footer_links_service.go:136-151 | Over any history and any clock, a later version has a newer revision or is the same version. |
| Revisions.AnswerMeans | internal/system/footer_links_service.go:128-151 | Which answer a command gets, in precedence, and the version it leaves: a changed one under a newer revision, otherwise the identical one. |
| Revisions.RevisionNamesOneContent | internal/system/footer_links_service.go:136-151 | A revision never names two contents. |
| Revisions.ChangesReplaceWhatTheirAuthorSaw | internal/system/footer_links_service.go:128-151 | A command conflicts exactly if the version it was built on is no longer stored; a change replaces just that version and gets a revision newer than all before. |
| Revisions.StaleNoOpConflicts | internal/system/footer_links_service.go:136-141 | A stale command conflicts even if it asks for the content already stored. |
| Revisions.UpdateIsOneCommand | internal/system/settings_service.go:93-131 | A settings update is one such command on the collection of the seven editable rows, and touches no other row. |
| Revisions.SettingsRevisionNamesOneContent | internal/system/settings_service.go:93-131 | Over any series of updates and any clock, one settings revision never names two collections of values. |
| Revisions.SettingsTable.UpdateSettings | internal/system/settings_service.go:86-139 | Every editable key is written with one new revision, or the table is unchanged; exactly when which. |
| FooterUrl.NormalizeTwice | internal/system/footer_links_url.go:14-88 | Normalizing a result again gives the same text if and only if the result has at most 2048 bytes, and is refused otherwise. |
| FooterUrl.ParseOfWrite | internal/system/footer_links_url.go:14-88 | Canonical parts written as text are read back as the same parts, exactly when the text is not too long. |
| FooterUrl.ParsedIsCanonical | internal/system/footer_links_url.go:30-88 | Whatever is accepted has canonical parts, and its path, query and fragment are the input's own bytes. |
| FooterUrl.GrowsByAtMostOne | internal/system/footer_links_url.go:39-87 | A domain name or IPv4 target never grows; an IPv6 target grows by at most one byte. |
| FooterUrl.OutgrowsTheLimit | internal/system/footer_links_url.go:39-87 | Every address whose canonical text is one longer takes a target of 2048 bytes to a normal form of 2049, which is refused. |
| FooterUrl.GrowthHappens | internal/system/footer_links_url.go:39-48 | Such a target exists, with the address 1::2:3:4:5:6:7. |
| FooterUrl.HostNameIsFixed | internal/system/footer_links_url.go:114-146 | A normalized host normalizes to itself and consists of lower-case letters, digits, dots and hyphens. |
| FooterUrl.FooterURLBytesValid | internal/system/footer_links_url.go:92-110 | The index-stepping check accepts exactly the texts all of whose bytes are allowed and all of whose escapes are complete and encode no control. |
| FooterUrl.FooterDNSOrIPv4 | internal/system/footer_links_url.go:114-146 | The label loop computes the host name of the specification, which `FooterGrammar.DomainMeans` describes place by place. |
| FooterUrl.SchemeBySeparator | internal/system/footer_links_url.go:22-29 | Searching for the first separator finds the same scheme as looking at the start of the text. |
| FooterUrl.SplitAuthority | internal/system/footer_links_url.go:38-67 | The branches over brackets and colons compute the specified host and port. |
| FooterUrl.NormalizeAuthority | internal/system/footer_links_url.go:35-87 | The port rules and the rewritten authority are those of the parsed parts, which `FooterGrammar.NormalizedMeans` gives in numbers and text. |
| FooterUrl.NormalizeFooterLinkURL | internal/system/footer_links_url.go:14-88 | The normalizer as written computes parsing followed by writing, which `FooterGrammar.NormalizedMeans` describes in the target's own text. |
| FooterGrammar.NormalizedMeans | internal/system/footer_links_url.go:14-88 | In the target's own text: a target becomes `u` if and only if, trimmed, it is valid text of at most 2048 bytes that reads scheme, `://`, host, port and suffix as described there, and `u` is the scheme in lower case, the canonical host, the port in decimal unless it is 80 for http or 443 for https, and the suffix as it was. |
| FooterGrammar.DomainMeans | internal/system/footer_links_url.go:114-146 | A domain is accepted if and only if it has 1 to 253 characters and every stretch between dots has 1 to 63 letters, digits and inner hyphens and is canonical if it starts with xn--, and the last one is neither decimal nor 0x and hexadecimal digits. |
| FooterGrammar.EscapeMeans | internal/system/footer_links_url.go:92-110 | An escape is valid if and only if its first digit is at least 2 and it is not 7F. |
| FooterGrammar.TrimMeans | internal/system/footer_links_url.go:18-18 | Trimming cuts white space off both ends and nothing else. |
| FooterLinks.NormalizeFooterLinks | internal/system/footer_links.go:83-103 | The result is the list's normal form, link by link and in order, and there is one exactly for at most five links that each have one. |
| FooterLinks.NormalMeans | internal/system/footer_links.go:83-103 | The normal form of a list in fields: at most five links, captions of 1 to 40 characters once trimmed, and each target normalized. |
| FooterLinks.NormalIsStored | internal/system/footer_links.go:64-79 | A normalized list is accepted as a stored one if and only if no target has outgrown 2048 bytes. |
| FooterLinks.FooterLinksTable.ApplyFooterLinks | internal/system/footer_links_service.go:119-152 | The update is one compare-and-set command of `Revisions`, whose new content is kept exactly if it can be read again; the table stays readable. |
| SurrogateScanners.FooterJSONScalars | internal/system/footer_links_json.go:117-152 | On JSON text the scanner stays in bounds and accepts exactly when decoding the escapes gives no lone surrogate; `LoneSurrogatesByBytes` says which bytes those are. |
| SurrogateScanners.ValidPasswordJSONUnicode | internal/auth/password_handler.go:93-131 | The same verdict on JSON text, and in bounds on any bytes. |
| SurrogateScanners.ValidNoteJSONString | internal/shortlink/note_handler.go:170-199 | The same verdict on a JSON string, so the three scanners agree; other values are refused. |
| SurrogateScanners.LoneSurrogatesByBytes | internal/system/footer_links_json.go:117-152 | That verdict in bytes: reading the strings of a JSON text, every escape whose digits begin D8 to DB is followed by one whose digits begin DC to DF, and no other escape begins DC to DF. |
| SurrogateScanners.OneEscape | internal/auth/password_handler.go:93-131 | A literal that is one escape, of any four digits, is refused if and only if they begin D8 to DF. |
| SurrogateScanners.HexDigitMeans | internal/shortlink/note_handler.go:170-199 | Twenty-two bytes are digits, and each has the value it is written for. |
| SurrogateScanners.HighUnitStep | internal/system/footer_links_json.go:144-150 | A high half leaves the verdict open exactly if an escaped low half follows at once. |
| SurrogateScanners.PairIsAccepted | internal/shortlink/note_handler.go:188-199 | A literal of any two escapes is accepted if and only if they begin D8 to DB and DC to DF, in this order, or neither begins D8 to DF. |
| Permissions.NormalizeForGroup | internal/permission/catalog.go:77-126 | Succeeds exactly for distinct listed keys that respect the group's protected ownership, and returns them in catalog order; otherwise the first bad key decides between unknown and repeated. |
| Permissions.ChosenHasTheSameKeys | internal/permission/catalog.go:119-125 | The normal form has exactly the chosen keys. |
| Permissions.ChosenInOrder | internal/permission/catalog.go:119-125 | The keys of the normal form come in the order of the catalog. |
| Permissions.ProtectedKeys | internal/permission/catalog.go:263-292 | The last nine keys of the catalog, and only those nine, are protected. |
| Permissions.CatalogHasDistinctKeys | internal/permission/catalog.go:263-292 | The catalog's twenty-six keys are distinct. |
| Groups.OutcomeIgnoresOrder | internal/user/batch_group_service.go:30-137 | Every permutation of the request's items gives the same error or counts. |
| Groups.VersionsIgnoreOrder | internal/user/batch_group_service.go:30-43 | Permuted items mean the same map of expected versions, or are refused alike. |
| Groups.UserTable.RefuseTargets | internal/user/batch_group_service.go:94-120 | The category passes decide by what holds of some target, in a fixed precedence, whatever the order of the rows. |
| Groups.MoveMeans | queries/user.sql:106-114 | What a move writes: a moved account is in the destination under a newer version and otherwise as it was, every other row is the identical one, and a session is live if and only if it was and its user has not moved. |
| Groups.TargetRefusalMeans | internal/user/batch_group_service.go:94-120 | The refusals in row fields and their precedence. |
| Groups.BatchReplyMeans | internal/user/batch_group_service.go:47-93 | Who may move accounts in a batch, and what each missing condition is answered. |
| Groups.BatchCounts | internal/user/batch_group_service.go:125-139 | The counts of a batch: the targets that were elsewhere, and together all of them. |
| Groups.BatchOutcomeMeans | internal/user/batch_group_service.go:22-46 | A batch of 1 to 100 well-formed items for different accounts, into one of the two groups, is answered by its map of versions; any other is invalid. |
| Groups.SingleReplyMeans | internal/user/group_service.go:37-96 | The reply of a single change in every case, in row fields. |
| Groups.UserTable.BatchChangeGroup | internal/user/batch_group_service.go:22-144 | Reply, users and sessions after a batch, for every order of the locked rows: all moved, with their sessions revoked and every other row the identical one, or nothing. |
| Groups.UserTable.MoveTargets | internal/user/batch_group_service.go:125-137 | Moves exactly the targets that are elsewhere, ends the live sessions of just those, keeps every other row, and counts both kinds. |
| Groups.UserTable.ChangeGroup | internal/user/group_service.go:18-101 | The same for a single change, with its own order of checks. |
| AdminGroup.AdminGroupNeverEmpties | internal/user/group_service.go:37-96 | No interleaving of single and batch changes, permission edits, account edits and sign-ups commits an empty admin group. |
| AdminGroup.CommitsAreAtomic | internal/user/batch_group_service.go:47-139 | At its commit a change would still pass every check it made when it took its locks, and moves only rows it locked, never its actor. |
| AdminGroup.RequestMeans | internal/user/batch_group_service.go:47-139 | The rows a request locks and shares, and the accounts its commit moves, in fields. |
| AdminGroup.ReplyReadsLockedRows | queries/user.sql:98-104 | A request's reply depends on no user row it does not lock. |
| AdminGroup.UsersNeverAdminister | internal/permission/catalog.go:105-110 | A storable permission set of the user group never grants administration. |
| BulkCreate.NormalizeBulkCreate | internal/shortlink/bulk_create_service.go:139-161 | Accepts exactly 1 to 20 bounded, printable and valid URLs without repetition, and the first bad one decides the error. |
| BulkCreate.GoodBatchMeans | internal/shortlink/bulk_create_service.go:139-161 | What is accepted, in numbers: 1 to 20 different URLs of 1 to 2048 characters from ! to ~. |
| BulkCreate.PickedAreFresh | internal/shortlink/bulk_create_service.go:96-122 | The slugs of one call are unused, unreserved and distinct. |
| BulkCreate.PickMeans | internal/shortlink/bulk_create_service.go:97-118 | Of at most eight candidates the first that is neither reserved nor taken is picked, and none if there is none. |
| BulkCreate.PickAllMeans | internal/shortlink/bulk_create_service.go:96-122 | Each target picks among its own candidates, avoiding the slugs of the targets before it. |
| BulkCreate.ReservedMeans | internal/shortlink/slug.go:15-67 | The twelve reserved slugs, in any letter case. |
| BulkCreate.AddMeans | internal/shortlink/bulk_create_service.go:96-122 | Each target has its link under its own slug, and every other link is the identical one. |
| BulkCreate.LinkStore.CreateOne | internal/shortlink/bulk_create_service.go:97-118 | Inserts under the first of eight attempts that is neither reserved nor taken, or nothing. |
| BulkCreate.LinkStore.CreateAll | internal/shortlink/bulk_create_service.go:96-122 | One link per target, in order, under the slugs so picked. |
| BulkCreate.LinkStore.BatchCreate | internal/shortlink/bulk_create_service.go:35-136 | The reply in every case; links and receipt are written together or not at all. |
| BulkRuns.ExactlyOnce | internal/shortlink/bulk_create_service.go:47-136 | From a store without bulk links, over every run of tries, races and rollbacks: a key without a receipt owns no link; a key with one owns exactly one link per URL of a batch it requested, in order, and the receipt is that of the batch. No link has a reserved slug. |
| BulkRuns.SuccessesAgree | internal/shortlink/bulk_create_service.go:73-82 | All success replies of one key report the same count, and only the first can be a creation. |
| BulkRuns.ReceiptIsFinal | queries/short_link_create_batch.sql:4-10 | Once a key has a receipt, neither it nor the key's set of links ever changes. |
| BulkRuns.OtherContentNeverWrites | internal/shortlink/bulk_create_service.go:77-79 | With a receipt in place, a request whose URLs have another digest is refused and writes nothing. |
| BulkRuns.SuccessReportsTheReceipt | internal/shortlink/bulk_create_service.go:80-81 | A success reply means the receipt is stored, and reports its count. |
| BulkRuns.FinishWritesItsBatch | internal/shortlink/bulk_create_service.go:123-130 | A commit gives its key exactly the links it inserted and their receipt; every other link and receipt stays as it was. |
| BulkRuns.InsertMeans | internal/shortlink/bulk_create_service.go:97-118 | A target draws at most eight slugs; a reserved or taken one counts as a try, and after eight the call gives up. |
| BulkRuns.CommitsWereRequested | internal/shortlink/bulk_create_service.go:96-130 | Every committed batch has the URLs of some request of its key. |
| BulkRuns.BatchIsARun | internal/shortlink/bulk_create_service.go:35-136 | One undisturbed bulk call, slug attempts included, is a run of the protocol that gives the same single answer and leaves the same rows. |
| Notes.NormalizeBatchNoteItems | internal/shortlink/batch_note_clear.go:61-90 | Accepts exactly 1 to 100 parsed items with distinct ids, and returns ids in order with the revisions given. |
| Notes.CommitMatchesPreview | internal/shortlink/batch_note_replace_service.go:111-162 | If a write that presents a preview's revisions commits, it changes exactly the links the preview announced, whatever happened in between. |
| Notes.CommitsUnlessRevised | internal/shortlink/batch_note_clear_service.go:107-119 | It commits if and only if every link is still visible and neither of its revisions has moved. |
| Notes.NotesAdvance | queries/short_link_note.sql:23-26 | Over every run a note's revision only advances, and while it stands still so does the note. |
| Notes.RepeatedWriteConflicts | internal/shortlink/batch_note_replace_service.go:119-137 | Repeating a write that changed a note conflicts. |
| Notes.WriteStores | queries/short_link_note.sql:23-26 | What a write leaves, row by row: every link asked for has the note, under a strictly newer note revision if its note differed and otherwise as the identical row; owner, link revision and deletion stay; every other row is the identical one. The empty note clears. |
| Notes.StepMeans | internal/shortlink/batch_note_replace_service.go:111-137 | The same for each action of a run: a batch, a single edit, other link edits and creations. |
| Notes.ReplyMeans | internal/shortlink/batch_note_replace_service.go:111-137 | Missing, conflict and the two counts, in row fields. |
| Notes.NoteTable.CheckLinks | internal/shortlink/batch_note_replace_service.go:111-124 | Missing or foreign links are refused before any stale one, for every order of the rows. |
| Notes.NoteTable.BatchNotes | internal/shortlink/batch_note_replace_service.go:94-137 | The whole batch is stored, row by row as in `WriteStores`, and counted, or nothing is. |
| Notes.NoteTable.PreviewNotes | internal/shortlink/batch_note_replace_service.go:138-152 | The preview gives both revisions of every link in request order, and the counts the write would have now. |
| Tags.ApplyBatchTags | internal/shortlink/batch_tags_service.go:162-182 | The loops compute the specified removal, addition or replacement. |
| Tags.RenameBatchTag | internal/shortlink/batch_tag_rename.go:59-70 | The loop computes the specified rename. |
| Tags.EditedIsDistinct | internal/shortlink/batch_tags_service.go:162-182 | Every edit keeps a list free of duplicates, and removing and renaming never make it longer. |
| Tags.AddIsIdempotent | internal/shortlink/batch_tags_service.go:175-181 | Adding the same tags again changes nothing. |
| Tags.RemoveAfterAdd | internal/shortlink/batch_tags_service.go:166-181 | Removing what was added erases exactly the given tags. |
| Tags.RemovedKeepsOrder | internal/shortlink/batch_tags_service.go:167-174 | Survivors of a removal keep their order, and no order appears that was not there. |
| Tags.AddedKeepsThePrefix | internal/shortlink/batch_tags_service.go:175-181 | Addition leaves the old list as a prefix. |
| Tags.AddedInOrder | internal/shortlink/batch_tags_service.go:175-181 | New tags follow in the order they were given. |
| Tags.RenamedHas | internal/shortlink/batch_tag_rename.go:59-70 | Exactly which tags a renamed list has. |
| Tags.RenamedKeepsOrder | internal/shortlink/batch_tag_rename.go:59-70 | Tags that are not renamed keep their order. |
| Tags.RenameBack | internal/shortlink/batch_tag_rename.go:59-70 | Renaming to a fresh tag and back is the identity. |
| Tags.TagTable.BatchTags | internal/shortlink/batch_tags_service.go:97-127 | The first refusal in row order decides and nothing is written, or every link is updated and changed and same add up to all. |
| Tags.NobodyRefused | internal/shortlink/batch_tag_rename_service.go:81-90 | The batch goes ahead exactly if no single link is refused. |
| Tags.LinkRefusalMeans | internal/shortlink/batch_tags_service.go:97-115 | Whose link, which version, and more than ten tags: which refusal one link meets, in its fields. |
| Tags.EditMeans | internal/shortlink/batch_tags_service.go:116-127 | What a committed batch writes: the edited list under a newer revision where it differs, and every other field and row as it was. |
| Tags.ChangesMean | internal/shortlink/batch_tags_service.go:116-127 | The number changed is that of the links whose list an edit changes. |
| Tags.BatchKeepsListsValid | internal/shortlink/batch_tags_service.go:104-127 | A committed batch keeps every list free of duplicates and within ten tags. |

## Left out

- HTTP handlers, routing, cookies, response envelopes, logging and the web front end: plumbing around the calls modelled here.
- Argon2, AES-GCM, SHA-256, token generation and OIDC verification: opaque functions or parameters; generated tokens and session ids are assumed fresh.
- IDNA, IPv4 and IPv6 parsing and the platform's URL parser: fields of `FooterUrl.Net`, used through the laws stated there.
- The JSON tokenizer, and validity of JSON and UTF-8: the parameters `reader`, `members`, `utf8Valid` and `jsonValid`; strings are sequences of Unicode scalars.
- The encoding of a footer list as stored JSON: the row holds the decoded list, whose writing and reading back is library behaviour.
- PostgreSQL beyond locks, conditional statements and reads per statement: no planner, no deadlock detection; several row locks of one statement are taken together.
- Timeouts, cancellation and infrastructure errors: they appear only as rollbacks, except for the five seconds of a visit claim and of a paging request. Those are measured on the database clock, which is assumed not to advance faster than the application's own while such a call runs.
- Audit rows written by triggers, event recording and analytics: they do not affect the outcomes modelled.
- Permission checks before domain, note, tag and bulk writes: the outcome is a parameter or the calls modelled are the permitted ones; membership changes model theirs.
- The preview endpoint of public redirects, administrator password reset, appearance, home content and account preferences: the same shapes again.
- Trimming and length rules of tags, notes and settings (`normalizeTags`, `normalizeNote`, `normalizeSettingsInput`): checks on one value each.
- Date ranges, page size defaults, CSV exports and permission snapshots: easy members.
- Account deletion: the application has no statement that deletes an account, so no step does.
- Notes.CommitMatchesPreview: each batch is one step, because it holds its row locks from its first read to its end; the interleavings are those of other writers between steps.
- BulkRuns.ExactlyOnce: a link's later edits and soft deletion are not steps; the row, its slug and its origin stay.
- Domains.RegistryHolds: preferences and group defaults that point at a deleted domain are not modelled.
- LoginPolicy.SomeMethodAlwaysUsable: the runtime validator is a predicate on single providers.
- Timestamps.ParseOfFormat: covers times in UTC, which is all the encoder writes; offsets are read but not written.
- CursorWalks.TextWalkIsWalk: the requested range is the same for every page.
- CredentialRuns.LoginIsARun: the calls of a class come one at a time, here and in the other lemmas that make a call a run; what interleaves is the protocols' steps.
- Credentials.AuthService.Login: verification slots are taken or not, as a parameter; waiting for them is not modelled.
