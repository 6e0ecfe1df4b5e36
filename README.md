# say-app core in Dafny

A model of the sequential logic of say-app, a small web app where a user claims
a public handle (slug) and receives anonymous messages ("confessions") in a
private inbox that tracks unread messages. The auth provider and the datastore
are replaced by in-memory state and by inputs that stand for their answers:

- `Base` — the JavaScript built-ins the core uses: `toLowerCase` on ASCII
  letters, `trim` with the full ECMAScript whitespace set, and the decimal
  rendering of a count with its parse-back round trip.
- `Store` — the `profiles` table (primary key `id`, unique `slug`) as class
  `ProfileTable`, and the `confessions` table as class `ConfessionTable`. The
  queries the core issues are functions over the rows: one profile's rows,
  its unread count, the batched mark-read update, and newest-first order.
- `Setup` (`app/auth/setup/page.tsx`) — the base slug pipeline, the probe loop
  that picks the first free candidate (`base`, `base-1`, `base-2`, ...), and
  the submission that inserts the profile row and picks the message or the
  navigation. `Submit` is the submission as a function; the page's
  `HandleSubmit` is proved equal to it.
- `Confirm` (`app/auth/confirm/route.ts`) — the `GET` handler. It takes the
  provider's `verifyOtp` and the profile lookup as function parameters and
  records the calls it makes.
- `Navbar` (`src/components/BottomNavbar.tsx`) — the unread counter and the
  "new" flag as class `UnreadTracker`, with bootstrap, live insert and drain.
  It also has the badge label and the active-tab flags.
- `Inbox` (`app/inbox/page.tsx`) — the page state as class `InboxPage`: fetch,
  mark read, refresh and the live insert handler. It also has the count label.
- `AuthActions` (`src/actions/auth.ts`) — `signUp`: email normalisation, the
  site URL and its fallback, the redirect target, and the error mapping.

Behaviour of the code worth knowing:

- The code does not look for an existing profile before inserting. A second
  submission for the same account hits the primary key and gets the unique
  violation message.
- The code does not retry after a conflict. The message is shown once.
- The code drops only one trailing `/` from the site URL.
- The slug retry candidate is modelled as `base-i`, the evident intent of
  `app/auth/setup/page.tsx:48`. The text as it stands is logged under
  Findings.

## Model

| member | source | states |
|---|---|---|
| `Base.ToLower` | app/auth/setup/page.tsx:34 | the result has the input's length, no upper-case ASCII letter, and each character lowered in place |
| `Base.Trim` | src/actions/auth.ts:16 | the trimmed text is no longer than the input and neither starts nor ends with a JavaScript whitespace character |
| `Base.TrimIsInfix` | src/actions/auth.ts:16 | the trimmed text is the infix of the input left after cutting off a prefix and a suffix made only of JavaScript whitespace |
| `Base.NatToString` | src/components/BottomNavbar.tsx:124 | the rendering of a count is a non-empty string of decimal digits, one digit exactly below 10, with no leading `0` except for 0 itself |
| `Base.DecimalRoundTrip` | src/components/BottomNavbar.tsx:124 | reading the decimal rendering of a count back gives the count |
| `Store.ProfileTable.FindBySlug` | app/auth/setup/page.tsx:40-44 | a row comes back exactly when some profile has that slug, and it is that profile's id |
| `Store.InsertError` | app/auth/setup/page.tsx:52-59 | the insert succeeds iff there is no datastore fault and neither the id nor the slug is taken; without a fault any refusal is code 23505 |
| `Store.AppendKeepsUnique` | app/auth/setup/page.tsx:52-59 | appending a row whose id and slug are both new keeps ids and slugs unique |
| `Store.ProfileTable.Insert` | app/auth/setup/page.tsx:52-59 | the row is appended exactly when no error comes back; id and slug stay unique |
| `Store.OfProfile` | app/inbox/page.tsx:31-34 | every row returned belongs to the profile, and each of the profile's rows is returned as often as it is stored |
| `Store.UnreadCount` | src/components/BottomNavbar.tsx:24-28 | the count is positive iff the profile has an unread row |
| `Store.UnreadCountAppend` | src/components/BottomNavbar.tsx:51-53 | a new row raises the profile's unread count by exactly one if it is an unread row of that profile, else by nothing |
| `Store.MarkRead` | src/components/BottomNavbar.tsx:70-74 | exactly the profile's unread rows become read; rows of other profiles and rows already read are unchanged |
| `Store.MarkReadDrains` | src/components/BottomNavbar.tsx:66-74 | after the update the profile has no unread row |
| `Store.MarkReadKeepsOthers` | app/inbox/page.tsx:43-47 | the update leaves every other profile's unread count as it was |
| `Store.InsertByTime` | app/inbox/page.tsx:35 | inserting into a newest-first list keeps it newest first and adds exactly that row |
| `Store.NewestFirst` | app/inbox/page.tsx:35 | the result is ordered by `created_at` descending and is a permutation of the input |
| `Store.SomeUnreadIffCount` | app/inbox/page.tsx:42 | some fetched row is unread iff the profile's unread count is positive |
| `Store.ConfessionTable.CountUnread` | src/components/BottomNavbar.tsx:24-28 | a failed query gives null; otherwise the count of the profile's unread rows |
| `Store.ConfessionTable.SelectNewestFirst` | app/inbox/page.tsx:31-35 | a failed query gives null; otherwise exactly the profile's rows, newest first |
| `Store.ConfessionTable.MarkAllRead` | app/inbox/page.tsx:43-47 | the table becomes the mark-read update of its old rows |
| `Setup.CollapseRuns` | app/auth/setup/page.tsx:34 | the result is empty iff the input is, and starts with `-` iff the input starts with a character outside `[a-z0-9]` |
| `Setup.CollapseRunsShape` | app/auth/setup/page.tsx:34 | the collapsed text is over `[a-z0-9-]` with no `--` |
| `Setup.CollapseRunsSplit` | app/auth/setup/page.tsx:34 | each maximal run of characters outside `[a-z0-9]` becomes exactly one `-` in its place: collapsing `a`, the run, `b` gives collapse of `a`, `-`, collapse of `b` |
| `Setup.CollapseKeepsAlnum` | app/auth/setup/page.tsx:34 | collapsing keeps the letters and digits, in order |
| `Setup.CollapseFixesCollapsed` | app/auth/setup/page.tsx:34 | text over `[a-z0-9-]` without `--` is left unchanged |
| `Setup.StripEdgeDashes` | app/auth/setup/page.tsx:34 | the input is the result with one `-` put back in front exactly when the input starts with `-`, and one `-` put back at the end exactly when what remains ends with `-`; text without edge dashes is unchanged |
| `Setup.StripEdgeDashesKeepsAlnum` | app/auth/setup/page.tsx:34 | stripping the edge dashes keeps the letters and digits, in order |
| `Setup.StripEdgeDashesGivesBaseSlug` | app/auth/setup/page.tsx:34 | collapsed text (over `[a-z0-9-]`, no `--`) with its edge dashes stripped is empty or a base slug |
| `Setup.TrimKeepsAlnum` | app/auth/setup/page.tsx:34 | trimming keeps the letters and digits |
| `Setup.Normalize` | app/auth/setup/page.tsx:34 | the result is empty or a base slug, and holds exactly the letters and digits of the lower-cased username |
| `Setup.BaseSlug` | app/auth/setup/page.tsx:34-35 | always a base slug (non-empty, `[a-z0-9-]`, no `--`, no `-` at either end); `user` if the username has no ASCII letter or digit; otherwise its letters and digits are the username's |
| `Setup.BaseSlugFixesBaseSlug` | app/auth/setup/page.tsx:34-35 | normalising a base slug returns it unchanged |
| `Setup.BaseSlugIdempotent` | app/auth/setup/page.tsx:34-35 | normalising twice gives the same slug as normalising once |
| `Setup.Candidate` | app/auth/setup/page.tsx:37-48 | candidate 0 is the base; candidate i > 0 is the base, a `-`, then i in decimal |
| `Setup.CandidatesDistinct` | app/auth/setup/page.tsx:47-48 | different retry counters give different candidates |
| `Setup.CandidateIsBaseSlug` | app/auth/setup/page.tsx:48 | every candidate of a base slug is itself a base slug |
| `Setup.TakenCandidatesBound` | app/auth/setup/page.tsx:39-49 | n taken candidates need at least n taken slugs, so the loop ends |
| `Setup.FirstFree` | app/auth/setup/page.tsx:37-49 | the first candidate index whose slug is free; every earlier one is taken |
| `Setup.AllocateSlug` | app/auth/setup/page.tsx:37-49 | the loop returns the index `i` of the first free candidate and that candidate: not in the table, with every earlier candidate taken; it writes nothing |
| `Setup.CandidateAsWritten` | app/auth/setup/page.tsx:48 | as written, every retry candidate is the same literal text |
| `Setup.LiteralRetryNeverFrees` | app/auth/setup/page.tsx:39-49 | with `user` and the literal text taken, every candidate as written is taken; the intended loop stops at `user-1` |
| `Setup.Shown` | app/auth/setup/page.tsx:71-72 | the shown message is the thrown message when it has one, and "Something went wrong" otherwise |
| `Setup.Submit` | app/auth/setup/page.tsx:16-76 | either the row (user id, email, username as typed, and the first free candidate of the username's base slug, which is a base slug no profile holds) is appended and `/dashboard` is pushed with no message, which happens only when nothing failed and the insert reported no fault; or nothing is written or pushed and a message is shown |
| `Setup.SubmitAbortsBeforeInsert` | app/auth/setup/page.tsx:23-31 | a metadata error or a missing user stops before any insert and shows that error's message, or `No user` |
| `Setup.SubmitConflictIffProfileExists` | app/auth/setup/page.tsx:61-63 | without a fault, "Username or slug already taken" is shown iff the user already has a profile; otherwise the page goes to `/dashboard` |
| `Setup.SubmitOtherInsertError` | app/auth/setup/page.tsx:60-72 | a failed insert writes and pushes nothing; a 23505 shows "Username or slug already taken", any other error its message or "Something went wrong" |
| `Setup.SubmitKeepsKeysUnique` | app/auth/setup/page.tsx:52-59 | after a submission the profiles table still has unique ids and slugs |
| `Setup.SetupPage.constructor` | app/auth/setup/page.tsx:12-13 | no message, not loading, nothing pushed |
| `Setup.SetupPage.HandleSubmit` | app/auth/setup/page.tsx:16-76 | the page's message, pushed navigation and table are those of `Submit`; `loading` is false on every path |
| `Confirm.QueryParam` | app/auth/confirm/route.ts:6-8 | absent iff no pair has the name; otherwise the value of the first pair with it |
| `Confirm.Get` | app/auth/confirm/route.ts:5-60 | exactly one of four targets. A missing or empty parameter gives `invalid_link` and no call. A failed verification or no user gives `auth_failed`. Otherwise the verified user's id is looked up, and the target is `/auth/setup` iff no row comes back (a lookup error included), else `/dashboard` |
| `Navbar.ActiveTabs` | src/components/BottomNavbar.tsx:17-19 | each tab is active iff the pathname is exactly its path; no two are active at once |
| `Navbar.BadgeLabel` | src/components/BottomNavbar.tsx:118-124 | hidden iff the count is 0; `99+` iff above 99; otherwise decimal digits with no leading zero that read back as the count |
| `Navbar.UnreadTracker.constructor` | src/components/BottomNavbar.tsx:13-14 | the counter starts at 0 and the flag starts down |
| `Navbar.UnreadTracker.Bootstrap` | src/components/BottomNavbar.tsx:22-35 | with a profile id: the counter becomes the unread count, or 0 on a null count, and the flag is up iff the counter is positive; without one: nothing changes |
| `Navbar.UnreadTracker.OnInsert` | src/components/BottomNavbar.tsx:38-56 | an event for the profile adds exactly one and raises the flag; no subscription without a profile id |
| `Navbar.UnreadTracker.OnPathname` | src/components/BottomNavbar.tsx:65-77 | on `/inbox` with a positive counter: counter 0, flag down, profile's unread rows marked read; otherwise no change and no update |
| `Navbar.UnreadTracker.Badge` | src/components/BottomNavbar.tsx:79-126 | the badge shows iff the counter is positive |
| `Navbar.BootstrapThenInsert` | src/components/BottomNavbar.tsx:22-56 | bootstrap then a live insert of an unread row of the profile leaves the counter at the unread count of the table with that row appended, and the badge shown |
| `Navbar.BootstrapThenVisitInbox` | src/components/BottomNavbar.tsx:22-77 | bootstrap then an inbox visit leaves the counter at 0, every row of the profile read, and other profiles' unread counts as they were |
| `Inbox.CountLabel` | app/inbox/page.tsx:109 | the count in decimal (no leading zero except for 0 itself), a space, then `message` for exactly one and `messages` otherwise |
| `Inbox.LiveInsertAsWritten` | app/inbox/page.tsx:64-69 | as written the handler throws, so the list is unchanged |
| `Inbox.LiveInsert` | app/inbox/page.tsx:64-69 | a row for the signed-in user goes to index 0 and the rest keep their order; any other row is ignored |
| `Inbox.LiveInsertAsWrittenLosesRow` | app/inbox/page.tsx:65-67 | from an empty inbox, the written handler shows nothing where the intended one shows the user's new row |
| `Inbox.LiveInsertKeepsOrder` | app/inbox/page.tsx:35-67 | a row newer than every entry keeps the list newest first when put in front |
| `Inbox.InboxPage.constructor` | app/inbox/page.tsx:18-20 | empty list, loading, not refreshing |
| `Inbox.InboxPage.FetchConfessions` | app/inbox/page.tsx:24-49 | no user: only `/dashboard` is pushed. Otherwise the profile's rows are shown newest first (empty on a failed query) and both spinners stop. The mark-read update runs iff a fetched row was unread, which is iff the unread count is positive. The list keeps the flags it was fetched with |
| `Inbox.InboxPage.HandleRefresh` | app/inbox/page.tsx:78-81 | refreshing starts, then the fetch runs: no user pushes `/dashboard` and the spinner keeps spinning; a failed query shows nothing and updates nothing; otherwise the profile's rows newest first, the mark-read update iff one was unread, and both spinners stop |
| `Inbox.InboxPage.OnLiveInsertAsWritten` | app/inbox/page.tsx:64-69 | the list is what the written handler leaves: unchanged; the spinners and the navigation are untouched |
| `Inbox.InboxPage.OnLiveInsert` | app/inbox/page.tsx:64-69 | the list is the intended handler's result; the spinners and the navigation are untouched |
| `AuthActions.NormalizeEmail` | src/actions/auth.ts:16 | the trimmed input with each character lowered in place: no surrounding whitespace, no upper-case ASCII |
| `AuthActions.NormalizeEmailIdempotent` | src/actions/auth.ts:16 | normalising an email twice gives the same as once |
| `AuthActions.StripTrailingSlash` | src/actions/auth.ts:8 | at most one trailing `/` is removed |
| `AuthActions.SiteUrl` | src/actions/auth.ts:8-13 | never empty; the production URL when unset, empty or just `/`; otherwise the configured URL with its one trailing `/`, if any, removed |
| `AuthActions.MagicLinkRequest` | src/actions/auth.ts:15-19 | the email is the normalised input; the redirect target is the site URL followed by `/auth/confirm` |
| `AuthActions.RedirectTargetWithTrailingSlash` | src/actions/auth.ts:8-18 | a configured `site/` gives exactly `site/auth/confirm` |
| `AuthActions.SignUp` | src/actions/auth.ts:4-26 | throws iff the provider reports an error. The thrown message is the provider's message, or "Failed to send magic link" when that is empty |

## Left out

- The auth provider and datastore clients (`updateUser`, `getUser`, `verifyOtp`, `signInWithOtp`, the query builder, realtime channels). Their answers are inputs, function parameters or the in-memory tables.
- Cookie plumbing (the cookie adapter of the confirmation endpoint, `src/middleware.ts`, `src/lib/supabase/server.ts`) and the resolution of a redirect path against the request URL. `Confirm.Get` returns the path.
- Concurrency across sessions: the race between the slug probe and the insert, and the order of realtime events against the drain. Each session is modelled as sequential calls.
- The order in which React runs the effects and re-renders. Each effect and handler is a method the caller invokes. Refs not causing a re-render is presentation.
- Logging: the `console.warn` when the site URL is unset (src/actions/auth.ts:11) and the `console.error` calls (src/actions/auth.ts:23, app/auth/confirm/route.ts:40) write to the server log only and change no outcome.
- `formatDate` in `app/inbox/page.tsx` reads the wall clock, uses floating-point hours and formats by locale.
- `router.refresh()`, styling (`tabClass`, the badge animation class) and the pure presentation pages.
- Message submission (recipient lookup, body length) is not part of this model. No file of the core enforces length bounds.
- Base.ToLower: lowers ASCII letters only. Non-ASCII characters whose lower case is ASCII (the Kelvin sign, dotted capital I) are not modelled for slugs, and in `AuthActions.NormalizeEmail` a non-ASCII capital such as `É` stays upper-case where JavaScript would lower it.
- Setup.AllocateSlug: a failed probe query (its `data` is null, so the slug counts as free) is not modelled. Every probe reads the table.
- Store.ConfessionTable.MarkAllRead: a failed mark-read update is not modelled. Both callers ignore its result.
- Setup.Submit: `user.email` is a string; the missing-email case behind the non-null assertion is not modelled.
- Store.NewestFirst: rows with equal `created_at` come back in an order the datastore leaves open. The model fixes one such order.

## Findings

| source | as written | input that shows it | evidently intended | confidence | as-written member | corrected member |
|---|---|---|---|---|---|---|
| app/auth/setup/page.tsx:48 | the retry template has lost its `$` markers, so every retry proposes the same literal text | a profiles table holding `user` and that literal text, with a username that has no letter or digit | `base-1`, `base-2`, ... | not executed; the markers may have been lost when the file was copied | `Setup.CandidateAsWritten`, `Setup.LiteralRetryNeverFrees` | `Setup.Candidate`, `Setup.AllocateSlug` |
| app/inbox/page.tsx:65 | `getUser()` is not awaited, and destructuring `data.user` from its Promise throws, so no live insert is ever shown | any insert for the signed-in user's profile, starting from an empty inbox | await the user, then prepend rows whose `profile_id` is the user's id | not executed | `Inbox.LiveInsertAsWritten`, `Inbox.LiveInsertAsWrittenLosesRow` | `Inbox.LiveInsert`, `Inbox.LiveInsertKeepsOrder` |
