# echi-tok: submission, moderation and age gate, in Dafny

echi-tok is a small video-listing site. Creators submit a video through a
form. The form trims the fields and checks the required ones. It normalises
a YouTube link to its embeddable form and inserts a `pending` row into the
`videos` table. It then links the selected genres through `video_genres`.
An administrator logs in with a shared password and sees the pending rows,
newest first. The administrator approves each one, or rejects it with an
optional reason. A second, debugging copy of the moderation list lives at
the site root. Every page is wrapped in an age gate. The gate reads an
`age_verified` cookie and shows either nothing, the page, or the age
prompt.

This project models that behaviour as pure functions over immutable data:

- `Basics`: `Option`, `Result`, and duplicate-free sequences (a JavaScript
  `Set` in insertion order).
- `Text`: JavaScript `trim`, `startsWith`, and `split` with a string
  separator, with its inverse `Join`.
- `Embed`: `toYoutubeEmbed`. Each regular expression is modelled as the
  leftmost index where its literal part occurs and is followed by at least
  six characters of `[A-Za-z0-9_-]`. The capture is the greedy run of those
  characters.
- `Store`: the `videos` and `video_genres` tables as sequences. It also
  models the per-id `update` and the pending query (status pending,
  `created_at` descending).
- `Taxonomy`: categories, genres, and the form's genre-selection helpers.
- `Intake`: the submission form (`app/submit/page.tsx`).
- `Moderation`: the moderation page (`app/admin/page.tsx`).
- `DebugAdmin`: the debugging moderation list (`app/page.tsx`).
- `AgeGate`: the age gate (`components/AgeGate.tsx`), including the round
  trip of the cookie it writes through a browser cookie jar.

Store calls, local storage, `window.prompt`, environment variables and the
cookie string all become explicit parameters:

- A store call that can fail takes a `fault: Option<string>` (the error
  message, or none).
- An insert takes the `id` and `created_at` the store assigns.
- The environment password is an `Option<string>`.
- Local storage is a `map<string, string>`.
- The prompt's answer is an `Option<string>`, where `None` means cancelled.

Where the code behaves differently from what a reader might expect, this
project follows the code:

- The moderation page's `loadVideos` does not clear an earlier error
  message on success.
- Approve and reject ignore the update's own error.
- A rejection reason is not trimmed. Only the exact empty string becomes
  null.
- The category tab with id 0 counts as no tab, because `!activeCatId`
  treats 0 as falsy.

## Model

| member | source | states |
|---|---|---|
| Text.Trim | app/submit/page.tsx:152-154 | The trimmed string is empty exactly when every character is ECMAScript whitespace or a line terminator. Otherwise it starts and ends with a non-whitespace character, and it is never longer than the input. |
| Text.TrimKeepsMiddle | app/submit/page.tsx:152-154 | The trimmed string is the slice of the input between its leading and its trailing whitespace: everything cut off on either side is whitespace. |
| Text.TrimIdempotent | app/submit/page.tsx:152-154 | Trimming a trimmed string changes nothing. |
| Text.Split | components/AgeGate.tsx:14-15 | `split` with a non-empty separator gives at least one piece, and no piece contains the separator. |
| Text.JoinSplit | components/AgeGate.tsx:14-15 | Joining the pieces of a split with the same separator gives back the original string. |
| Text.SplitJoin | components/AgeGate.tsx:14-15 | Splitting the join of pieces that lack the separator's first character gives back exactly those pieces. |
| Embed.Capture | app/submit/page.tsx:63-67 | A capture exists exactly when the pattern matches somewhere. It is the identifier of the leftmost match, and it has at least six characters of `[A-Za-z0-9_-]`. |
| Embed.ToYoutubeEmbed | app/submit/page.tsx:59-74 | The result is the input itself, or the canonical `https://www.youtube.com/embed/<id>?autoplay=0&mute=0` around a valid identifier. |
| Embed.UnchangedIff | app/submit/page.tsx:60-73 | The input comes back unchanged exactly when it is empty or matches neither the `youtu.be/` pattern nor the `[?&]v=` pattern. |
| Embed.ShortLinkFirst | app/submit/page.tsx:63-64 | When the `youtu.be/` pattern matches, its leftmost identifier is used for the embed URL, whatever a `v=` parameter says. |
| Embed.WatchParamSecond | app/submit/page.tsx:67-68 | Only when the `youtu.be/` pattern does not match is the leftmost `?v=` / `&v=` identifier used. |
| Embed.Idempotent | app/submit/page.tsx:59-74 | Normalising twice equals normalising once: a canonical URL matches neither pattern. |
| Embed.CanonicalHasNoMatch | app/submit/page.tsx:63-68 | Neither pattern matches any canonical embed URL. |
| Embed.ShortLinkUrl | app/submit/page.tsx:63-64 | `<prefix>youtu.be/<id>` becomes the embed URL of `id` when the prefix has no `y`. |
| Embed.WatchParamUrl | app/submit/page.tsx:67-68 | `<prefix>?v=<id>` becomes the embed URL of `id` when the prefix has no `y`, `?` or `&`. |
| Embed.PlainTextUnchanged | app/submit/page.tsx:71-73 | Text without `y`, `?` or `&` is returned unchanged. |
| Embed.ShortLinkExample | app/submit/page.tsx:63-64 | `https://youtu.be/abcdef12345` becomes the embed URL of `abcdef12345`. |
| Embed.WatchParamExample | app/submit/page.tsx:67-68 | `https://x.com/watch?v=abcdef12345` becomes the embed URL of `abcdef12345`. |
| Embed.PlainTextExample | app/submit/page.tsx:73 | `not a url` is returned unchanged. |
| Taxonomy.InitialActiveCategory | app/submit/page.tsx:94 | The first category's id is selected, or none when there are no categories. |
| Taxonomy.VisibleGenres | app/submit/page.tsx:119-122 | With no tab, or with the falsy tab id 0, no genre is visible. Otherwise exactly the genres of the selected category are visible, each as often as it is loaded. |
| Taxonomy.VisibleGenresOne | app/submit/page.tsx:119-122 | A single genre is visible exactly when a truthy tab is selected and the genre belongs to that category. |
| Taxonomy.VisibleGenresConcat | app/submit/page.tsx:119-122 | The filter keeps load order: the visible genres of two lists one after the other are those of the first list followed by those of the second. |
| Taxonomy.NameOf | app/submit/page.tsx:126 | An id has a name exactly when some genre has that id, and the name is that of the last genre with the id. |
| Taxonomy.SelectedNames | app/submit/page.tsx:125-130 | There are at most as many names as selected ids. A name is listed exactly when it is non-empty and is the name of some selected id. |
| Taxonomy.SelectedNamesOne | app/submit/page.tsx:127-129 | The preview of one id is its name when the id has a genre with a non-empty name, and nothing otherwise. |
| Taxonomy.SelectedNamesConcat | app/submit/page.tsx:127-129 | The preview keeps selection order: the preview of two selections one after the other is the first one's preview followed by the second's. With the one-id case this fixes the preview of every selection. |
| Taxonomy.SelectedNamesComplete | app/submit/page.tsx:125-130 | When every selected id has a non-empty name, the preview has exactly one name per selected id, in selection order. |
| Taxonomy.Toggle | app/submit/page.tsx:133-140 | Only the given id's membership flips, and the selection stays duplicate-free. An id that was not selected is added last, as a JavaScript `Set` keeps insertion order. A selected id is cut out of its one position, and the other ids keep their order. |
| Basics.RemoveKeepsOrder | app/submit/page.tsx:136 | Deleting an id from a duplicate-free selection cuts out exactly the position that holds it; every other id keeps its place in the order. |
| Taxonomy.ToggleTwice | app/submit/page.tsx:133-140 | Toggling the same id twice restores the selection as a set. When the id was not selected, the selection is restored exactly, order included. |
| Intake.LoadTaxonomy | app/submit/page.tsx:79-109 | A category error stops the load with its message. Otherwise the categories are stored and the first one is selected, then the genres are stored or the genre error is shown. The edited fields never change. |
| Intake.Validate | app/submit/page.tsx:152-159 | The trimmed creator name, title and URL are checked in that order. The first empty one gives its own message; when all are present, the trimmed values are passed on. |
| Intake.TrimmedOrNull | app/submit/page.tsx:174-178 | An optional field is null when it is all whitespace; otherwise it is the trimmed, non-empty text. |
| Intake.Payload | app/submit/page.tsx:172-180 | The insert always has status pending. It carries the trimmed URL as the video URL and its normalised form as the embed URL; email and memo are trimmed or null. |
| Intake.LinkRows | app/submit/page.tsx:199-203 | Exactly one `(video_id, genre_id)` row per selected id. There are no duplicates when the selection has none. |
| Intake.Submit | app/submit/page.tsx:145-225 | A failed check writes nothing and shows its message. A refused insert writes nothing and resets nothing. A successful insert appends exactly one pending row with both URLs, no legacy genre and no creator email. Links are written only for a new id and a non-empty selection. A refused link write keeps the row, shows a distinct message and resets nothing. Full success clears title, URL, memo and selection, and only then. |
| Intake.ResubmitNeedsTitle | app/submit/page.tsx:215-221 | After a fully successful submission the creator name and email are kept, and submitting again stops at the missing title. |
| Intake.SubmittedIsQueued | app/submit/page.tsx:172-188 | A submitted listing appears in the pending query, even when the link write later fails. |
| Store.RowOf | app/submit/page.tsx:172-182 | The stored row carries the insert's columns, the store-assigned id and time, and nulls for the columns the insert leaves out. |
| Store.UpdateById | app/admin/page.tsx:88-91 | Rows with the id get the new status and reason and are otherwise unchanged. Every other row is unchanged, and no row is added or removed. |
| Store.RejectPatch | app/admin/page.tsx:110-113 | A rejection sets status rejected. The reason is null exactly when it is the empty string; otherwise it is stored verbatim. |
| Store.ApproveIdempotent | app/admin/page.tsx:88-91 | Approving twice gives the same table as approving once. |
| Store.ModerationKeepsReasons | app/admin/page.tsx:87-114 | Approve and reject keep the invariant that only rejected rows carry a reason. |
| Store.PendingOf | app/admin/page.tsx:46 | The result holds exactly the pending rows, with their multiplicity. |
| Store.InsertNewestFirst | app/admin/page.tsx:47 | Inserting a row into a newest-first list keeps it newest first and adds exactly that row. |
| Store.SortNewestFirst | app/admin/page.tsx:47 | The result is newest first and is a permutation of the input. |
| Store.PendingQuery | app/admin/page.tsx:43-47 | The result is newest first and holds exactly the pending rows, with their multiplicity. |
| Store.ProcessedLeavesQueue | app/admin/page.tsx:87-116 | After a row is approved or rejected, the pending query shows no row with its id. |
| Store.OthersStayQueued | app/admin/page.tsx:88-91 | A pending row with another id is still in the pending query after the update. |
| Moderation.AdminPassword | app/admin/page.tsx:18-19 | The admin password is never empty: it is the configured one when that is set and non-empty, and `echi-tok-admin` otherwise. |
| Moderation.Mount | app/admin/page.tsx:23-39 | The page starts logged in exactly when local storage holds `echi_admin_authed` = `"1"` (the predicate `StoredLogin`). The list starts empty and loading, with no error. |
| Moderation.HandleLogin | app/admin/page.tsx:65-76 | The page is logged in afterwards exactly when it was before or the input equals the admin password. A match clears the error and stores the flag; a mismatch sets the error and changes nothing else. |
| Moderation.HandleLogout | app/admin/page.tsx:79-84 | The page is logged out and nothing else on it changes. The flag is removed, and every other stored key is untouched. |
| Moderation.LoginSurvivesReload | app/admin/page.tsx:33-72 | After a successful login, reopening the page starts logged in. |
| Moderation.LogoutSurvivesReload | app/admin/page.tsx:33-83 | After a logout, reopening the page starts logged out. |
| Moderation.WrongPasswordStaysOut | app/admin/page.tsx:67-75 | A wrong password leaves a logged-out page logged out, with the wrong-password error shown. |
| Moderation.LoadVideos | app/admin/page.tsx:42-56 | On a store error the previous list is kept and the message is shown. On success the list is exactly the pending rows, newest first, and an earlier message is left as it was. Loading is over either way. |
| Moderation.OnAuthorizedChange | app/admin/page.tsx:58-62 | A logged-out page is untouched. A logged-in page stays logged in with the same login error and finishes loading. On a store error it keeps its list and shows the message. On success it lists exactly the pending rows, newest first, and keeps its message. |
| Moderation.ApproveVideo | app/admin/page.tsx:87-94 | When the write succeeds, the table is updated by id; when it fails, the table is unchanged and no message is shown. The login state is untouched and loading ends. On a reload error the previous list stays and the message is shown. Otherwise the list is exactly the pending rows of the resulting table, newest first, and no longer shows the id. |
| Moderation.RejectVideo | app/admin/page.tsx:97-117 | The same as approval, using the rejection patch built from the prompted reason: the table is updated by id or left alone, the login state is untouched, a reload error keeps the list, and a successful reload lists exactly the pending rows of the resulting table, newest first, without the id. |
| Moderation.PromptedReason | app/admin/page.tsx:105 | The reason is the text typed at the prompt, or the empty string when the prompt was cancelled. |
| Moderation.RejectRecordsReason | app/admin/page.tsx:105-114 | A rejected row has status rejected. Its reason is the typed text, or null when the prompt was cancelled or left empty. Its other columns keep their values. |
| Moderation.DecisionsReversible | app/admin/page.tsx:87-114 | A rejected row can be approved, which clears its reason. An approved row can be rejected again with a non-empty reason. |
| DebugAdmin.ConfiguredPassword | app/page.tsx:28 | The configured password is empty exactly when none is set or it is set to the empty string; otherwise it is the configured text. |
| DebugAdmin.Login | app/page.tsx:28-44 | With no configured password it only alerts. With one, a matching input logs in and any other input alerts, with the page unchanged. |
| DebugAdmin.UnconfiguredNeverAuthenticates | app/page.tsx:28-38 | With no configured password, no sequence of typed passwords ever logs in. |
| DebugAdmin.AuthenticatesIffSomeMatch | app/page.tsx:39-43 | With a configured password, a series of attempts from a logged-out page logs in exactly when one of the inputs equals it. |
| DebugAdmin.StaysAuthenticated | app/page.tsx:30-44 | Login never logs out. |
| DebugAdmin.BeginLoad | app/page.tsx:47-48 | Starting a load shows the loading state and clears the error. The list, the login state and the typed password are kept. |
| DebugAdmin.FinishLoad | app/page.tsx:53-77 | A store error or a thrown request clears the list and sets the error. Success lists the pending rows newest first. Loading is over either way, and the login state and typed password are kept. |
| DebugAdmin.LoadPending | app/page.tsx:46-78 | After a load, on failure the list is empty and the error is set. On success there is no error, and the list holds exactly the pending rows, newest first. |
| DebugAdmin.EmptyStateAfterLoad | app/page.tsx:86-198 | After a load, the "no pending videos" message shows exactly when the page is logged in, the load succeeded and the table has no pending row. The message is shown only on the logged-in page, when it is not loading, the list is empty and no error is shown (the predicate `ShowsEmptyState`); a logged-out page shows the login form instead. |
| AgeGate.FindCookie | components/AgeGate.tsx:14-16 | The lookup finds nothing exactly when no row starts with `age_verified=`. Otherwise it returns the first such row. |
| AgeGate.CookieSaysVerified | components/AgeGate.tsx:14-18 | The effect's test: it can pass only when some `"; "`-separated row starts with `age_verified=` (the full condition is in CookieSaysVerifiedIff). |
| AgeGate.FindFirstCookie | components/AgeGate.tsx:14-16 | The lookup returns the first row that starts with `age_verified=`. |
| AgeGate.SecondFieldIsTrue | components/AgeGate.tsx:18 | The second `=`-field of an `age_verified=` pair is `true` exactly when the value is `true` or starts with `true=`. |
| AgeGate.CookieSaysVerifiedIff | components/AgeGate.tsx:14-18 | The cookie verifies exactly when the first `age_verified=` pair exists and its value is `true` or starts with `true=`. |
| AgeGate.OnePairCookie | components/AgeGate.tsx:14-18 | A one-pair `age_verified=` cookie verifies exactly when its value is `true` or starts with `true=`. |
| AgeGate.TrailingFieldExample | components/AgeGate.tsx:18 | `age_verified=true=x` verifies. |
| AgeGate.UppercaseExample | components/AgeGate.tsx:18 | `age_verified=TRUE` does not verify. |
| AgeGate.FirstPairDecides | components/AgeGate.tsx:14-18 | In a cookie string of pairs, the first `age_verified=` pair decides, whatever later pairs say. |
| AgeGate.CheckCookie | components/AgeGate.tsx:13-22 | After the mount effect the gate is checked, whatever the lookup found. It is verified exactly when it was already verified or the cookie verifies. |
| AgeGate.Allow | components/AgeGate.tsx:24-28 | The allow button verifies the visitor and leaves `checked` unchanged. |
| AgeGate.Render | components/AgeGate.tsx:36-43 | Nothing is rendered exactly while unchecked, the page exactly when checked and verified, and the prompt exactly when checked and not verified. |
| AgeGate.Monotone | components/AgeGate.tsx:18-27 | No sequence of mounts, allows and denies lowers `verified` or `checked`. |
| AgeGate.ContentStays | components/AgeGate.tsx:36-41 | Once the page's content is shown, it stays shown. |
| AgeGate.SetCookie | components/AgeGate.tsx:26 | Writing a cookie leaves exactly that value under its name. When a cookie of that name exists, the jar keeps its length and every other cookie keeps its place. Otherwise the new cookie is added at the end. Nothing else is added. |
| AgeGate.SplitCookieString | components/AgeGate.tsx:14-15 | Reading back a jar of well-formed cookies and splitting at `"; "` gives one row per cookie. |
| AgeGate.AllowCookieIsRecognised | components/AgeGate.tsx:14-26 | After the allow button writes `age_verified=true` into any jar of well-formed cookies (non-empty names without `=` or `;`, values without `;`, this domain, path `/`), the cookie check on the next visit verifies. |

## Left out

- Rendering, inline styles, buttons and input handlers are UI only. Only the
  render decision of the age gate and the debugging page's empty-state
  condition are modelled.
- The network and the store are not modelled. Each store call is a
  parameter: an error message or success, plus the id and time an insert is
  given. The row-level-security policy that accepts only pending inserts is
  enforced by the server and is not visible in this code.
- Browser I/O is not modelled. Local storage is a map passed in and out.
  `window.prompt` is its answer (`None` for cancel). `alert` is a returned
  `Alert` value. `document.cookie` is a string parameter, and its writes go
  to an explicit cookie jar.
- `handleDeny` only navigates to another site. It is an event that changes
  nothing in the gate.
- Async interleaving, the `sending` flag and `e.preventDefault()` are left
  out. Operations run one at a time, and concurrent moderation is
  last-write-wins.
- The messages' Japanese text is left out. Each outcome is a distinct
  `Message`, `AuthError` or `Alert` constructor.
- The debugging page's console output and the URL and code in its error
  text are left out. `errorText` records only whether the store reported an
  error or the request threw, with its message.
- The submission form writes `email`, while the moderation page reads
  `creator_email`. Both columns are kept, unreconciled.
- A public feed of approved listings and the legacy `genre` column are not
  produced by any of this code, so they are not modelled. The insert never
  writes `genre`.
- Store.PendingQuery: the store leaves the order of rows with equal
  `created_at` open. The contract fixes only newest-first order and the
  exact set of rows with their multiplicity, not the order among ties.
- Intake.LoadTaxonomy: the store's ordering by `sort_order` and its
  `is_active` filter on genres are done by the store. The model receives
  their results.
- AgeGate.SetCookie: the jar holds only cookies of this site's domain with
  path `/`, each with a non-empty name without `=` or `;` and a value
  without `;`. Browsers also keep same-name cookies
  on longer paths or other matching domains. A write replaces only the cookie
  with the same name, domain and path (section 5.3 of RFC 6265). A same-name
  cookie on a longer path is listed first (section 5.4 of RFC 6265). A
  nameless cookie whose value starts with `age_verified=` reads back like a
  pair with that name. In any of these cases the lookup can find a different
  row. AgeGate.AllowCookieIsRecognised therefore holds only for jars of the
  modelled kind. Expiry after 30 days (`max-age`) is not modelled.
- Text.Trim: the whitespace set is that of the ECMAScript specification
  (WhiteSpace and LineTerminator, with the Unicode space separators listed
  explicitly). Characters outside the Basic Multilingual Plane are not
  special.
- The moderation page's empty-state message is left out. It depends on
  rendering only, and its condition is not one of the modelled operations.
- app/layout.tsx only wraps every page in the age gate, so it is not
  modelled separately.
