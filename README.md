# tumbsky core, modelled in Dafny

tumbsky is a SvelteKit server for custom Bluesky profile pages. This project models the parts
of its server that make decisions:

- **Signed session cookie** (`SignedCookie`). A cookie holds
  `value + "." + base64url(HMAC-SHA256(secret, value))`. Verification splits the cookie at the
  last `.`.
- **Session resolver** (`Auth`). `requireAuth` works with a per-request cache and a cookie
  check, then a DID check, then the OAuth configuration, then a session restore that can
  succeed, fail as invalid, or fail otherwise.
- **OAuth stores** (`OAuthStores`). These are the state and session tables. Expired states are
  removed lazily on read, and there is also a bulk prune.
- **Firehose ingestion** (`TapIngest`, `TapSubscription`). Events are filtered, keyed by
  AT-URI, then deleted or validated and upserted. The subscription loop acknowledges an event
  only after ingesting it.
- **Status timeline** (`Status`).
  - A `sortAt:uri` cursor is decoded at the first `:`.
  - Pages are in descending `(sortAt, uri)` order, twenty to a page.
  - `postStatus` inserts the new status locally.
  - `getCurrentUser` falls back to `handle.invalid` when no identity is known.
- **Post cache and users** (`Posts`, `Users`, `UserPage`). These cover `savePost`,
  `syncUserPosts`, the user-post queries, `upsertUser`, `updateUserCss` and the data of a
  public user page.
- **CSS filters** (`CssSanitizer`, `Settings`).
  - `isValueSafe` and the three removal walks of `sanitizeCSS` run over a node tree.
  - `validateCSS` is modelled too.
  - The settings form removes `<script…</script>` spans with a regular expression.

The database is one `Schema.Database` object with one map per table, each keyed by the table's
primary key. Every operation that writes a table is a method that names only that field in its
`modifies` clause, so the frame guarantees that other tables are left alone. Queries are
functions of the maps.

These are parameters:
- the clock;
- HMAC and base64url;
- date parsing;
- lexicon validation;
- `isDid`;
- the outcome of an OAuth session restore;
- grapheme counting;
- the list of allowed statuses;
- `toISOString`;
- the CSS parser.

Shared string helpers live in `Text`. These are `indexOf`, `lastIndexOf`, `includes`,
`toLowerCase`, `trim` and the UTF-16 `length`. `Decimal` holds the `${n}` rendering of
integers and `parseInt(s, 10)`. `Keyset` holds the descending `(int, uri)` order of rows and
the keyset filter below a cursor.

## Model

| member | source | states |
|---|---|---|
| SignedCookie.GetCookieSecret | src/lib/server/auth/signed-cookie.ts:27-36 | The lookup throws exactly when `DATABASE_URL` is set and `COOKIE_SECRET` is unset, empty or equal to the placeholder. Otherwise it returns `COOKIE_SECRET` when that is non-empty, and the placeholder when it is not. |
| SignedCookie.HmacSha256 | src/lib/server/auth/signed-cookie.ts:44-46 | The MAC is computed with the secret whenever the secret lookup succeeds, and fails with it otherwise. |
| SignedCookie.GetSignedCookie | src/lib/server/auth/signed-cookie.ts:58-87 | An absent or empty cookie, or one with no `.`, is rejected. A missing secret gives a rejection, not an exception. A verified value is a prefix of the cookie. |
| SignedCookie.SignToken | src/lib/server/auth/signed-cookie.ts:105-106 | The token is the value, then `.`, then a signature. Under the RFC 4648 section 5 alphabet assumption, the signature contains no `.` and is authentic for the value. |
| SignedCookie.SetSignedCookie | src/lib/server/auth/signed-cookie.ts:99-109 | Only the named cookie changes, and it holds the signed token. A secret failure propagates. |
| SignedCookie.VerifiedIff | src/lib/server/auth/signed-cookie.ts:58-87 | A cookie verifies to `v` if and only if it is `v` + `.` + a signature with no `.` that is authentic for `v`. This holds in both directions, so values that contain `.` survive. |
| SignedCookie.VerifiedSplits | src/lib/server/auth/signed-cookie.ts:64-70 | A verified cookie is the value, the last `.`, and an authentic signature after it. |
| SignedCookie.SplitVerifies | src/lib/server/auth/signed-cookie.ts:64-86 | A value joined by `.` to an authentic signature with no `.` verifies to that value. |
| SignedCookie.SignThenVerify | src/lib/server/auth/signed-cookie.ts:58-108 | Verifying the cookie that `setSignedCookie(v)` stored returns `v`. |
| SignedCookie.VerdictOfSplit | src/lib/server/auth/signed-cookie.ts:72-86 | For a cookie split at its last `.`, null comes from an undecodable signature, from an unreadable secret, and from a MAC of the right length that differs from the expected one (a forged cookie). A MAC of the wrong length throws. A matching MAC gives the value. |
| SignedCookie.ThrowsIff | src/lib/server/auth/signed-cookie.ts:72-86 | Verification throws exactly when the cookie splits at its last `.` into a value and a decodable signature whose MAC has the wrong length. Every other failure is null. |
| SignedCookie.WrongLengthThrows | src/lib/server/auth/signed-cookie.ts:72-84 | A decodable signature of the wrong length makes verification throw, because the comparison sits outside the `try`. It does not return null. |
| Auth.IsSessionInvalidError | src/lib/server/auth/index.ts:41-48 | The four token and auth-method error kinds count as session-invalid. Every other error does not. |
| Auth.Resolve | src/lib/server/auth/index.ts:69-105 | Necessary conditions for each outcome (the exact outcomes are Auth.ResolveCases). Success requires a cookie that verifies to a non-empty DID, OAuth configured and a successful restore, and then the client wraps the restored session. Deletion happens only with a 401. A 503 means OAuth is not configured. A rethrown error is not session-invalid and keeps the cookie. |
| Auth.RequireAuth | src/lib/server/auth/index.ts:61-106 | A cached `locals.auth` is returned and nothing changes. Otherwise the outcome is the resolver's. `locals.auth` is set exactly on success, and the cookie is deleted exactly when the resolver says so. |
| Auth.Authenticate | src/lib/server/auth/index.ts:61-106 | What `requireAuth` returns given the request's cache and cookies: the cached context if there is one, and otherwise the resolver's outcome. A failure never comes from a cached request. A freshly resolved context has a non-empty DID that passes the DID check, and the cookie holds that DID with an authentic signature. |
| Auth.CookiesAfter | src/lib/server/auth/index.ts:61-106 | After `requireAuth` the jar is the old jar, minus the session cookie exactly when no context was cached and the resolver deletes it. |
| Auth.ResolveCases | src/lib/server/auth/index.ts:69-105 | The exact outcome for each cookie verdict and branch. A bad signature length gives the exception. A rejected or empty cookie gives 401 "not signed in" and no deletion. A non-DID gives the same 401 with deletion. Unconfigured OAuth gives the 503. A restored session gives the context for that DID and client. A session-invalid restore error gives 401 "session expired" with deletion, and any other error is rethrown unchanged. |
| Auth.ResolveFailureIdentifiesCase | src/lib/server/auth/index.ts:69-105 | Conversely, each failure holds exactly in its own branch: the 503, "session expired", the signature exception, each rethrown error, and "not signed in". |
| Auth.DeleteCookieIff | src/lib/server/auth/index.ts:69-105 | The cookie is deleted if and only if it verifies to a value that is not a DID, or restore failed with a session-invalid error. |
| Auth.AuthenticatedByGenuineCookie | src/lib/server/auth/index.ts:69-95 | A successful resolution means the session cookie is the DID followed by an authentic signature of it. |
| Auth.ForgedCookieNotSignedIn | src/lib/server/auth/index.ts:69-77 | A forged session cookie, with a MAC of the right length but the wrong bytes, gets 401 "not signed in" and keeps the cookie. It never gets the length exception. |
| Auth.DeletedCookieNotSignedIn | src/lib/server/auth/index.ts:69-77 | After a deletion, the same jar resolves to "not signed in" and deletes nothing more. |
| OAuthStores.ApplySessionOp | src/lib/server/oauth/stores.ts:38-65 | `set` upserts exactly one row holding the session and `updatedAt = now`. `delete` removes only its key. `clear` empties the session table. |
| OAuthStores.SessionGetReturnsLastSet | src/lib/server/oauth/stores.ts:28-65 | After any sequence of writes, `sessions.get(did)` returns the session most recently set for `did`. It returns undefined if a later delete or clear removed it. |
| OAuthStores.SessionsGet | src/lib/server/oauth/stores.ts:28-31 | Returns the stored session exactly when a row exists for the DID. |
| OAuthStores.SessionsSet | src/lib/server/oauth/stores.ts:38-49 | The new session table is the upsert described by `ApplySessionOp`. |
| OAuthStores.SessionsDelete | src/lib/server/oauth/stores.ts:55-57 | The new session table is the old one without the DID. |
| OAuthStores.SessionsClear | src/lib/server/oauth/stores.ts:63-65 | The session table is empty afterwards, and the frame keeps the state table untouched. |
| OAuthStores.StateLookup | src/lib/server/oauth/stores.ts:75-88 | A state is returned exactly when its key is present and `expiresAt > now`. |
| OAuthStores.PruneExpired | src/lib/server/oauth/stores.ts:132-134 | Exactly the rows with `expiresAt <= now` are removed. The other rows are unchanged. |
| OAuthStores.StatesGet | src/lib/server/oauth/stores.ts:75-88 | An absent key changes nothing. An expired row is deleted and undefined is returned. An unexpired row's state is returned and the table is unchanged. |
| OAuthStores.StatesSet | src/lib/server/oauth/stores.ts:95-106 | The key maps to `(state, state.expiresAt)` whether or not it existed. Other keys are untouched. |
| OAuthStores.StatesDelete | src/lib/server/oauth/stores.ts:112-114 | Only the given key is removed. |
| OAuthStores.StatesClear | src/lib/server/oauth/stores.ts:120-122 | The state table is empty afterwards, and the frame keeps the session table untouched. |
| OAuthStores.PruneExpiredStates | src/lib/server/oauth/stores.ts:132-134 | The new state table is the pruned one. |
| OAuthStores.PruneIdempotent | src/lib/server/oauth/stores.ts:132-134 | Pruning twice at the same time is pruning once. |
| OAuthStores.PruneInvisibleToGet | src/lib/server/oauth/stores.ts:126-134 | Pruning never changes what `states.get` returns at the same time, and every state that survives is unexpired. |
| OAuthStores.SetThenGetState | src/lib/server/oauth/stores.ts:75-106 | A state set with a future expiry is returned by the next `get`. |
| TapIngest.ToAtUri | src/lib/server/tap/ingest.ts:20-22 | The URI is `at://`, then the DID, `/`, the collection, `/` and the rkey, with these exact lengths and positions. |
| TapIngest.ToAtUriInjective | src/lib/server/tap/ingest.ts:20-22 | For DIDs without `/`, equal URIs in one collection have equal DIDs and equal rkeys. |
| TapIngest.InsertedRow | src/lib/server/tap/ingest.ts:61-84 | The inserted row has text defaulting to `''`, `hasImages` only for `app.bsky.embed.images`, and `hasEmbed` exactly when an embed exists. `createdAt` is the parsed date, or `indexedAt` when parsing fails. |
| TapIngest.ConflictRow | src/lib/server/tap/ingest.ts:85-95 | On conflict, the content fields and `indexedAt` are rewritten. `userDid`, `cid`, `rkey` and `createdAt` keep their first values. |
| TapIngest.Relevant | src/lib/server/tap/ingest.ts:35-44 | An event is acted on exactly when it is a post record event of a registered user. The profile filter is subsumed by the post filter, and identity events are never acted on. |
| TapIngest.Ingested | src/lib/server/tap/ingest.ts:33-98 | Identity, profile and other-collection events change nothing, and neither do events for unknown users or invalid records. A delete removes exactly the URI. An accepted record inserts or updates only its URI. |
| TapIngest.IngestTapEvent | src/lib/server/tap/ingest.ts:33-98 | The posts table afterwards is `Ingested` of the old one, and only the posts table changes. |
| TapIngest.DeleteIdempotent | src/lib/server/tap/ingest.ts:48-51 | Ingesting a delete twice is ingesting it once. |
| TapIngest.ReplayOnlyReindexes | src/lib/server/tap/ingest.ts:70-96 | Replaying an accepted event leaves one row that differs only in `indexedAt`. |
| TapIngest.UpdateKeepsFirstCid | src/lib/server/tap/ingest.ts:85-95 | An update after a create stores the new record but keeps the create's `cid`. |
| TapSubscription.RunTapSubscription | src/lib/server/tap/index.ts:20-25 | Events are ingested in stream order. The acknowledged events are a prefix of the stream, and each one was ingested before its ack. An ingest exception stops the loop before that event's ack. An ack exception stops it after ingesting. |
| TapSubscription.RedeliveryAfterAckFailure | src/lib/server/tap/index.ts:21-24 | When the ack of a delivered event fails, the event is delivered again. Re-ingesting it after the stream prefix up to it changes at most `indexedAt`. |
| Status.EncodeCursor | src/lib/status.remote.ts:46-48 | The first `:` of a cursor is the one right after the number, so splitting there gives back the number's text and the URI, even when the URI has `:`. |
| Status.DecodeCursor | src/lib/status.remote.ts:50-71 | A cursor without `:` is rejected. An accepted cursor has a non-empty URI. |
| Status.DecodeCursorSound | src/lib/status.remote.ts:55-69 | An accepted cursor is a prefix with no `:`, then `:`, then the URI, and the prefix parses to the sort value. |
| Status.DecodeCursorAccepts | src/lib/status.remote.ts:55-69 | A prefix without `:` that parses to `n`, followed by `:` and a non-empty URI, is accepted as `(n, uri)`. |
| Status.CursorRoundTrip | src/lib/status.remote.ts:46-69 | Decoding `encodeCursor(s, u)` gives `(s, u)` for every integer `s` and non-empty `u`, including a `u` that contains `:`. |
| Status.EmptyUriRejected | src/lib/status.remote.ts:62-67 | A cursor whose URI part is empty is rejected. |
| Status.NonNumericRejected | src/lib/status.remote.ts:61-67 | A cursor whose prefix is not a number is rejected. |
| Status.MatchingBelowCursor | src/lib/status.remote.ts:157-168 | The selected rows are in strictly descending `(sortAt, uri)` order. With a cursor, they are exactly the rows with `sortAt < c.sortAt`, or the same `sortAt` and `uri < c.uri`. |
| Status.TimelinePage | src/lib/status.remote.ts:155-173 | A page holds at most 20 rows and is a prefix of the selected rows. A cursor is returned if and only if more than 20 rows matched, and it encodes the page's last row. |
| Status.NextCursor | src/lib/status.remote.ts:200-203 | Following the returned cursor selects exactly the matching rows after the first 20. |
| Status.CrawlIsMatching | src/lib/status.remote.ts:157-203 | Following cursors from any starting cursor lists exactly the rows that cursor selects, in order. |
| Status.PagingListsEveryRowOnce | src/lib/status.remote.ts:157-203 | For a fixed table, paging from no cursor lists every status exactly once, newest first. |
| Status.AuthorOf | src/lib/status.remote.ts:186-194 | The author view has the row's DID, the identity's handle or `handle.invalid`, and the profile's display name if any. |
| Status.PageViews | src/lib/status.remote.ts:185-198 | There is one view per page row, in order. Each view has the author view, the record, and the ISO text of `sortAt`. |
| Status.GetTimeline | src/lib/status.remote.ts:150-207 | A cursor that does not decode fails validation. Otherwise the response's cursor and statuses are the page's, at most 20, each showing its row. |
| Status.InsertedLocally | src/lib/status.remote.ts:111-127 | The row is keyed by `at://did/xyz.statusphere.status/rkey`, with `sortAt = min(createdAt, indexedAt)`. An existing row with that URI, and every other row, is left unchanged. |
| Status.InsertLocallyIdempotent | src/lib/status.remote.ts:116-127 | Because of `onConflictDoNothing`, inserting the same status again, even later, changes nothing. |
| Status.PostStatus | src/lib/status.remote.ts:73-129 | Invalid form input changes nothing. With valid input, the session is the one `requireAuth` yields from the request's earlier cache and cookies (Auth.Authenticate), and the request is left as `requireAuth` leaves it. The auth failure is returned exactly when that fails, with its error. "Invalid status" means the status is not allowed. "Could not post" means `createRecord` failed. The status is posted exactly when all checks pass. Only then does the status table change, by the local insert under that session's DID. |
| Status.GetCurrentUser | src/lib/status.remote.ts:25-44 | Null exactly when `requireAuth`, run on the request's earlier cache and cookies, fails. Otherwise the result has that session's DID, its handle or `handle.invalid`, and its display name. The request is left as `requireAuth` leaves it. |
| Posts.RkeyOf | src/lib/server/posts/index.ts:72 | The rkey is the longest suffix of the URI with no `/`, which is the whole URI when it has no `/`. |
| Posts.RkeyOfAtUri | src/lib/server/posts/index.ts:72 | On an AT-URI, the rkey extracted is the one the URI was built from. |
| Posts.SerialisedEmbed | src/lib/server/posts/index.ts:67 | Embed data is the embed's JSON text exactly when there is an embed, and null otherwise. |
| Posts.Saved | src/lib/server/posts/index.ts:54-110 | An existing URI gets a new `cid`, record, text, `hasImages` (images or recordWithMedia), `hasEmbed`, `embedData` and `indexedAt`, and keeps its `userDid`, `rkey` and `createdAt`. A new URI gets a full row. Other rows are unchanged. The write fails only for a new URI whose date does not parse. |
| Posts.SavePost | src/lib/server/posts/index.ts:54-110 | The posts table afterwards is `Saved` of the old one, or unchanged when the write fails. |
| Posts.SyncUserPosts | src/lib/server/posts/index.ts:124-143 | Only items authored by `did` whose record is `app.bsky.feed.post` are saved, in feed order. The returned count is the number of those saves. A failed save ends the sync. The table then holds exactly the saves of the feed prefix before the failing item. |
| Posts.SaveAllStaysFailed | src/lib/server/posts/index.ts:129-140 | Once a save in the loop has failed, the whole sync fails. |
| Posts.SaveAllTouchesOnlySelected | src/lib/server/posts/index.ts:129-140 | A row named by no selected item is left as it was. |
| Posts.GetUserPosts | src/lib/server/posts/index.ts:155-163 | The result has at most `limit` rows, all owned by `did`, non-increasing in `createdAt` and without repeats. When fewer than `limit` rows come back, every owned post is among them. No omitted post is newer than a returned one. |
| Posts.UserPostsAreTop | src/lib/server/posts/index.ts:155-163 | A prefix of the descending listing of the user's posts has all of those properties. |
| Posts.GetPostByUri | src/lib/server/posts/index.ts:171-173 | Returns the row exactly when the URI is present. |
| Posts.DeletePost | src/lib/server/posts/index.ts:182-184 | Only the row for the URI is removed. |
| Users.UpsertedRow | src/lib/server/users/index.ts:24-63 | A new DID gets `{handle, null, null, now, now}`. An existing DID changes only `handle` and `updatedAt`. |
| Users.UpsertUser | src/lib/server/users/index.ts:24-64 | The returned row is the stored row, and it is the only row written. Rows stay keyed by their own DID. |
| Users.UpsertKeepsSettings | src/lib/server/users/index.ts:29-40 | Any number of repeat logins keeps the user's CSS, theme and creation time. |
| Users.GetUserByDid | src/lib/server/users/index.ts:74-76 | Returns the row exactly when the DID is present. |
| Users.GetUserByHandle | src/lib/server/users/index.ts:87-89 | Returns a stored row with that handle exactly when one exists. |
| Users.UpdateUserCss | src/lib/server/users/index.ts:100-111 | Only the DID's `customCss` and `updatedAt` change. An absent DID is a no-op. |
| UserPage.ToPostView | src/lib/server/posts/user-page.ts:41-49 | A post view copies `uri`, `cid`, `text`, `createdAt`, `hasImages`, `hasEmbed` and `embedData` from its row. |
| UserPage.GetUserPageData | src/lib/server/posts/user-page.ts:23-51 | An unknown handle gives no user and no posts. A known handle gives that user's DID, handle and CSS, and at most 50 views of the user's own posts, newest first and each at most once. When fewer than 50 are shown, every post of the user is shown. No post of the user left out is newer than one shown. |
| UserPage.ViewsOfUserPosts | src/lib/server/posts/user-page.ts:33-49 | The views of `getUserPosts(did, 50)` keep everything it promises: the bound, ownership, newest-first order, no repeats, all of the user's posts when fewer than 50, and none left out newer than one shown. |
| CssSanitizer.IsValueSafe | src/lib/server/css-sanitizer.ts:46-67 | The loop with early returns answers false exactly when the lower-cased value contains a blocked function followed by `(`, or `javascript:`, or both `data:` and `script`. |
| CssSanitizer.ValueSafeIgnoresCase | src/lib/server/css-sanitizer.ts:47 | Lower-casing a value first does not change its verdict. |
| CssSanitizer.WalkEstablishes | src/lib/server/css-sanitizer.ts:99-139 | A walk whose visitor only returns nodes with a local property leaves that property at every depth. |
| CssSanitizer.WalkPreserves | src/lib/server/css-sanitizer.ts:99-139 | A walk whose visitor keeps a local property keeps it at every depth. |
| CssSanitizer.WalkIdentity | src/lib/server/css-sanitizer.ts:99-139 | A walk over nodes that its visitor keeps as they are returns the tree unchanged. |
| CssSanitizer.Walk | src/lib/server/css-sanitizer.ts:99-139 | A walk never adds top-level nodes, and keeps all of them when the visitor removes none. |
| CssSanitizer.WalkAt | src/lib/server/css-sanitizer.ts:99-139 | A node disappears exactly when the visitor removes it. Otherwise one node stays, of the kind the visitor returned. |
| CssSanitizer.ImportTestRedundant | src/lib/server/css-sanitizer.ts:99-109 | The second `import` check never removes anything the allow-list kept. |
| CssSanitizer.AtRuleVisitor | src/lib/server/css-sanitizer.ts:99-109 | An at-rule is removed exactly when its lower-cased name is not allowed. Other nodes are kept as they are. |
| CssSanitizer.DeclVisitor | src/lib/server/css-sanitizer.ts:112-134 | A declaration is removed exactly when its lower-cased property is blocked or its value is unsafe. A kept `position: fixed` or `position: absolute` (value case-sensitive) loses `!important`, and other declarations are unchanged. |
| CssSanitizer.CommentVisitor | src/lib/server/css-sanitizer.ts:137-139 | Exactly the comments are removed. |
| CssSanitizer.Sanitized | src/lib/server/css-sanitizer.ts:96-141 | After the three walks, every at-rule at any depth is allowed and every declaration has an unblocked property, a safe value and no `!important` on an overlay position. No comment is left. |
| CssSanitizer.CleanUnchanged | src/lib/server/css-sanitizer.ts:99-139 | A stylesheet with nothing to remove comes through unchanged. |
| CssSanitizer.SanitizeIdempotent | src/lib/server/css-sanitizer.ts:99-139 | Sanitising is idempotent, and a tree is a fixed point if and only if it is clean. |
| CssSanitizer.SanitizeCss | src/lib/server/css-sanitizer.ts:80-146 | Null exactly for empty or whitespace-only input. The size error comes exactly when the trimmed text has more than 102400 UTF-16 units. Otherwise the result is the clean, sanitised tree of the trimmed text. |
| CssSanitizer.ValidateCss | src/lib/server/css-sanitizer.ts:157-175 | Valid if and only if the input is non-empty and at most 100 KB before trimming. The error list is empty exactly when valid, and holds the matching message otherwise. |
| CssSanitizer.WhitespaceOnlyValid | src/lib/server/css-sanitizer.ts:157-175 | Whitespace-only input is valid, although `sanitizeCSS` maps it to null. |
| Settings.FirstMatchIsFirst | src/lib/settings.remote.ts:34 | The search returns the first case-insensitive occurrence at or after the start position, or -1 when there is none. |
| Settings.FirstSpanIsFirst | src/lib/settings.remote.ts:34 | No span is found exactly when the text has no `<script` followed by `</script>`. A found span starts at the first `<script` and ends at the first `</script>` after it, as the lazy match does. |
| Settings.StripScripts | src/lib/settings.remote.ts:34 | The output is never longer than the input. |
| Settings.StripScriptsChangesIff | src/lib/settings.remote.ts:34 | Text with no span is returned unchanged. Text with a span loses at least the two tags. |
| Settings.UnclosedScriptKept | src/lib/settings.remote.ts:34 | A `<script` with no `</script>` after it is kept, with everything that follows it. |
| Settings.StripScriptsNotIdempotent | src/lib/settings.remote.ts:34 | One pass can leave a span: `<<script</script>script</script>` strips to `<script</script>`. |
| Settings.SaveCustomCss | src/lib/settings.remote.ts:26-43 | The session is the one `requireAuth` yields from the request's earlier cache and cookies (Auth.Authenticate), and the request is left as `requireAuth` leaves it. The CSS is saved exactly when that succeeds. Otherwise its error is returned and nothing is written. Only that session DID's `customCss` (set to the stripped text) and `updatedAt` change. |
| Text.IndexOf | src/lib/status.remote.ts:55 | The result is the first position of the character, or -1 exactly when it is absent. |
| Text.LastIndexOf | src/lib/server/auth/signed-cookie.ts:64 | The result is the last position of the character, or -1 exactly when it is absent. |
| Text.SplitFirst | src/lib/status.remote.ts:55-62 | The text before the first separator has no separator, and the parts rejoin to the input. |
| Text.SplitFirstJoin | src/lib/status.remote.ts:55-62 | Splitting a join whose left part has no separator gives back the parts. |
| Text.LastIndexOfJoin | src/lib/server/auth/signed-cookie.ts:64-70 | `lastIndexOf` on `v + "." + w`, where `w` has no `.`, finds the joining `.`. |
| Text.Contains | src/lib/server/css-sanitizer.ts:51 | `includes` finds only substrings no longer than the text, and always finds a prefix. |
| Text.ContainsAt | src/lib/server/css-sanitizer.ts:51 | `includes` holds exactly when the substring occurs at some position. |
| Text.ToLower | src/lib/server/css-sanitizer.ts:47 | The result has the same length, and each character is lower-cased. |
| Text.Trim | src/lib/server/css-sanitizer.ts:85 | The result is a substring of the input, and what is cut off on either side is whitespace. A non-empty result neither starts nor ends with whitespace. It is empty exactly when the input is all whitespace. |
| Text.TrimStart | src/lib/server/css-sanitizer.ts:85 | The result is a suffix of the input that does not start with whitespace, and everything cut off is whitespace. |
| Text.TrimEnd | src/lib/server/css-sanitizer.ts:85 | The result is a prefix of the input that does not end with whitespace, and everything cut off is whitespace. |
| Text.TrimNotLonger | src/lib/server/css-sanitizer.ts:85-91 | Trimming never lengthens the text in UTF-16 units. |
| Text.Utf16Length | src/lib/server/css-sanitizer.ts:89 | The count is between one and two units per character. |
| Decimal.IntToDecimal | src/lib/status.remote.ts:47 | `${n}` starts with `-` exactly for a negative number, and otherwise holds at least one digit and nothing but digits. |
| Decimal.ParseInt | src/lib/status.remote.ts:61 | After leading whitespace, a digit gives a non-negative number, and a character that is neither a digit nor a sign gives NaN, as does nothing at all. A negative result comes from a leading `-`. |
| Decimal.ParseIntOfDecimal | src/lib/status.remote.ts:46-61 | `parseInt` reads back every integer that `${n}` renders. |
| Decimal.DecimalHasNoColon | src/lib/status.remote.ts:47-55 | A rendered integer has no `:`, so the cursor split lands after it. |
| Decimal.ParseIntIgnoresTail | src/lib/status.remote.ts:61 | `parseInt` ignores text after the leading digits. |
| Keyset.Listing | src/lib/status.remote.ts:168 | Every row appears once, in strictly descending `(sortAt, uri)` order. |
| Keyset.After | src/lib/status.remote.ts:160-167 | Exactly the listed rows strictly below the cursor are kept, in listing order. |
| Keyset.AfterKeyOf | src/lib/status.remote.ts:160-168 | Resuming after the key of the i-th row of a descending listing gives exactly the rows after it. |
| Keyset.StrLessTotal | src/lib/status.remote.ts:164-168 | Distinct URIs are always ordered one way or the other. |

## Left out

- Text.ToLower: lower-cases the ASCII capitals and the Kelvin sign only. `toLowerCase` maps other non-ASCII characters too, but only ASCII letters can complete a blocked name, except U+0130, whose lower case is two characters. That case is not modelled.
- Settings.StripScripts: matches the tags with an ASCII case fold. This agrees with a regular expression that has the `i` flag and no `u` flag, because such a regex never folds a non-ASCII character onto an ASCII one.
- Decimal.ParseInt: integers are unbounded. The loss of precision past 2^53 and the exponent form `${n}` uses for huge numbers are not modelled.
- Posts.GetUserPosts: SQLite leaves the order of posts with equal `createdAt` unspecified. The model picks descending URI order, and the contract states no tie order.
- Users.GetUserByHandle: several rows can share a handle. The model returns some row with that handle, and the contract does not say which one SQLite picks.
- Posts.GetUserPosts: `limit` is a `nat`. A negative limit, which SQLite reads as "no limit", is not modelled.
- Status.Crawl: only covers tables whose URIs are non-empty. A row with an empty URI would yield a cursor that the decoder rejects.
- Status.GetTimeline: `toISOString` is a parameter. Its range error for timestamps outside the Date range is not modelled.
- CssSanitizer.SanitizeCss: postcss parsing and serialisation are a parameter and the identity. The "invalid CSS syntax" exception path is not modelled, because the safe parser does not raise on input.
- CssSanitizer: the postcss tree is mutated in place while it is walked. The model rebuilds the tree as a value, so node identity and removal during iteration are not captured.
- HMAC-SHA256, base64url, `timingSafeEqual` and TID generation are not modelled. They are crypto and randomness, and are taken as parameters with the stated assumptions.
- `Date.now`, `Date.parse` and `new Date(...)` are not modelled. The clock and the date parsers are parameters.
- The network calls (`createRecord`, `fetchPostsFromApi`, `describeRepo`) are not modelled. Their outcomes or results are inputs.
- The `Promise.all` reads in `getTimeline` and `getCurrentUser` are not modelled as concurrent. They are sequentialised because they only read.
- Type checks (`typeof css !== 'string'`, schema validation of the request shape) are not modelled. Every input is already a string.
- Failures of the database itself are not modelled. Every write succeeds, except a `savePost` insert of a NaN date, which the client refuses.
- Status.PostStatus: the `invalid(...)` responses are outcomes. The schema check, the status list and grapheme counting are parameters.
- Settings.SaveCustomCss: a failed `updateUserCss` is not modelled, since writes do not fail.
- The OAuth client, its lazy construction, the login, callback and logout routes, and the Firehose connection are not modelled. They are glue over library calls.
- The route handlers, startup hooks, migrations and build configuration are not modelled. They are request wiring and setup.
