/**
 * The status timeline. Statuses are listed newest first by `(sortAt, uri)`, twenty to a
 * page; a page that is not the last carries a cursor `sortAt:uri` naming its last status,
 * and the next page holds the statuses strictly below it. Posting a status inserts it
 * locally unless a row with its URI already exists. The current user's and each author's
 * handle fall back to `handle.invalid` when no identity is known.
 *
 * The clock, `toISOString`, grapheme counting, the list of allowed statuses and the outcome
 * of the remote `createRecord` call are inputs.
 */
module Status {
  import opened Wrappers
  import opened Schema
  import Text
  import Decimal
  import Keyset
  import Auth
  import TapIngest

  const PAGE_LIMIT: nat := 20
  const INVALID_HANDLE: string := "handle.invalid"
  const STATUS_COLLECTION: string := "xyz.statusphere.status"

  // ---- cursor codec ----

  datatype Cursor = Cursor(sortAt: int, uri: string)

  datatype CursorError = InvalidCursorFormat

  /** `${sortAt}:${uri}`. The first ':' of a cursor is the one after the number, so a
      URI may itself contain ':'. */
  function EncodeCursor(sortAt: int, uri: string): (r: string)
    ensures Text.SplitFirst(r, ':') == Text.Parts(Decimal.IntToDecimal(sortAt), uri)
  {
    Decimal.DecimalHasNoColon(sortAt);
    Text.SplitFirstJoin(Decimal.IntToDecimal(sortAt), ':', uri);
    Decimal.IntToDecimal(sortAt) + ":" + uri
  }

  /** The cursor schema's transform: split at the FIRST ':', read the integer before it with
      `parseInt`, and require a non-empty URI after it. */
  function DecodeCursor(input: string): (r: Result<Cursor, CursorError>)
    ensures ':' !in input ==> r.Failure?
    ensures r.Success? ==> r.value.uri != []
  {
    match Text.SplitFirst(input, ':')
    case Absent => Failure(InvalidCursorFormat)
    case Parts(before, uri) =>
      var sortAt := Decimal.ParseInt(before);
      if sortAt.None? || uri == [] then Failure(InvalidCursorFormat)
      else Success(Cursor(sortAt.value, uri))
  }

  /** `input` is `p`, free of ':', then ':', then the cursor's URI, and `p` parses to the
      cursor's time. */
  predicate CursorText(input: string, p: string, c: Cursor)
  {
    ':' !in p && input == p + [':'] + c.uri && Decimal.ParseInt(p) == Some(c.sortAt)
  }

  /** Every accepted cursor has that form; `p` is its text before the first ':'. */
  lemma DecodeCursorSound(input: string) returns (p: string)
    requires DecodeCursor(input).Success?
    ensures CursorText(input, p, DecodeCursor(input).value)
  {
    p := Text.SplitFirst(input, ':').before;
  }

  /** The converse: text before the first ':' that parses, then a non-empty URI, is accepted
      as that cursor. A URI may itself contain ':'. */
  lemma DecodeCursorAccepts(p: string, uri: string, n: int)
    requires ':' !in p && uri != [] && Decimal.ParseInt(p) == Some(n)
    ensures DecodeCursor(p + [':'] + uri) == Success(Cursor(n, uri))
  {
    Text.SplitFirstJoin(p, ':', uri);
  }

  /** Decoding an encoded cursor gives back its time and URI, for every integer time and
      every non-empty URI. */
  lemma CursorRoundTrip(sortAt: int, uri: string)
    requires uri != []
    ensures DecodeCursor(EncodeCursor(sortAt, uri)) == Success(Cursor(sortAt, uri))
  {
    Decimal.DecimalHasNoColon(sortAt);
    Decimal.ParseIntOfDecimal(sortAt);
    DecodeCursorAccepts(Decimal.IntToDecimal(sortAt), uri, sortAt);
  }

  /** A cursor with nothing after its first ':' is refused. */
  lemma EmptyUriRejected(p: string)
    requires ':' !in p
    ensures DecodeCursor(p + [':']).Failure?
  {
    Text.SplitFirstJoin(p, ':', []);
    assert p + [':'] == p + [':'] + [];
  }

  /** A cursor whose text before the first ':' is not a number is refused. */
  lemma NonNumericRejected(p: string, uri: string)
    requires ':' !in p && Decimal.ParseInt(p).None?
    ensures DecodeCursor(p + [':'] + uri).Failure?
  {
    Text.SplitFirstJoin(p, ':', uri);
  }

  // ---- paging ----

  /** The sort time of each status, keyed by URI: what the timeline orders. */
  function SortKeys(status: map<string, StatusRow>): (t: Keyset.Table)
    ensures t.Keys == status.Keys
    ensures forall u :: u in t ==> t[u] == status[u].sortAt
  {
    map u | u in status :: status[u].sortAt
  }

  /** The rows the query selects before its limit, in query order: all rows, or those strictly
      below the cursor. */
  ghost function Matching(t: Keyset.Table, c: Option<Cursor>): (s: seq<string>)
    ensures forall i :: 0 <= i < |s| ==> s[i] in t
  {
    var all := Keyset.Listing(t);
    if c.None? then all else Keyset.After(t, all, Keyset.Key(c.value.sortAt, c.value.uri))
  }

  /** The selected rows are in descending order, and with a cursor they are exactly the rows
      strictly below it. */
  lemma MatchingBelowCursor(t: Keyset.Table, c: Option<Cursor>)
    ensures Keyset.Descending(t, Matching(t, c))
    ensures c.Some? ==> forall u :: u in Matching(t, c) <==>
              u in t && Keyset.KeyLess(Keyset.KeyOf(t, u), Keyset.Key(c.value.sortAt, c.value.uri))
  {
    if c.Some? {
      var all := Keyset.Listing(t);
      Keyset.AfterDescending(t, all, Keyset.Key(c.value.sortAt, c.value.uri));
    }
  }

  /** A page of the timeline: the URIs shown, and the cursor for the next page. */
  datatype Page = Page(items: seq<string>, next: Option<string>)

  /** One page: fetch one row more than the limit to learn whether another page follows; if
      so, the cursor names the last row shown. */
  ghost function TimelinePage(t: Keyset.Table, c: Option<Cursor>): (p: Page)
    ensures |p.items| <= PAGE_LIMIT && |p.items| <= |Matching(t, c)|
    ensures forall i :: 0 <= i < |p.items| ==> p.items[i] in t
    ensures p.items == Matching(t, c)[..|p.items|]
    ensures p.next.Some? <==> |Matching(t, c)| > PAGE_LIMIT
    ensures p.next.Some? ==>
              |p.items| == PAGE_LIMIT &&
              p.next.value == EncodeCursor(t[p.items[PAGE_LIMIT - 1]], p.items[PAGE_LIMIT - 1])
    ensures p.next.None? ==> p.items == Matching(t, c)
  {
    var rows := Matching(t, c);
    var fetched := rows[..if |rows| < PAGE_LIMIT + 1 then |rows| else PAGE_LIMIT + 1];
    var hasMore := |fetched| > PAGE_LIMIT;
    var items := if hasMore then fetched[..PAGE_LIMIT] else fetched;
    assert items == rows[..|items|];
    var next := if hasMore && |items| > 0
                then Some(EncodeCursor(t[items[|items| - 1]], items[|items| - 1]))
                else None;
    Page(items, next)
  }

  /** Every key of the table is a non-empty URI. */
  predicate NonEmptyUris(t: Keyset.Table)
  {
    [] !in t
  }

  /** The statuses seen by a client that starts at `c` and follows every returned cursor until
      a page comes back without one. */
  ghost function Crawl(t: Keyset.Table, c: Option<Cursor>): seq<string>
    requires NonEmptyUris(t)
    decreases |Matching(t, c)|
  {
    var p := TimelinePage(t, c);
    if p.next.None? then p.items
    else p.items + Crawl(t, NextCursor(t, c))
  }

  /** The rows matching any cursor are a suffix of the full listing. */
  lemma MatchingIsSuffix(t: Keyset.Table, c: Option<Cursor>) returns (n: nat)
    ensures n <= |Keyset.Listing(t)| && Matching(t, c) == Keyset.Listing(t)[n..]
  {
    n := 0;
    if c.Some? {
      n := Keyset.AfterIsSuffix(t, Keyset.Listing(t), Keyset.Key(c.value.sortAt, c.value.uri));
    }
  }

  /** Resuming below the i-th matching row yields the rows after it. */
  lemma ResumeBelow(t: Keyset.Table, c: Option<Cursor>, i: nat)
    requires i < |Matching(t, c)|
    ensures var u := Matching(t, c)[i];
            Matching(t, Some(Cursor(t[u], u))) == Matching(t, c)[i + 1..]
  {
    var n := MatchingIsSuffix(t, c);
    Keyset.AfterKeyOfInSuffix(t, Keyset.Listing(t), n, i);
  }

  /** The cursor of a full page decodes, and the page it leads to starts right after the
      rows shown. */
  lemma CrawlStep(t: Keyset.Table, c: Option<Cursor>)
    requires NonEmptyUris(t)
    requires TimelinePage(t, c).next.Some?
    ensures var p := TimelinePage(t, c);
            DecodeCursor(p.next.value).Success? &&
            Matching(t, Some(DecodeCursor(p.next.value).value)) == Matching(t, c)[PAGE_LIMIT..]
  {
    var p := TimelinePage(t, c);
    var last := Matching(t, c)[PAGE_LIMIT - 1];
    assert p.next.value == EncodeCursor(t[last], last);
    CursorRoundTrip(t[last], last);
    ResumeBelow(t, c, PAGE_LIMIT - 1);
  }

  /** The cursor the page at `c` returns, decoded. */
  ghost function NextCursor(t: Keyset.Table, c: Option<Cursor>): (c': Option<Cursor>)
    requires NonEmptyUris(t)
    requires TimelinePage(t, c).next.Some?
    ensures Matching(t, c') == Matching(t, c)[PAGE_LIMIT..]
  {
    CrawlStep(t, c);
    Some(DecodeCursor(TimelinePage(t, c).next.value).value)
  }

  /** A crawl that does not stop at `c` shows the first PAGE_LIMIT matching rows, then
      crawls on from the page's cursor. */
  lemma CrawlUnfold(t: Keyset.Table, c: Option<Cursor>)
    requires NonEmptyUris(t)
    requires TimelinePage(t, c).next.Some?
    ensures Crawl(t, c) == Matching(t, c)[..PAGE_LIMIT] + Crawl(t, NextCursor(t, c))
  {
  }

  /** Following cursors from `c` yields exactly the rows matching `c`, in order. */
  lemma {:induction false} CrawlIsMatching(t: Keyset.Table, c: Option<Cursor>)
    requires NonEmptyUris(t)
    ensures Crawl(t, c) == Matching(t, c)
    decreases |Matching(t, c)|
  {
    if TimelinePage(t, c).next.Some? {
      var rows := Matching(t, c);
      var c' := NextCursor(t, c);
      assert Crawl(t, c') == rows[PAGE_LIMIT..] by {
        CrawlIsMatching(t, c');
      }
      assert Crawl(t, c) == rows[..PAGE_LIMIT] + Crawl(t, c') by {
        CrawlUnfold(t, c);
      }
      assert rows == rows[..PAGE_LIMIT] + rows[PAGE_LIMIT..];
    }
  }

  /** For a fixed table, paging from the first page to the last lists every status exactly
      once, newest first. */
  lemma PagingListsEveryRowOnce(t: Keyset.Table)
    requires NonEmptyUris(t)
    ensures var s := Crawl(t, None);
            Keyset.Descending(t, s) &&
            (forall u :: u in t <==> u in s) &&
            (forall i, j :: 0 <= i < j < |s| ==> s[i] != s[j])
  {
    CrawlIsMatching(t, None);
    Keyset.DescendingDistinct(t, Keyset.Listing(t));
  }

  // ---- views ----

  datatype AuthorView = AuthorView(did: string, handle: string, displayName: Option<string>)

  datatype StatusView = StatusView(author: AuthorView, record: StatusRecord, indexedAt: string)

  datatype TimelineResponse = TimelineResponse(cursor: Option<string>, statuses: seq<StatusView>)

  /** The author view of `did`, from the identity and profile rows fetched for the page. */
  function AuthorOf(did: string, identityMap: map<string, IdentityRow>,
                    profileMap: map<string, ProfileRow>): (a: AuthorView)
    ensures a.did == did
    ensures a.handle == (if did in identityMap then identityMap[did].handle else INVALID_HANDLE)
    ensures a.displayName == (if did in profileMap then profileMap[did].displayName else None)
  {
    AuthorView(did,
               if did in identityMap then identityMap[did].handle else INVALID_HANDLE,
               if did in profileMap then profileMap[did].displayName else None)
  }

  /** `v` shows `row`: its record, its sort time as ISO text, and its author with the handle
      from `identity` (or `handle.invalid`) and the display name from `profile`. */
  predicate ShowsRow(v: StatusView, row: StatusRow, identity: map<string, IdentityRow>,
                     profile: map<string, ProfileRow>, toIsoString: int -> string)
  {
    && v.record == row.record && v.indexedAt == toIsoString(row.sortAt)
    && v.author.did == row.authorDid
    && v.author.handle == (if row.authorDid in identity then identity[row.authorDid].handle
                           else INVALID_HANDLE)
    && v.author.displayName == (if row.authorDid in profile then profile[row.authorDid].displayName
                                else None)
  }

  /** The views of a page's rows. Identities and profiles are looked up only for the page's
      distinct authors, which loses none of the authors shown. */
  function PageViews(status: map<string, StatusRow>, items: seq<string>,
                     identity: map<string, IdentityRow>, profile: map<string, ProfileRow>,
                     toIsoString: int -> string)
    : (vs: seq<StatusView>)
    requires forall i :: 0 <= i < |items| ==> items[i] in status
    ensures |vs| == |items|
    ensures forall i :: 0 <= i < |items| ==>
              ShowsRow(vs[i], status[items[i]], identity, profile, toIsoString)
  {
    var dids := set i | 0 <= i < |items| :: status[items[i]].authorDid;
    var identityMap := map d | d in identity && d in dids :: identity[d];
    var profileMap := map d | d in profile && d in dids :: profile[d];
    seq(|items|, i requires 0 <= i < |items| =>
          var row := status[items[i]];
          StatusView(AuthorOf(row.authorDid, identityMap, profileMap), row.record,
                     toIsoString(row.sortAt)))
  }

  /** The cursor a request carries, decoded; None when it carries none. */
  function RequestCursor(cursor: Option<string>): Result<Option<Cursor>, CursorError>
  {
    if cursor.None? then Success(None)
    else match DecodeCursor(cursor.value)
      case Success(c) => Success(Some(c))
      case Failure(e) => Failure(e)
  }

  /** `getTimeline`: decode the cursor, select the page, and show each of its statuses. */
  ghost function GetTimeline(status: map<string, StatusRow>, identity: map<string, IdentityRow>,
                             profile: map<string, ProfileRow>, cursor: Option<string>,
                             toIsoString: int -> string)
    : (r: Result<TimelineResponse, CursorError>)
    ensures r.Failure? <==> cursor.Some? && DecodeCursor(cursor.value).Failure?
    ensures r.Success? ==>
              var p := TimelinePage(SortKeys(status), RequestCursor(cursor).value);
              && r.value.cursor == p.next
              && |r.value.statuses| == |p.items| <= PAGE_LIMIT
              && forall i :: 0 <= i < |p.items| ==>
                   p.items[i] in status &&
                   ShowsRow(r.value.statuses[i], status[p.items[i]], identity, profile, toIsoString)
  {
    match RequestCursor(cursor)
    case Failure(e) => Failure(e)
    case Success(c) =>
      var p := TimelinePage(SortKeys(status), c);
      Success(TimelineResponse(p.next, PageViews(status, p.items, identity, profile, toIsoString)))
  }

  // ---- posting ----

  /** The status table after the local insert of a posted status: a new row keyed by the
      status's AT-URI, sorted at the earlier of its creation and indexing times; an existing
      row with that URI is left alone. */
  function InsertedLocally(status: map<string, StatusRow>, did: string, rkey: string,
                           record: StatusRecord, createdMs: int, now: int)
    : (r: map<string, StatusRow>)
    ensures var uri := TapIngest.ToAtUri(did, STATUS_COLLECTION, rkey);
            && r.Keys == status.Keys + {uri}
            && (forall u :: u in status ==> r[u] == status[u])
            && (uri !in status ==>
                  r[uri].authorDid == did && r[uri].rkey == rkey && r[uri].record == record &&
                  r[uri].indexedAt == now &&
                  r[uri].sortAt <= createdMs && r[uri].sortAt <= now &&
                  (r[uri].sortAt == createdMs || r[uri].sortAt == now))
  {
    var uri := TapIngest.ToAtUri(did, STATUS_COLLECTION, rkey);
    if uri in status then status
    else status[uri := StatusRow(did, rkey, record, if createdMs < now then createdMs else now, now)]
  }

  /** The local insert is idempotent: a second insert of the same status changes nothing, at
      any later time. */
  lemma InsertLocallyIdempotent(status: map<string, StatusRow>, did: string, rkey: string,
                                record: StatusRecord, createdMs: int, now: int, later: int)
    ensures var once := InsertedLocally(status, did, rkey, record, createdMs, now);
            InsertedLocally(once, did, rkey, record, createdMs, later) == once
  {
  }

  /** What the status form handler can end in. */
  datatype PostOutcome =
    | Posted
    | InvalidInput
    | AuthFailed(failure: Auth.AuthFailure)
    | InvalidStatus
    | CouldNotPost

  /** The form's constraints on the status text: 1 to 32 UTF-16 units, one grapheme. */
  predicate ValidStatusInput(status: string, graphemes: string -> nat)
  {
    1 <= Text.Utf16Length(status) <= 32 && graphemes(status) <= 1
  }

  /** `postStatus`: validate the form, require a session, check the status against the allowed
      list, create the record remotely, and on success insert it locally. `rkey` is the fresh
      TID, `createdAt` the ISO text of the creation time and `createdMs` that time in
      milliseconds. */
  method PostStatus(ev: Auth.RequestEvent, deps: Auth.AuthDeps, db: Database, status: string,
                    graphemes: string -> nat, statusOptions: seq<string>, createRecordOk: bool,
                    rkey: string, createdAt: string, createdMs: int, now: int)
    returns (r: PostOutcome)
    modifies ev, db`status
    ensures !ValidStatusInput(status, graphemes) ==>
              r == InvalidInput && unchanged(ev) && db.status == old(db.status)
    ensures ValidStatusInput(status, graphemes) ==>
              var a := Auth.Authenticate(old(ev.auth), deps, old(ev.cookies));
              && ev.auth == (if a.Success? then Some(a.value) else None)
              && ev.cookies == Auth.CookiesAfter(old(ev.auth), deps, old(ev.cookies))
              && (r.AuthFailed? <==> a.Failure?)
              && (r.AuthFailed? ==> r.failure == a.error)
              && (r == InvalidStatus <==> a.Success? && status !in statusOptions)
              && (r == CouldNotPost <==> a.Success? && status in statusOptions && !createRecordOk)
              && (r == Posted <==> a.Success? && status in statusOptions && createRecordOk)
    ensures r == Posted ==>
              var did := Auth.Authenticate(old(ev.auth), deps, old(ev.cookies)).value.session.did;
              db.status == InsertedLocally(old(db.status), did, rkey,
                                           StatusRecord(STATUS_COLLECTION, createdAt, status),
                                           createdMs, now)
    ensures r != Posted ==> db.status == old(db.status)
  {
    if !ValidStatusInput(status, graphemes) {
      return InvalidInput;
    }
    var auth := Auth.RequireAuth(ev, deps);
    if auth.Failure? {
      return AuthFailed(auth.error);
    }
    var did := auth.value.session.did;
    if status !in statusOptions {
      return InvalidStatus;
    }
    var record := StatusRecord(STATUS_COLLECTION, createdAt, status);
    if !createRecordOk {
      return CouldNotPost;
    }
    var uri := TapIngest.ToAtUri(did, STATUS_COLLECTION, rkey);
    var indexedAt := now;
    var sortAt := if createdMs < indexedAt then createdMs else indexedAt;
    ghost var inserted := InsertedLocally(db.status, did, rkey, record, createdMs, now);
    if uri !in db.status {
      db.status := db.status[uri := StatusRow(did, rkey, record, sortAt, indexedAt)];
    }
    assert db.status == inserted;
    r := Posted;
  }

  // ---- current user ----

  datatype CurrentUser = CurrentUser(did: string, handle: string, displayName: Option<string>)

  /** `getCurrentUser`: null when `requireAuth` fails for any reason, else the DID with its
      handle (or `handle.invalid`) and display name. The request is left as `requireAuth`
      leaves it. */
  method GetCurrentUser(ev: Auth.RequestEvent, deps: Auth.AuthDeps,
                        identity: map<string, IdentityRow>, profile: map<string, ProfileRow>)
    returns (r: Option<CurrentUser>)
    modifies ev
    ensures var a := Auth.Authenticate(old(ev.auth), deps, old(ev.cookies));
            && ev.auth == (if a.Success? then Some(a.value) else None)
            && ev.cookies == Auth.CookiesAfter(old(ev.auth), deps, old(ev.cookies))
            && (r.None? <==> a.Failure?)
    ensures r.Some? ==>
              var did := Auth.Authenticate(old(ev.auth), deps, old(ev.cookies)).value.session.did;
              r.value == CurrentUser(did,
                                     if did in identity then identity[did].handle else INVALID_HANDLE,
                                     if did in profile then profile[did].displayName else None)
  {
    var auth := Auth.RequireAuth(ev, deps);
    if auth.Failure? {
      return None;
    }
    var did := auth.value.session.did;
    var handle := if did in identity then identity[did].handle else INVALID_HANDLE;
    var displayName := if did in profile then profile[did].displayName else None;
    r := Some(CurrentUser(did, handle, displayName));
  }
}
