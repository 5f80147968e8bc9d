/**
 * Firehose ingestion. Of the events the relay delivers, only post events of registered users
 * reach the posts table: a delete removes the row for the post's AT-URI, a create or update
 * whose record passes schema validation is upserted. On conflict the upsert rewrites the
 * record and the fields derived from it, but keeps the row's author, cid, rkey and creation
 * time from the first insert.
 *
 * Record validation, date parsing and the clock are parameters.
 */
module TapIngest {
  import opened Wrappers
  import opened Schema
  import Text

  const POST_COLLECTION: string := "app.bsky.feed.post"
  const PROFILE_COLLECTION: string := "app.bsky.actor.profile"
  const IMAGES_EMBED: string := "app.bsky.embed.images"

  /** `at://did/collection/rkey`. */
  function ToAtUri(did: string, collection: string, rkey: string): (r: string)
    ensures |r| == 5 + |did| + 1 + |collection| + 1 + |rkey|
    ensures r[..5] == "at://" && r[5..5 + |did|] == did && r[5 + |did|] == '/'
    ensures r[|r| - |rkey|..] == rkey && r[|r| - |rkey| - 1] == '/'
  {
    "at://" + did + "/" + collection + "/" + rkey
  }

  /** For a DID without '/', an AT-URI of a given collection determines its DID and rkey:
      distinct posts never share a row. */
  lemma ToAtUriInjective(d1: string, d2: string, c: string, k1: string, k2: string)
    requires '/' !in d1 && '/' !in d2
    requires ToAtUri(d1, c, k1) == ToAtUri(d2, c, k2)
    ensures d1 == d2 && k1 == k2
  {
    var s1, s2 := ToAtUri(d1, c, k1), ToAtUri(d2, c, k2);
    assert s1[5..] == d1 + ['/'] + (c + "/" + k1);
    assert s2[5..] == d2 + ['/'] + (c + "/" + k2);
    Text.IndexOfJoin(d1, '/', c + "/" + k1);
    Text.IndexOfJoin(d2, '/', c + "/" + k2);
    assert d1 == s1[5..5 + |d1|];
    assert k1 == s1[|s1| - |k1|..];
  }

  datatype Action = Create | Update | Delete

  /** A record as it arrives on the wire, before validation. */
  datatype RawRecord = RawRecord(json: string)

  /** The relay's events: identity changes, and record operations on a repository. Deletes
      carry no record. */
  datatype TapEvent =
    | IdentityEvent(did: string, handle: string)
    | RecordEvent(did: string, collection: string, rkey: string, action: Action, cid: string,
                  record: Option<RawRecord>)

  /** Lexicon validation of a post record (None when it fails) and `Date.parse` (None for
      NaN). */
  datatype IngestDeps = IngestDeps(
    validate: Option<RawRecord> -> Option<PostRecord>,
    parseDate: string -> Option<int>)

  /** The event is one the ingester acts on: a post event of a registered user. Identity
      and profile events never are. */
  predicate Relevant(users: map<string, UserRow>, e: TapEvent): (b: bool)
    ensures b <==> e.RecordEvent? && e.collection == POST_COLLECTION && e.did in users
    ensures e.IdentityEvent? || e.collection == PROFILE_COLLECTION ==> !b
  {
    e.RecordEvent? && e.collection != PROFILE_COLLECTION && e.collection == POST_COLLECTION &&
    e.did in users
  }

  /** The fields an upsert derives from a validated record. */
  predicate DerivedFrom(row: PostRow, rec: PostRecord)
  {
    && row.record == rec
    && row.text == TextOrEmpty(rec)
    && row.hasImages == (rec.embed.Some? && rec.embed.value.embedType == IMAGES_EMBED)
    && row.hasEmbed == rec.embed.Some?
    && row.embedData == (if rec.embed.Some? then Some(EmbedObject(rec.embed.value)) else None)
  }

  /** `record.embed?.$type === 'app.bsky.embed.images'`. */
  predicate HasImagesEmbed(rec: PostRecord)
  {
    rec.embed.Some? && rec.embed.value.embedType == IMAGES_EMBED
  }

  /** `record.embed || null`: the embed object itself. */
  function StoredEmbed(rec: PostRecord): Option<EmbedData>
  {
    if rec.embed.Some? then Some(EmbedObject(rec.embed.value)) else None
  }

  /** The row inserted for a new post. */
  function InsertedRow(e: TapEvent, rec: PostRecord, deps: IngestDeps, now: int): (row: PostRow)
    requires e.RecordEvent?
    ensures DerivedFrom(row, rec) && row.indexedAt == now
    ensures row.userDid == e.did && row.cid == e.cid && row.rkey == e.rkey
    ensures deps.parseDate(rec.createdAt).Some? ==> row.createdAt == deps.parseDate(rec.createdAt).value
    ensures deps.parseDate(rec.createdAt).None? ==> row.createdAt == now
  {
    var created := deps.parseDate(rec.createdAt);
    PostRow(
      userDid := e.did,
      cid := e.cid,
      rkey := e.rkey,
      record := rec,
      text := TextOrEmpty(rec),
      hasImages := HasImagesEmbed(rec),
      hasEmbed := rec.embed.Some?,
      embedData := StoredEmbed(rec),
      createdAt := if created.Some? then created.value else now,
      indexedAt := now)
  }

  /** The row after the conflict branch of the upsert rewrites an existing one. */
  function ConflictRow(prev: PostRow, rec: PostRecord, now: int): (row: PostRow)
    ensures DerivedFrom(row, rec) && row.indexedAt == now
    ensures row.userDid == prev.userDid && row.cid == prev.cid
    ensures row.rkey == prev.rkey && row.createdAt == prev.createdAt
  {
    prev.(record := rec, text := TextOrEmpty(rec), hasImages := HasImagesEmbed(rec),
          hasEmbed := rec.embed.Some?, embedData := StoredEmbed(rec), indexedAt := now)
  }

  /** The posts table after ingesting one event at time `now`. */
  function Ingested(posts: map<string, PostRow>, users: map<string, UserRow>, e: TapEvent,
                    deps: IngestDeps, now: int): (r: map<string, PostRow>)
    ensures !Relevant(users, e) ==> r == posts
    ensures Relevant(users, e) && e.action == Delete ==>
              r == posts - {ToAtUri(e.did, e.collection, e.rkey)}
    ensures Relevant(users, e) && e.action != Delete && deps.validate(e.record).None? ==> r == posts
    ensures Relevant(users, e) && e.action != Delete && deps.validate(e.record).Some? ==>
              var uri := ToAtUri(e.did, e.collection, e.rkey);
              var rec := deps.validate(e.record).value;
              && r.Keys == posts.Keys + {uri}
              && (forall u :: u in posts && u != uri ==> r[u] == posts[u])
              && DerivedFrom(r[uri], rec) && r[uri].indexedAt == now
              && (uri !in posts ==> r[uri] == InsertedRow(e, rec, deps, now))
              && (uri in posts ==> r[uri] == ConflictRow(posts[uri], rec, now))
  {
    if !Relevant(users, e) then posts
    else
      var uri := ToAtUri(e.did, e.collection, e.rkey);
      if e.action == Delete then posts - {uri}
      else
        match deps.validate(e.record)
        case None => posts
        case Some(rec) =>
          if uri in posts then posts[uri := ConflictRow(posts[uri], rec, now)]
          else posts[uri := InsertedRow(e, rec, deps, now)]
  }

  /** `ingestTapEvent`: the same steps, on the posts table in place. */
  method IngestTapEvent(db: Database, e: TapEvent, deps: IngestDeps, now: int)
    modifies db`posts
    ensures db.posts == Ingested(old(db.posts), db.users, e, deps, now)
  {
    if e.IdentityEvent? || e.collection == PROFILE_COLLECTION {
      return;
    }
    if e.collection == POST_COLLECTION {
      if e.did !in db.users {
        return;
      }
      var uri := ToAtUri(e.did, e.collection, e.rkey);
      if e.action == Delete {
        db.posts := db.posts - {uri};
        return;
      }
      var parsed := deps.validate(e.record);
      if parsed.None? {
        return;
      }
      var rec := parsed.value;
      if uri in db.posts {
        db.posts := db.posts[uri := ConflictRow(db.posts[uri], rec, now)];
      } else {
        db.posts := db.posts[uri := InsertedRow(e, rec, deps, now)];
      }
    }
  }

  /** A delete is idempotent: ingesting it twice is ingesting it once. */
  lemma DeleteIdempotent(posts: map<string, PostRow>, users: map<string, UserRow>, e: TapEvent,
                         deps: IngestDeps, now1: int, now2: int)
    requires e.RecordEvent? && e.action == Delete
    ensures Ingested(Ingested(posts, users, e, deps, now1), users, e, deps, now2)
            == Ingested(posts, users, e, deps, now1)
  {
  }

  /** Replaying an accepted create or update leaves the same row except for `indexedAt`, and
      the rest of the table as it was. */
  lemma ReplayOnlyReindexes(posts: map<string, PostRow>, users: map<string, UserRow>,
                            e: TapEvent, deps: IngestDeps, now1: int, now2: int)
    requires Relevant(users, e) && e.action != Delete && deps.validate(e.record).Some?
    ensures var once := Ingested(posts, users, e, deps, now1);
            var uri := ToAtUri(e.did, e.collection, e.rkey);
            Ingested(once, users, e, deps, now2) == once[uri := once[uri].(indexedAt := now2)]
  {
  }

  /** An update that follows a create keeps the cid of the create: the row goes on naming the
      first version of the record while holding the content of the second. */
  lemma UpdateKeepsFirstCid(posts: map<string, PostRow>, users: map<string, UserRow>,
                            e1: TapEvent, e2: TapEvent, deps: IngestDeps, now1: int, now2: int)
    requires Relevant(users, e1) && e1.action == Create && deps.validate(e1.record).Some?
    requires e2.RecordEvent? && e2.action == Update
    requires e2.did == e1.did && e2.collection == e1.collection && e2.rkey == e1.rkey
    requires deps.validate(e2.record).Some?
    ensures var uri := ToAtUri(e1.did, e1.collection, e1.rkey);
            var after := Ingested(Ingested(posts, users, e1, deps, now1), users, e2, deps, now2);
            && after[uri].record == deps.validate(e2.record).value
            && (uri !in posts ==> after[uri].cid == e1.cid)
  {
  }
}
