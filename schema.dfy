/**
 * Row shapes of the store's tables and the store itself. Every table is a map from its
 * primary key to the rest of its row; `Database` holds one map per table, and the
 * operations that write a table name exactly that field in their frame.
 */
module Schema {
  import opened Wrappers

  /** `users`: keyed by DID. Times are milliseconds since the epoch. */
  datatype UserRow = UserRow(
    did: string,
    handle: string,
    customCss: Option<string>,
    themeName: Option<string>,
    createdAt: int,
    updatedAt: int)

  /** A post embed: its `$type` and the rest of the object, kept opaque. */
  datatype Embed = Embed(embedType: string, body: string)

  /** What `embed_data` holds: the embed object itself (written by the ingester), or the
      JSON text of the embed stored as a JSON string (written by the API sync). */
  datatype EmbedData = EmbedObject(embed: Embed) | EmbedJsonText(ofEmbed: Embed)

  /** An `app.bsky.feed.post` record. `text` is absent on records that were never
      validated against the lexicon. */
  datatype PostRecord = PostRecord(
    recordType: string,
    text: Option<string>,
    createdAt: string,
    embed: Option<Embed>)

  /** `record.text || ''`: the text, or the empty string when it is absent. */
  function TextOrEmpty(rec: PostRecord): (t: string)
    ensures rec.text.Some? ==> t == rec.text.value
    ensures rec.text.None? ==> t == ""
  {
    match rec.text
    case Some(s) => s
    case None => ""
  }

  /** `posts`: keyed by AT-URI. */
  datatype PostRow = PostRow(
    userDid: string,
    cid: string,
    rkey: string,
    record: PostRecord,
    text: string,
    hasImages: bool,
    hasEmbed: bool,
    embedData: Option<EmbedData>,
    createdAt: int,
    indexedAt: int)

  /** An `xyz.statusphere.status` record. */
  datatype StatusRecord = StatusRecord(recordType: string, createdAt: string, status: string)

  /** `status`: keyed by AT-URI. */
  datatype StatusRow = StatusRow(
    authorDid: string,
    rkey: string,
    record: StatusRecord,
    sortAt: int,
    indexedAt: int)

  /** `identity`: keyed by DID. */
  datatype IdentityRow = IdentityRow(handle: string)

  /** `profile`: keyed by DID; only the display name of the profile record matters here. */
  datatype ProfileRow = ProfileRow(displayName: Option<string>)

  /** The OAuth library's PKCE flow state; opaque apart from its expiry time. */
  datatype StoredState = StoredState(flow: string, expiresAt: int)

  /** The OAuth library's stored session; opaque. */
  datatype StoredSession = StoredSession(tokens: string)

  /** `oauth_state`: keyed by state key. */
  datatype StateRow = StateRow(state: StoredState, expiresAt: int)

  /** `oauth_session`: keyed by DID. */
  datatype SessionRow = SessionRow(session: StoredSession, updatedAt: int)

  /** The SQLite database: one map per table, keyed by the table's primary key. */
  class Database {
    var users: map<string, UserRow>
    var posts: map<string, PostRow>
    var status: map<string, StatusRow>
    var identity: map<string, IdentityRow>
    var profile: map<string, ProfileRow>
    var oauthState: map<string, StateRow>
    var oauthSession: map<string, SessionRow>

    constructor ()
      ensures users == map[] && posts == map[] && status == map[]
      ensures identity == map[] && profile == map[]
      ensures oauthState == map[] && oauthSession == map[]
    {
      users := map[];
      posts := map[];
      status := map[];
      identity := map[];
      profile := map[];
      oauthState := map[];
      oauthSession := map[];
    }
  }
}
