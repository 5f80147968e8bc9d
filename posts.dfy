/**
 * The post cache filled from the API: saving a post reads its row and then updates it in
 * place or inserts it, a sync saves the user's own posts out of a fetched author feed, and
 * the queries list a user's posts newest first or fetch one by AT-URI.
 *
 * The fetched feed, date parsing and the clock are inputs.
 */
module Posts {
  import opened Wrappers
  import opened Schema
  import Text
  import Keyset
  import TapIngest

  const IMAGES_EMBED: string := "app.bsky.embed.images"
  const RECORD_WITH_MEDIA_EMBED: string := "app.bsky.embed.recordWithMedia"
  const POST_TYPE: string := "app.bsky.feed.post"

  type PostTable = map<string, PostRow>

  /** `uri.split('/').pop() || ''`: the text after the last '/', or the whole URI when it has
      none. */
  function RkeyOf(uri: string): (r: string)
    ensures '/' !in r
    ensures |r| <= |uri| && r == uri[|uri| - |r|..]
    ensures '/' !in uri ==> r == uri
    ensures r != uri ==> uri[|uri| - |r| - 1] == '/'
  {
    uri[Text.LastIndexOf(uri, '/') + 1..]
  }

  /** The rkey a save derives from an AT-URI is the rkey the URI was built from. */
  lemma RkeyOfAtUri(did: string, collection: string, rkey: string)
    requires '/' !in rkey
    ensures RkeyOf(TapIngest.ToAtUri(did, collection, rkey)) == rkey
  {
    var prefix := "at://" + did + "/" + collection;
    assert TapIngest.ToAtUri(did, collection, rkey) == prefix + ['/'] + rkey;
    Text.LastIndexOfJoin(prefix, '/', rkey);
  }

  /** An images embed, directly or together with a quoted record. */
  predicate HasImages(rec: PostRecord)
  {
    rec.embed.Some? &&
    (rec.embed.value.embedType == IMAGES_EMBED || rec.embed.value.embedType == RECORD_WITH_MEDIA_EMBED)
  }

  /** `JSON.stringify(record.embed)` or null. */
  function SerialisedEmbed(rec: PostRecord): (r: Option<EmbedData>)
    ensures r.Some? <==> rec.embed.Some?
    ensures r.Some? ==> r.value == EmbedJsonText(rec.embed.value)
  {
    if rec.embed.Some? then Some(EmbedJsonText(rec.embed.value)) else None
  }

  /** The table after `savePost`, or None when the write fails: a new row whose creation date
      does not parse would store NaN, which the database client refuses. */
  function Saved(posts: PostTable, userDid: string, uri: string, cid: string, rec: PostRecord,
                 parseDate: string -> Option<int>, now: int): (r: Option<PostTable>)
    ensures r.None? <==> uri !in posts && parseDate(rec.createdAt).None?
    ensures r.Some? ==>
              && r.value.Keys == posts.Keys + {uri}
              && (forall u :: u in posts && u != uri ==> r.value[u] == posts[u])
              && var row := r.value[uri];
              && row.cid == cid && row.record == rec && row.text == TextOrEmpty(rec)
              && row.hasImages == HasImages(rec) && row.hasEmbed == rec.embed.Some?
              && row.embedData == SerialisedEmbed(rec) && row.indexedAt == now
              && (uri in posts ==>
                    row.userDid == posts[uri].userDid && row.rkey == posts[uri].rkey &&
                    row.createdAt == posts[uri].createdAt)
              && (uri !in posts ==>
                    row.userDid == userDid && row.rkey == RkeyOf(uri) &&
                    row.createdAt == parseDate(rec.createdAt).value)
  {
    if uri in posts then
      Some(posts[uri := posts[uri].(cid := cid, record := rec, text := TextOrEmpty(rec),
                                    hasImages := HasImages(rec), hasEmbed := rec.embed.Some?,
                                    embedData := SerialisedEmbed(rec), indexedAt := now)])
    else
      match parseDate(rec.createdAt)
      case None => None
      case Some(createdAt) =>
        Some(posts[uri := PostRow(userDid, cid, RkeyOf(uri), rec, TextOrEmpty(rec), HasImages(rec),
                                  rec.embed.Some?, SerialisedEmbed(rec), createdAt, now)])
  }

  /** `savePost`: read the row, then update it or insert a new one. */
  method SavePost(db: Database, userDid: string, uri: string, cid: string, rec: PostRecord,
                  parseDate: string -> Option<int>, now: int) returns (ok: bool)
    modifies db`posts
    ensures ok <==> Saved(old(db.posts), userDid, uri, cid, rec, parseDate, now).Some?
    ensures ok ==> db.posts == Saved(old(db.posts), userDid, uri, cid, rec, parseDate, now).value
    ensures !ok ==> db.posts == old(db.posts)
  {
    var text := TextOrEmpty(rec);
    var hasImages := HasImages(rec);
    var hasEmbed := rec.embed.Some?;
    var embedData := SerialisedEmbed(rec);
    var createdAt := parseDate(rec.createdAt);
    var rkey := RkeyOf(uri);
    ghost var saved := Saved(db.posts, userDid, uri, cid, rec, parseDate, now);
    if uri in db.posts {
      var existing := db.posts[uri];
      var row := existing.(cid := cid, record := rec, text := text, hasImages := hasImages,
                           hasEmbed := hasEmbed, embedData := embedData, indexedAt := now);
      assert saved == Some(db.posts[uri := row]);
      db.posts := db.posts[uri := row];
      ok := true;
    } else {
      match createdAt
      case None =>
        ok := false;
      case Some(at) =>
        var row := PostRow(userDid, cid, rkey, rec, text, hasImages, hasEmbed, embedData, at, now);
        assert saved == Some(db.posts[uri := row]);
        db.posts := db.posts[uri := row];
        ok := true;
    }
  }

  /** An item of the fetched author feed. */
  datatype FeedItem = FeedItem(uri: string, cid: string, authorDid: string, record: PostRecord)

  /** The feed items a sync saves: the user's own posts, not reposts or other records. */
  predicate Selected(item: FeedItem, did: string)
  {
    item.authorDid == did && item.record.recordType == POST_TYPE
  }

  function CountSelected(feed: seq<FeedItem>, did: string): (n: nat)
    ensures n <= |feed|
    decreases |feed|
  {
    if feed == [] then 0
    else CountSelected(feed[..|feed| - 1], did) + (if Selected(feed[|feed| - 1], did) then 1 else 0)
  }

  /** The table after saving the selected items of `feed` in feed order, the save of the i-th
      item at `clock(i)`; None once a save fails. */
  function SaveAll(posts: PostTable, did: string, feed: seq<FeedItem>,
                   parseDate: string -> Option<int>, clock: nat -> int): Option<PostTable>
    decreases |feed|
  {
    if feed == [] then Some(posts)
    else
      var n := |feed| - 1;
      match SaveAll(posts, did, feed[..n], parseDate, clock)
      case None => None
      case Some(p) =>
        var item := feed[n];
        if Selected(item, did) then Saved(p, did, item.uri, item.cid, item.record, parseDate, clock(n))
        else Some(p)
  }

  /** `syncUserPosts`: saves every selected item in order and counts the saves; a failed save
      ends the sync with its exception, leaving the earlier saves in place. */
  method SyncUserPosts(db: Database, did: string, feed: seq<FeedItem>,
                       parseDate: string -> Option<int>, clock: nat -> int)
    returns (r: Option<nat>)
    modifies db`posts
    ensures r.Some? <==> SaveAll(old(db.posts), did, feed, parseDate, clock).Some?
    ensures r.Some? ==>
              r.value == CountSelected(feed, did) &&
              db.posts == SaveAll(old(db.posts), did, feed, parseDate, clock).value
    ensures r.None? ==>
              exists k :: 0 <= k < |feed| &&
                          SaveAll(old(db.posts), did, feed[..k], parseDate, clock) == Some(db.posts) &&
                          SaveAll(old(db.posts), did, feed[..k + 1], parseDate, clock).None?
  {
    var syncedCount := 0;
    var i := 0;
    while i < |feed|
      invariant 0 <= i <= |feed|
      invariant SaveAll(old(db.posts), did, feed[..i], parseDate, clock) == Some(db.posts)
      invariant syncedCount == CountSelected(feed[..i], did)
    {
      var item := feed[i];
      assert feed[..i + 1][..i] == feed[..i];
      if item.authorDid == did {
        if item.record.recordType == POST_TYPE {
          var ok := SavePost(db, did, item.uri, item.cid, item.record, parseDate, clock(i));
          if !ok {
            SaveAllStaysFailed(old(db.posts), did, feed, parseDate, clock, i + 1);
            assert SaveAll(old(db.posts), did, feed[..i + 1], parseDate, clock).None?;
            return None;
          }
          syncedCount := syncedCount + 1;
        }
      }
      i := i + 1;
    }
    assert feed[..i] == feed;
    r := Some(syncedCount);
  }

  /** Once a save has failed, saving more items does not recover. */
  lemma {:induction false} SaveAllStaysFailed(posts: PostTable, did: string, feed: seq<FeedItem>,
                                              parseDate: string -> Option<int>, clock: nat -> int,
                                              k: nat)
    requires k <= |feed| && SaveAll(posts, did, feed[..k], parseDate, clock).None?
    ensures SaveAll(posts, did, feed, parseDate, clock).None?
    decreases |feed| - k
  {
    if k < |feed| {
      assert feed[..k + 1][..k] == feed[..k];
      SaveAllStaysFailed(posts, did, feed, parseDate, clock, k + 1);
    } else {
      assert feed[..k] == feed;
    }
  }

  /** A sync writes only rows named by selected items: every other row is left as it was. */
  lemma {:induction false} SaveAllTouchesOnlySelected(posts: PostTable, did: string,
                                                      feed: seq<FeedItem>,
                                                      parseDate: string -> Option<int>,
                                                      clock: nat -> int, u: string)
    requires SaveAll(posts, did, feed, parseDate, clock).Some?
    requires forall i :: 0 <= i < |feed| && Selected(feed[i], did) ==> feed[i].uri != u
    ensures var p := SaveAll(posts, did, feed, parseDate, clock).value;
            (u in p <==> u in posts) && (u in posts ==> p[u] == posts[u])
  {
    if feed != [] {
      var n := |feed| - 1;
      SaveAllTouchesOnlySelected(posts, did, feed[..n], parseDate, clock, u);
    }
  }

  /** A row together with its key, as a select returns it. */
  datatype PostEntry = PostEntry(uri: string, row: PostRow)

  /** The creation times of `did`'s posts, keyed by URI: the rows the user query orders. */
  function OwnedBy(posts: PostTable, did: string): (t: Keyset.Table)
    ensures forall u :: u in t <==> u in posts && posts[u].userDid == did
    ensures forall u :: u in t ==> t[u] == posts[u].createdAt
  {
    map u | u in posts && posts[u].userDid == did :: posts[u].createdAt
  }

  /** `getUserPosts`: `did`'s posts, newest first, at most `limit` of them. Rows with equal
      creation times come in descending URI order here; the store leaves that order open. */
  ghost function GetUserPosts(posts: PostTable, did: string, limit: nat): (r: seq<PostEntry>)
    ensures |r| <= limit
    ensures forall i :: 0 <= i < |r| ==>
              r[i].uri in posts && r[i].row == posts[r[i].uri] && r[i].row.userDid == did
    ensures forall i, j :: 0 <= i < j < |r| ==> r[j].row.createdAt <= r[i].row.createdAt
    ensures forall i, j :: 0 <= i < j < |r| ==> r[i].uri != r[j].uri
    ensures |r| < limit ==>
              forall u :: u in posts && posts[u].userDid == did ==>
                exists i :: 0 <= i < |r| && r[i].uri == u
    ensures forall u, i :: u in posts && posts[u].userDid == did && 0 <= i < |r| &&
                           (forall j :: 0 <= j < |r| ==> r[j].uri != u) ==>
                             posts[u].createdAt <= r[i].row.createdAt
  {
    var t := OwnedBy(posts, did);
    var s := Keyset.Listing(t);
    var k := if |s| < limit then |s| else limit;
    var r := seq(k, i requires 0 <= i < k => PostEntry(s[i], posts[s[i]]));
    UserPostsAreTop(posts, did, s, r, limit);
    r
  }

  /** The entries built from a prefix of the descending listing of `did`'s posts are that
      user's newest posts, in order, without repeats. */
  lemma UserPostsAreTop(posts: PostTable, did: string, s: seq<string>, r: seq<PostEntry>,
                        limit: nat)
    requires Keyset.Descending(OwnedBy(posts, did), s)
    requires forall u :: u in OwnedBy(posts, did) <==> u in s
    requires |r| == (if |s| < limit then |s| else limit)
    requires forall i :: 0 <= i < |r| ==> r[i] == PostEntry(s[i], posts[s[i]])
    ensures |r| <= limit
    ensures forall i :: 0 <= i < |r| ==>
              r[i].uri in posts && r[i].row == posts[r[i].uri] && r[i].row.userDid == did
    ensures forall i, j :: 0 <= i < j < |r| ==> r[j].row.createdAt <= r[i].row.createdAt
    ensures forall i, j :: 0 <= i < j < |r| ==> r[i].uri != r[j].uri
    ensures |r| < limit ==>
              forall u :: u in posts && posts[u].userDid == did ==>
                exists i :: 0 <= i < |r| && r[i].uri == u
    ensures forall u, i :: u in posts && posts[u].userDid == did && 0 <= i < |r| &&
                           (forall j :: 0 <= j < |r| ==> r[j].uri != u) ==>
                             posts[u].createdAt <= r[i].row.createdAt
  {
    var t := OwnedBy(posts, did);
    Keyset.DescendingDistinct(t, s);
    forall i, j | 0 <= i < j < |r| ensures r[j].row.createdAt <= r[i].row.createdAt {
      assert Keyset.KeyLess(Keyset.KeyOf(t, s[j]), Keyset.KeyOf(t, s[i]));
    }
    forall u | u in posts && posts[u].userDid == did && |r| < limit
      ensures exists i :: 0 <= i < |r| && r[i].uri == u
    {
      var p :| 0 <= p < |s| && s[p] == u;
      assert r[p].uri == u;
    }
    forall u, i | u in posts && posts[u].userDid == did && 0 <= i < |r| &&
                  (forall j :: 0 <= j < |r| ==> r[j].uri != u)
      ensures posts[u].createdAt <= r[i].row.createdAt
    {
      var p :| 0 <= p < |s| && s[p] == u;
      assert p >= |r|;
      assert Keyset.KeyLess(Keyset.KeyOf(t, s[p]), Keyset.KeyOf(t, s[i]));
    }
  }

  function GetPostByUri(posts: PostTable, uri: string): (r: Option<PostRow>)
    ensures r.Some? <==> uri in posts
    ensures r.Some? ==> r.value == posts[uri]
  {
    if uri in posts then Some(posts[uri]) else None
  }

  /** `deletePost`: removes the row for the URI, if any, and nothing else. */
  method DeletePost(db: Database, uri: string)
    modifies db`posts
    ensures db.posts == old(db.posts) - {uri}
  {
    db.posts := db.posts - {uri};
  }
}
