/**
 * The data of a public user page: the user found by handle and that user's newest cached
 * posts, each reduced to the fields the page renders.
 */
module UserPage {
  import opened Wrappers
  import opened Schema
  import Users
  import Posts

  /** How many posts a user page shows. */
  const PAGE_POSTS: nat := 50

  datatype UserView = UserView(did: string, handle: string, customCss: Option<string>)

  datatype PostView = PostView(
    uri: string,
    cid: string,
    text: string,
    createdAt: int,
    hasImages: bool,
    hasEmbed: bool,
    embedData: Option<EmbedData>)

  datatype UserPageData = UserPageData(user: Option<UserView>, posts: seq<PostView>)

  /** The view of a stored post: its key and the rendered fields of its row. */
  predicate ViewOf(v: PostView, uri: string, row: PostRow)
  {
    v == PostView(uri, row.cid, row.text, row.createdAt, row.hasImages, row.hasEmbed, row.embedData)
  }

  function ToPostView(e: Posts.PostEntry): (v: PostView)
    ensures ViewOf(v, e.uri, e.row)
  {
    PostView(e.uri, e.row.cid, e.row.text, e.row.createdAt, e.row.hasImages, e.row.hasEmbed,
             e.row.embedData)
  }

  /** `getUserPageData`. */
  ghost function GetUserPageData(users: Users.UserTable, posts: Posts.PostTable, handle: string)
    : (r: UserPageData)
    ensures r.user.None? <==> forall d :: d in users ==> users[d].handle != handle
    ensures r.user.None? ==> r.posts == []
    ensures r.user.Some? ==>
              r.user.value.handle == handle &&
              exists d :: d in users &&
                          r.user.value == UserView(users[d].did, users[d].handle, users[d].customCss)
    ensures r.user.Some? ==>
              && |r.posts| <= PAGE_POSTS
              && (forall i :: 0 <= i < |r.posts| ==>
                    r.posts[i].uri in posts && ViewOf(r.posts[i], r.posts[i].uri, posts[r.posts[i].uri]) &&
                    posts[r.posts[i].uri].userDid == r.user.value.did)
              && (forall i, j :: 0 <= i < j < |r.posts| ==> r.posts[j].createdAt <= r.posts[i].createdAt)
    ensures r.user.Some? ==>
              && (forall i, j :: 0 <= i < j < |r.posts| ==> r.posts[i].uri != r.posts[j].uri)
              && (|r.posts| < PAGE_POSTS ==>
                    forall u :: u in posts && posts[u].userDid == r.user.value.did ==>
                      exists i :: 0 <= i < |r.posts| && r.posts[i].uri == u)
              && (forall u, i :: u in posts && posts[u].userDid == r.user.value.did &&
                                 0 <= i < |r.posts| &&
                                 (forall j :: 0 <= j < |r.posts| ==> r.posts[j].uri != u) ==>
                                   posts[u].createdAt <= r.posts[i].createdAt)
  {
    match Users.GetUserByHandle(users, handle)
    case None => UserPageData(None, [])
    case Some(user) =>
      var entries := Posts.GetUserPosts(posts, user.did, PAGE_POSTS);
      var views := seq(|entries|, i requires 0 <= i < |entries| => ToPostView(entries[i]));
      ViewsOfUserPosts(posts, user.did, entries, views);
      UserPageData(Some(UserView(user.did, user.handle, user.customCss)), views)
  }

  /** Views of the user's newest posts are views of that user's stored rows, newest first,
      each at most once: all of them when the user has fewer than a page, and otherwise none
      left out is newer than one shown. */
  lemma ViewsOfUserPosts(posts: Posts.PostTable, did: string, entries: seq<Posts.PostEntry>,
                         views: seq<PostView>)
    requires entries == Posts.GetUserPosts(posts, did, PAGE_POSTS)
    requires |views| == |entries| && forall i :: 0 <= i < |views| ==> views[i] == ToPostView(entries[i])
    ensures |views| <= PAGE_POSTS
    ensures forall i :: 0 <= i < |views| ==>
              views[i].uri in posts && ViewOf(views[i], views[i].uri, posts[views[i].uri]) &&
              posts[views[i].uri].userDid == did
    ensures forall i, j :: 0 <= i < j < |views| ==> views[j].createdAt <= views[i].createdAt
    ensures forall i, j :: 0 <= i < j < |views| ==> views[i].uri != views[j].uri
    ensures |views| < PAGE_POSTS ==>
              forall u :: u in posts && posts[u].userDid == did ==>
                exists i :: 0 <= i < |views| && views[i].uri == u
    ensures forall u, i :: u in posts && posts[u].userDid == did && 0 <= i < |views| &&
                           (forall j :: 0 <= j < |views| ==> views[j].uri != u) ==>
                             posts[u].createdAt <= views[i].createdAt
  {
  }
}
