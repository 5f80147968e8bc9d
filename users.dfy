/**
 * The users table: one row per registered DID holding the current handle and the user's
 * page settings. Logging in upserts the row, refreshing the handle while keeping the
 * settings; the settings page rewrites the custom CSS.
 */
module Users {
  import opened Wrappers
  import opened Schema

  type UserTable = map<string, UserRow>

  /** Every row is stored under its own DID. */
  predicate WellKeyed(users: UserTable)
  {
    forall d :: d in users ==> users[d].did == d
  }

  /** The row an upsert stores: a new DID gets a row with no settings, created and updated
      now; an existing one gets the new handle and update time, keeping its CSS, theme and
      creation time. */
  function UpsertedRow(users: UserTable, did: string, handle: string, now: int): (u: UserRow)
    ensures u.handle == handle && u.updatedAt == now
    ensures did !in users ==> u == UserRow(did, handle, None, None, now, now)
    ensures did in users ==>
              u.did == users[did].did && u.customCss == users[did].customCss &&
              u.themeName == users[did].themeName && u.createdAt == users[did].createdAt
  {
    if did in users then users[did].(handle := handle, updatedAt := now)
    else UserRow(did, handle, None, None, now, now)
  }

  /** `upsertUser`: afterwards exactly the DID's row has changed, to the upserted row, which is
      also the returned value. */
  method UpsertUser(db: Database, did: string, handle: string, now: int) returns (u: UserRow)
    modifies db`users
    ensures u == UpsertedRow(old(db.users), did, handle, now)
    ensures db.users == old(db.users)[did := u]
    ensures WellKeyed(old(db.users)) ==> WellKeyed(db.users)
  {
    if did in db.users {
      var existing := db.users[did];
      u := existing.(handle := handle, updatedAt := now);
    } else {
      u := UserRow(did, handle, None, None, now, now);
    }
    db.users := db.users[did := u];
  }

  function GetUserByDid(users: UserTable, did: string): (r: Option<UserRow>)
    ensures r.Some? <==> did in users
    ensures r.Some? ==> r.value == users[did]
  {
    if did in users then Some(users[did]) else None
  }

  /** `getUserByHandle`: some row with that handle, if there is one. Handles are not unique
      in the table, and which of several matching rows the store returns is not specified. */
  ghost function GetUserByHandle(users: UserTable, handle: string): (r: Option<UserRow>)
    ensures r.Some? <==> exists d :: d in users && users[d].handle == handle
    ensures r.Some? ==> r.value.handle == handle && exists d :: d in users && users[d] == r.value
  {
    if exists d :: d in users && users[d].handle == handle then
      var d :| d in users && users[d].handle == handle;
      Some(users[d])
    else None
  }

  /** `updateUserCss`: sets the CSS (None clears it) and the update time of that DID's row;
      an unknown DID updates nothing. */
  method UpdateUserCss(db: Database, did: string, customCss: Option<string>, now: int)
    modifies db`users
    ensures did in old(db.users) ==>
              db.users == old(db.users)[did := old(db.users)[did].(customCss := customCss, updatedAt := now)]
    ensures did !in old(db.users) ==> db.users == old(db.users)
    ensures WellKeyed(old(db.users)) ==> WellKeyed(db.users)
  {
    if did in db.users {
      db.users := db.users[did := db.users[did].(customCss := customCss, updatedAt := now)];
    }
  }

  /** A repeat login never loses the user's settings: after any number of upserts of a known
      DID, its CSS, theme and creation time are those the row had before them. */
  lemma {:induction false} UpsertKeepsSettings(users: UserTable, did: string,
                                               handles: seq<string>, times: seq<int>)
    requires did in users && |handles| == |times|
    ensures did in Upserts(users, did, handles, times)
    ensures var u := Upserts(users, did, handles, times)[did];
            u.customCss == users[did].customCss && u.themeName == users[did].themeName &&
            u.createdAt == users[did].createdAt
  {
    if handles != [] {
      UpsertKeepsSettings(users, did, handles[..|handles| - 1], times[..|times| - 1]);
    }
  }

  /** The table after upserting `did` once per handle, at the matching time. */
  function Upserts(users: UserTable, did: string, handles: seq<string>, times: seq<int>): UserTable
    requires |handles| == |times|
    decreases |handles|
  {
    if handles == [] then users
    else
      var n := |handles| - 1;
      var t := Upserts(users, did, handles[..n], times[..n]);
      t[did := UpsertedRow(t, did, handles[n], times[n])]
  }
}
