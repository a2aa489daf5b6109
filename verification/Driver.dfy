/**
 The database as the store reaches it through its driver: user and user-setting statements (store/db/sqlite/user.go,
 store/db/sqlite/user_setting.go). Reads and writes each fail while the database is out of reach.
 */
module Driver {
  import opened Lists
  import opened TagText
  import opened Tables
  import opened Text
  import opened Wrappers

  datatype FindUser = FindUser(
    id: Option<int>, idList: seq<int>, usernameList: seq<string>, rowStatus: Option<string>, username: Option<string>,
    role: Option<string>, email: Option<string>, nickname: Option<string>, search: Option<string>,
    filters: seq<string>, limit: Option<int>)

  const EVERYONE := FindUser(None, [], [], None, None, None, None, None, None, [], None)

  predicate Agrees<T(==)>(wanted: Option<T>, actual: T) {
    wanted.None? || wanted.value == actual
  }

  /** The search text, in lower case, is part of the user's name or nickname; blank text asks for nothing. */
  predicate Searched(u: UserFields, search: Option<string>) {
    search.None? || TrimSpace(search.value) == "" ||
    var pattern := "%" + ToLower(TrimSpace(search.value)) + "%";
    Like(false, pattern, ToLower(u.username)) || Like(false, pattern, ToLower(u.nickname))
  }

  predicate Matches(id: int, u: UserFields, find: FindUser) {
    && Agrees(find.id, id) && (find.idList == [] || id in find.idList)
    && (find.usernameList == [] || u.username in find.usernameList)
    && Agrees(find.rowStatus, u.rowStatus) && Agrees(find.username, u.username) && Agrees(find.role, u.role)
    && Agrees(find.email, u.email) && Agrees(find.nickname, u.nickname) && Searched(u, find.search)
  }

  /** The users asked for, were there no limit. */
  function Found(t: Tables, find: FindUser): set<int> {
    set id | id in t.users && Matches(id, t.users[id], find)
  }

  /** How many rows a limit lets through; a negative one is none. */
  function Limited(count: nat, limit: Option<int>): nat {
    if limit.None? || limit.value < 0 || limit.value > count then count else limit.value
  }

  /** The users found, each once with its current row, in any order, as many as the limit admits. */
  ghost predicate IsListing(t: Tables, find: FindUser, list: seq<User>) {
    && (forall i :: 0 <= i < |list| ==> list[i].id in Found(t, find) && list[i].fields == t.users[list[i].id])
    && (forall i, j :: 0 <= i < j < |list| ==> list[i].id != list[j].id)
    && |list| == Limited(|Found(t, find)|, find.limit)
  }

  /** A user is found who is the one asked for in every respect that is asked for. */
  lemma FoundIff(t: Tables, find: FindUser, id: int)
    ensures id in Found(t, find) <==>
            && id in t.users
            && (find.id.Some? ==> id == find.id.value) && (find.idList != [] ==> id in find.idList)
            && (find.usernameList != [] ==> t.users[id].username in find.usernameList)
            && (find.rowStatus.Some? ==> t.users[id].rowStatus == find.rowStatus.value)
            && (find.username.Some? ==> t.users[id].username == find.username.value)
            && (find.role.Some? ==> t.users[id].role == find.role.value)
            && (find.email.Some? ==> t.users[id].email == find.email.value)
            && (find.nickname.Some? ==> t.users[id].nickname == find.nickname.value)
            && Searched(t.users[id], find.search)
  {
    hide Searched;
  }

  /** A search for a text without wildcards is for a part of the lower-case name or nickname. */
  lemma SearchFindsPart(u: UserFields, text: string)
    requires TagText.Plain(false, ToLower(TrimSpace(text))) && TrimSpace(text) != ""
    ensures Searched(u, Some(text)) <==>
            Substring(ToLower(TrimSpace(text)), ToLower(u.username)) ||
            Substring(ToLower(TrimSpace(text)), ToLower(u.nickname))
  {
    hide ToLower, TrimSpace, Like, Substring, TagText.Plain;
    LikeSubstring(false, ToLower(TrimSpace(text)), ToLower(u.username));
    LikeSubstring(false, ToLower(TrimSpace(text)), ToLower(u.nickname));
  }

  /** Without a limit everyone found is listed, and with one as many as it says if there are as many. */
  lemma ListingCount(t: Tables, find: FindUser, list: seq<User>)
    requires IsListing(t, find, list)
    ensures find.limit == None ==> forall id :: id in Found(t, find) ==> User(id, t.users[id]) in list
    ensures find.limit.Some? && find.limit.value >= 0 ==>
              |list| == if find.limit.value <= |Found(t, find)| then find.limit.value else |Found(t, find)|
  {
    assert forall id :: id in Found(t, find) ==> id in t.users;
    hide Found;
    var ids := seq(|list|, i requires 0 <= i < |list| => list[i].id);
    DistinctCount(ids);
    assert RangeOf(ids) <= Found(t, find);
    if find.limit == None {
      SubsetOfSameSize(RangeOf(ids), Found(t, find));
      forall id | id in Found(t, find) ensures User(id, t.users[id]) in list {
        assert id in RangeOf(ids);
        var i :| 0 <= i < |ids| && ids[i] == id;
        assert list[i] == User(id, t.users[id]);
      }
    }
  }

  lemma SubsetOfSameSize<T>(a: set<T>, b: set<T>)
    requires a <= b && |a| == |b|
    ensures a == b
  {
    assert b == a + (b - a);
  }

  datatype UpdateUser = UpdateUser(
    id: int, updatedTs: Option<int>, rowStatus: Option<string>, username: Option<string>, role: Option<string>,
    email: Option<string>, nickname: Option<string>, avatarURL: Option<string>, passwordHash: Option<string>,
    description: Option<string>)

  function Or<T>(change: Option<T>, current: T): T {
    if change.Some? then change.value else current
  }

  function Updated(u: UserFields, update: UpdateUser): UserFields {
    u.(updatedTs := Or(update.updatedTs, u.updatedTs), rowStatus := Or(update.rowStatus, u.rowStatus),
       username := Or(update.username, u.username), role := Or(update.role, u.role), email := Or(update.email, u.email),
       nickname := Or(update.nickname, u.nickname), avatarURL := Or(update.avatarURL, u.avatarURL),
       passwordHash := Or(update.passwordHash, u.passwordHash), description := Or(update.description, u.description))
  }

  predicate ChangesSomething(update: UpdateUser) {
    update.updatedTs.Some? || update.rowStatus.Some? || update.username.Some? || update.role.Some? ||
      update.email.Some? ||
    update.nickname.Some? || update.avatarURL.Some? || update.passwordHash.Some? || update.description.Some?
  }

  /** What the table accepts: one of the two row statuses, and a username no other user has. */
  predicate Acceptable(t: Tables, id: int, u: UserFields) {
    && (u.rowStatus == "NORMAL" || u.rowStatus == "ARCHIVED")
    && forall other :: other in t.users && other != id ==> t.users[other].username != u.username
  }

  /** A statement without a change is not valid. */
  lemma ChangesSomethingIff(update: UpdateUser)
    ensures ChangesSomething(update) <==>
            update != UpdateUser(update.id, None, None, None, None, None, None, None, None, None)
  {
  }

  /**
   Where usernames are distinct, a row is accepted exactly if its status is known and they are still distinct with it.
   */
  lemma AcceptableIff(t: Tables, id: int, u: UserFields)
    requires forall a, b :: a in t.users && b in t.users && t.users[a].username == t.users[b].username ==> a == b
    ensures Acceptable(t, id, u) <==>
            var users := t.users[id := u];
            u.rowStatus in {"NORMAL", "ARCHIVED"} &&
            forall a, b :: a in users && b in users && users[a].username == users[b].username ==> a == b
  {
    var users := t.users[id := u];
    if forall a, b :: a in users && b in users && users[a].username == users[b].username ==> a == b {
      forall other | other in t.users && other != id ensures t.users[other].username != u.username {
        assert other in users && id in users && users[other] == t.users[other] && users[id] == u;
      }
    }
  }

  datatype FindUserSetting = FindUserSetting(userID: Option<int>, key: SettingKey)

  datatype RawSetting = RawSetting(userID: int, key: SettingKey, value: string)

  /** Does the row's user and stored name match? The unspecified key asks for every name. */
  predicate AsksFor(find: FindUserSetting, row: (int, string)) {
    (find.key.KeyUnspecified? || row.1 == KeyName(find.key)) && Agrees(find.userID, row.0)
  }

  /** A setting is asked for by its user and by its name, as far as these are given. */
  lemma AsksForIff(find: FindUserSetting, userID: int, name: string)
    ensures AsksFor(find, (userID, name)) <==>
            (find.userID.Some? ==> userID == find.userID.value) &&
            (find.key != KeyUnspecified ==> KeyNamed(name) == find.key)
  {
    if find.key != KeyUnspecified { KeyNamedIff(find.key, name); }
  }

  function FoundSettings(t: Tables, find: FindUserSetting): set<(int, string)> {
    set row | row in t.settings && AsksFor(find, row)
  }

  function RawOf(t: Tables, row: (int, string)): RawSetting
    requires row in t.settings
  {
    RawSetting(row.0, KeyNamed(row.1), t.settings[row])
  }

  lemma SomeIDIsFree(ids: set<int>)
    ensures exists id: int :: id !in ids
  {
    var bound := AllBelow(ids);
    assert bound !in ids;
  }

  lemma SomeElement<T>(values: set<T>) returns (value: T)
    requires values != {}
    ensures value in values
  {
    value :| value in values;
  }

  lemma AllBelow(ids: set<int>) returns (bound: int)
    ensures forall id :: id in ids ==> id < bound
    decreases ids
  {
    if ids == {} {
      bound := 0;
    } else {
      var id := SomeElement(ids);
      var others := ids - {id};
      var rest := AllBelow(others);
      assert forall i :: i in ids ==> i == id || i in others;
      bound := if id < rest then rest else id + 1;
    }
  }

  class Database {
    var tables: Tables
    var readable: bool
    var writable: bool
    const driver: string

    constructor (tables: Tables, driver: string)
      ensures this.tables == tables && this.driver == driver && readable && writable
    {
      this.tables, this.driver, readable, writable := tables, driver, true, true;
    }

    /** Adds a user under an id that the database chooses. */
    method CreateUser(create: UserFields, now: int) returns (r: Result<User>)
      modifies this`tables
      ensures r.Err? ==> tables == old(tables)
      ensures r.Ok? ==> r.value.id !in old(tables).users &&
                        tables == old(tables).(users := old(tables).users[r.value.id := r.value.fields])
      ensures r.Ok? ==>
                r.value.fields == create.(rowStatus := "NORMAL", createdTs := now, updatedTs := now, description := "")
      ensures r.Ok? <==> writable && forall u :: u in old(tables).users ==>
                                       old(tables).users[u].username != create.username
    {
      SomeIDIsFree(tables.users.Keys);
      var id: int :| id !in tables.users.Keys;
      var row := create.(rowStatus := "NORMAL", createdTs := now, updatedTs := now, description := "");
      if !writable || !Acceptable(tables, id, row) { return Err; }
      tables := tables.(users := tables.users[id := row]);
      return Ok(User(id, row));
    }

    /**
     Changes the given fields of a user; with none given the statement is not valid, and without the user it returns no
     row.
     */
    method UpdateUser(update: UpdateUser) returns (r: Result<User>)
      modifies this`tables
      ensures r.Err? ==> tables == old(tables)
      ensures r.Ok? ==> update.id in old(tables).users &&
                        r.value == User(update.id, Updated(old(tables).users[update.id], update))
      ensures r.Ok? ==> tables == old(tables).(users := old(tables).users[update.id := r.value.fields])
      ensures r.Ok? ==>
                var u, v := old(tables).users[update.id], tables.users[update.id];
                && r.value == User(update.id, v) && v.createdTs == u.createdTs
                && v.updatedTs == (if update.updatedTs.Some? then update.updatedTs.value else u.updatedTs)
                && v.rowStatus == (if update.rowStatus.Some? then update.rowStatus.value else u.rowStatus)
                && v.username == (if update.username.Some? then update.username.value else u.username)
                && v.role == (if update.role.Some? then update.role.value else u.role)
                && v.email == (if update.email.Some? then update.email.value else u.email)
                && v.nickname == (if update.nickname.Some? then update.nickname.value else u.nickname)
                && v.avatarURL == (if update.avatarURL.Some? then update.avatarURL.value else u.avatarURL)
                && v.passwordHash == (if update.passwordHash.Some? then update.passwordHash.value else u.passwordHash)
                && v.description == (if update.description.Some? then update.description.value else u.description)
      ensures r.Ok? <==> writable && ChangesSomething(update) && update.id in old(tables).users &&
                         Acceptable(old(tables), update.id, Updated(old(tables).users[update.id], update))
    {
      if !writable || !ChangesSomething(update) || update.id !in tables.users { return Err; }
      var row := Updated(tables.users[update.id], update);
      if !Acceptable(tables, update.id, row) { return Err; }
      tables := tables.(users := tables.users[update.id := row]);
      return Ok(User(update.id, row));
    }

    method ListUsers(find: FindUser) returns (r: Result<seq<User>>)
      ensures r.Ok? <==> readable && find.filters == []
      ensures r.Ok? ==> IsListing(tables, find, r.value)
    {
      if !readable || find.filters != [] { return Err; }
      var ids := InAnyOrder(Found(tables, find));
      DistinctCount(ids);
      var count := Limited(|ids|, find.limit);
      var list: seq<User> := [];
      for i := 0 to count
        invariant |list| == i
        invariant forall j :: 0 <= j < i ==> list[j].id == ids[j] && ids[j] in Found(tables, find) &&
                                             list[j].fields == tables.users[ids[j]]
      {
        assert ids[i] in RangeOf(ids);
        list := list + [User(ids[i], tables.users[ids[i]])];
      }
      return Ok(list);
    }

    method DeleteUser(id: int) returns (ok: bool)
      modifies this`tables
      ensures ok == writable
      ensures tables == if ok then old(tables).(users := old(tables).users - {id}) else old(tables)
    {
      if !writable { return false; }
      tables := tables.(users := tables.users - {id});
      return true;
    }

    method UpsertUserSetting(upsert: RawSetting) returns (ok: bool)
      modifies this`tables
      ensures ok == writable
      ensures tables == if ok then
                old(tables).(settings := old(tables).settings[(upsert.userID, KeyName(upsert.key)) := upsert.value])
                        else old(tables)
    {
      if !writable { return false; }
      tables := tables.(settings := tables.settings[(upsert.userID, KeyName(upsert.key)) := upsert.value]);
      return true;
    }

    method ListUserSettings(find: FindUserSetting) returns (r: Result<seq<RawSetting>>)
      ensures r.Ok? <==> readable
      ensures r.Ok? ==> IsSettingListing(tables, find, r.value)
    {
      if !readable { return Err; }
      var rows := InAnyOrder(FoundSettings(tables, find));
      forall i | 0 <= i < |rows| ensures rows[i] in FoundSettings(tables, find) { assert rows[i] in RangeOf(rows); }
      var list: seq<RawSetting> := [];
      for i := 0 to |rows|
        invariant |list| == i && forall j :: 0 <= j < i ==> list[j] == RawOf(tables, rows[j])
      {
        list := list + [RawOf(tables, rows[i])];
      }
      assert RangeOf(rows) == FoundSettings(tables, find);
      return Ok(list);
    }

    method DeleteUserSettings(find: FindUserSetting) returns (ok: bool)
      modifies this`tables
      ensures ok == writable
      ensures tables == if ok then
                old(tables).(settings := map s | s in old(tables).settings &&
                             !AsksFor(find, s) :: old(tables).settings[s])
                        else old(tables)
    {
      if !writable { return false; }
      tables := tables.(settings := map s | s in tables.settings && !AsksFor(find, s) :: tables.settings[s]);
      return true;
    }
  }

  /** The rows found, each once, in the order of some list of them. */
  ghost predicate IsSettingListing(t: Tables, find: FindUserSetting, list: seq<RawSetting>) {
    exists rows: seq<(int, string)> ::
      && |rows| == |list| && RangeOf(rows) == FoundSettings(t, find)
      && (forall i, j :: 0 <= i < j < |rows| ==> rows[i] != rows[j])
      && forall i :: 0 <= i < |rows| ==> rows[i] in t.settings && list[i] == RawOf(t, rows[i])
  }

  lemma {:induction false} DistinctCount<T>(list: seq<T>)
    requires forall i, j :: 0 <= i < j < |list| ==> list[i] != list[j]
    ensures |RangeOf(list)| == |list|
  {
    if list == [] {
    } else {
      var n := |list| - 1;
      DistinctCount(list[..n]);
      RangeStep(list, n);
      assert list[..n + 1] == list;
    }
  }
}
