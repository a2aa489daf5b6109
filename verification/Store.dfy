/**
 The store in front of the database: users and user settings with their caches (store/user.go, store/user_setting.go,
 store/cache.go). The calls run one after another; clock readings are arbitrary.
 */
module Store {
  import opened Driver
  import opened Lists
  import opened MemoTree
  import opened SettingValues
  import opened Tables
  import opened Text
  import opened Wrappers
  import TTL = Cache
  import UserDelete

  // Keys of the caches.

  function UserCacheKey(userID: int): string {
    Itoa(userID)
  }

  function SettingCacheKey(userID: int, key: SettingKey): string {
    Itoa(userID) + "-" + KeyName(key)
  }

  lemma ItoaSign(n: int)
    ensures Itoa(n) != "" && (Itoa(n)[0] == '-' <==> n < 0)
  {
    NatTextRoundTrip(if n < 0 then -n else n);
    assert n >= 0 ==> IsDigit(Itoa(n)[0]);
  }

  lemma ItoaInjective(a: int, b: int)
    requires Itoa(a) == Itoa(b)
    ensures a == b
  {
    ItoaSign(a);
    ItoaSign(b);
    NatTextRoundTrip(if a < 0 then -a else a);
    NatTextRoundTrip(if b < 0 then -b else b);
    if a < 0 {
      assert Itoa(a)[1..] == NatText(-a) && Itoa(b)[1..] == NatText(-b);
    }
  }

  lemma KeyNameIsOneWord(key: SettingKey)
    ensures '-' !in KeyName(key) && (!key.KeyUnspecified? ==> KeyNamed(KeyName(key)) == key)
  {
  }

  lemma DashIsLast(a: string, m: string)
    requires '-' !in m
    ensures var s := a + "-" + m; |a| < |s| && s[|a|] == '-' && forall i :: |a| < i < |s| ==> s[i] != '-'
  {
    var s := a + "-" + m;
    forall i | |a| < i < |s| ensures s[i] != '-' { assert s[i] == m[i - |a| - 1]; }
  }

  /** A text is cut at its last dash in one way only. */
  lemma SplitAtLastDash(a: string, m: string, b: string, n: string)
    requires a + "-" + m == b + "-" + n && '-' !in m && '-' !in n
    ensures a == b && m == n
  {
    DashIsLast(a, m);
    DashIsLast(b, n);
    var s := a + "-" + m;
    assert s[..|a|] == a && s[..|b|] == b && s[|a| + 1..] == m && s[|b| + 1..] == n;
  }

  lemma KeyNameInjective(j: SettingKey, k: SettingKey)
    requires KeyName(j) == KeyName(k)
    ensures j == k
  {
    assert |KeyName(KeyUnspecified)| == 15 && |KeyName(RefreshTokens)| == 14 && |KeyName(PersonalAccessTokens)| == 22;
    assert |KeyName(General)| == 7 && |KeyName(Shortcuts)| == 9 && |KeyName(Webhooks)| == 8;
  }

  /** No two users share a cache key, and no two settings do. */
  lemma CacheKeysAreInjective(a: int, j: SettingKey, b: int, k: SettingKey)
    ensures UserCacheKey(a) == UserCacheKey(b) ==> a == b
    ensures SettingCacheKey(a, j) == SettingCacheKey(b, k) ==> a == b && j == k
  {
    if UserCacheKey(a) == UserCacheKey(b) { ItoaInjective(a, b); }
    if SettingCacheKey(a, j) == SettingCacheKey(b, k) {
      KeyNameIsOneWord(j);
      KeyNameIsOneWord(k);
      SplitAtLastDash(Itoa(a), KeyName(j), Itoa(b), KeyName(k));
      ItoaInjective(a, b);
      KeyNameInjective(j, k);
    }
  }

  // Agreement of cache and database.

  type CachedUsers = map<string, TTL.Item<User>>

  type CachedSettings = map<string, TTL.Item<Setting>>

  /** The rows of the settings table, by user and name. */
  type SettingRows = map<(int, string), string>

  /**
   A setting as handed out; the cache holds the same object, and tokens and webhooks in it may be changed in place.
   */
  class Setting {
    const userID: int
    const key: SettingKey
    var value: SettingValue

    constructor (userID: int, key: SettingKey, value: SettingValue)
      ensures this.userID == userID && this.key == key && this.value == value
    {
      this.userID, this.key, this.value := userID, key, value;
    }
  }

  ghost predicate MirrorsUser(k: string, u: User, users: map<int, UserFields>) {
    k == UserCacheKey(u.id) && u.id in users && users[u.id] == u.fields
  }

  /** Every cached user, except under one key, is the user's row. */
  ghost predicate UsersMirroredBut(but: set<string>, data: CachedUsers, users: map<int, UserFields>) {
    forall k :: k in data && k !in but ==> MirrorsUser(k, data[k].value, users)
  }

  ghost predicate IsStored(userID: int, key: SettingKey, value: SettingValue, settings: SettingRows, codec: Codec) {
    && !key.KeyUnspecified? && (userID, KeyName(key)) in settings
    && codec.decode(key, settings[(userID, KeyName(key))]) == Some(value)
  }

  ghost predicate MirrorsSetting(k: string, s: Setting, settings: SettingRows, codec: Codec)
    reads s
  {
    k == SettingCacheKey(s.userID, s.key) && IsStored(s.userID, s.key, s.value, settings, codec)
  }

  ghost function Held(data: CachedSettings): set<Setting> {
    set k | k in data :: data[k].value
  }

  /** Every cached setting is under its own key and, except under given keys, what its row decodes to. */
  ghost predicate SettingsMirroredBut(but: set<string>, data: CachedSettings, settings: SettingRows, codec: Codec)
    reads Held(data)
  {
    UnderOwnKeys(data) && forall k :: k in data && k !in but ==> MirrorsSetting(k, data[k].value, settings, codec)
  }

  ghost predicate UnderOwnKeys(data: CachedSettings) {
    forall k :: k in data ==> k == SettingCacheKey(data[k].value.userID, data[k].value.key)
  }

  lemma CachedUnderOwnKey(k: string, data: CachedSettings, settings: SettingRows, codec: Codec)
    requires SettingsMirroredBut({k}, data, settings, codec) && k in data
    ensures k == SettingCacheKey(data[k].value.userID, data[k].value.key)
  {
  }

  lemma UncachedAgrees(k: string, data: CachedSettings, settings: SettingRows, codec: Codec)
    requires SettingsMirroredBut({k}, data, settings, codec) && k !in data
    ensures SettingsMirroredBut({}, data, settings, codec)
  {
  }

  lemma UsersAfterSet(before: CachedUsers, after: CachedUsers, u: User, expiration: int, maxItems: int, users: map<int,
                      UserFields>)
    requires UsersMirroredBut({UserCacheKey(u.id)}, before, users) && u.id in users && users[u.id] == u.fields
    requires TTL.AfterSet(before, after, UserCacheKey(u.id), TTL.Item(u, expiration), maxItems)
    ensures UsersMirroredBut({}, after, users)
  {
    var stored := before[UserCacheKey(u.id) := TTL.Item(u, expiration)];
    forall k | k in after ensures MirrorsUser(k, after[k].value, users) {
      assert k in stored && after[k] == stored[k];
    }
  }

  /** A row that is added, changed or removed concerns the cached entry of its own key alone. */
  lemma OtherUsersMirrored(data: CachedUsers, users: map<int, UserFields>, id: int, after: map<int, UserFields>)
    requires UsersMirroredBut({}, data, users)
    requires forall other :: other != id ==>
               (other in users <==> other in after) && (other in users ==> after[other] == users[other])
    ensures UsersMirroredBut({UserCacheKey(id)}, data, after)
  {
  }

  lemma FewerUsersMirrored(but: set<string>, data: CachedUsers, fewer: CachedUsers, users: map<int, UserFields>)
    requires UsersMirroredBut(but, data, users) && forall k :: k in fewer ==>
                                                     k in data && fewer[k] == data[k] && k !in but
    ensures UsersMirroredBut({}, fewer, users)
  {
  }

  lemma SettingsAfterSet(before: CachedSettings, after: CachedSettings, s: Setting, expiration: int, maxItems: int,
                         settings: SettingRows, codec: Codec)
    requires SettingsMirroredBut({SettingCacheKey(s.userID, s.key)}, before, settings, codec)
    requires IsStored(s.userID, s.key, s.value, settings, codec)
    requires TTL.AfterSet(before, after, SettingCacheKey(s.userID, s.key), TTL.Item(s, expiration), maxItems)
    ensures SettingsMirroredBut({}, after, settings, codec)
  {
    var stored := before[SettingCacheKey(s.userID, s.key) := TTL.Item(s, expiration)];
    forall k | k in after ensures MirrorsSetting(k, after[k].value, settings, codec) {
      assert k in stored && after[k] == stored[k];
    }
  }

  lemma FewerSettingsMirrored(but: set<string>, data: CachedSettings, fewer: CachedSettings, settings: SettingRows,
                              codec: Codec)
    requires SettingsMirroredBut(but, data, settings, codec) && forall k :: k in fewer ==>
                                                                  k in data && fewer[k] == data[k] && k !in but
    ensures SettingsMirroredBut({}, fewer, settings, codec)
  {
  }

  /** The cache after it has stored a value; beyond its bound it evicts entries expiring first. */
  ghost predicate StoredInCache<V>(before: map<string, TTL.Item<V>>, after: map<string, TTL.Item<V>>, k: string,
                                   value: V, maxItems: int) {
    exists expiration :: TTL.AfterSet(before, after, k, TTL.Item(value, expiration), maxItems)
  }

  /** The first n users are cached. */
  ghost predicate AllCached(data: CachedUsers, list: seq<User>, n: int) {
    forall i :: 0 <= i < n <= |list| ==>
      UserCacheKey(list[i].id) in data && data[UserCacheKey(list[i].id)].value == list[i]
  }

  lemma CachedOneMore(t: Tables, find: FindUser, before: CachedUsers, after: CachedUsers, list: seq<User>, n: nat,
                      maxItems: int)
    requires n < |list| && IsListing(t, find, list) &&
             StoredInCache(before, after, UserCacheKey(list[n].id), list[n], maxItems)
    ensures maxItems <= 0 && AllCached(before, list, n) ==> AllCached(after, list, n + 1)
  {
    var expiration :| TTL.AfterSet(before, after, UserCacheKey(list[n].id), TTL.Item(list[n], expiration), maxItems);
    forall i | 0 <= i < n ensures UserCacheKey(list[i].id) != UserCacheKey(list[n].id) {
      if UserCacheKey(list[i].id) == UserCacheKey(list[n].id) {
        CacheKeysAreInjective(list[i].id, General, list[n].id, General);
      }
    }
    hide UserCacheKey;
  }

  // Uncached lookups.

  /** The user a query for one id finds. */
  function LookupUser(t: Tables, id: int, find: FindUser): Option<User> {
    if id in t.users && Matches(id, t.users[id], find) && find.limit != Some(0) then Some(User(id, t.users[id]))
      else None
  }

  /** The setting of a user under a key, decoded. */
  function LookupSetting(t: Tables, userID: int, key: SettingKey, codec: Codec): Result<Option<SettingValue>> {
    if (userID, KeyName(key)) !in t.settings then Ok(None)
    else if codec.decode(key, t.settings[(userID, KeyName(key))]).None? then Err
    else Ok(codec.decode(key, t.settings[(userID, KeyName(key))]))
  }

  predicate Live<V>(data: map<string, TTL.Item<V>>, k: string, now: int) {
    k in data && now <= data[k].expiration
  }

  /** The setting is answered from the cache, or can be read and decoded. */
  ghost predicate IsAnswered<V>(data: map<string, TTL.Item<V>>, now: int, t: Tables, readable: bool, codec: Codec,
                                userID: int, key: SettingKey) {
    Live(data, SettingCacheKey(userID, key), now) || (readable && LookupSetting(t, userID, key, codec).Ok?)
  }

  lemma ListingOfOne(t: Tables, find: FindUser, list: seq<User>)
    requires find.id.Some? && IsListing(t, find, list)
    ensures LookupUser(t, find.id.value, find) == if list == [] then None else Some(list[0])
  {
    var found := Found(t, find);
    assert found <= {find.id.value};
    if find.id.value in found { assert found == {find.id.value}; } else { assert found == {}; }
  }

  class Store {
    const db: Database
    const userCache: TTL.Cache<User>
    const settingCache: TTL.Cache<Setting>
    const codec: Codec

    ghost predicate Valid()
      reads this, db, userCache, settingCache, Held(settingCache.data)
    {
      ValidBut({})
    }

    /** Both caches agree with the database, except perhaps for a setting cached under the given key. */
    ghost predicate ValidBut(but: set<string>)
      reads this, db, userCache, settingCache, Held(settingCache.data)
    {
      && userCache.Valid() && settingCache.Valid() && codec.Faithful()
      && UsersMirroredBut({}, userCache.data, db.tables.users)
      && SettingsMirroredBut(but, settingCache.data, db.tables.settings, codec)
    }

    constructor (db: Database, codec: Codec, maxItems: int, defaultTTL: int)
      requires codec.Faithful()
      ensures Valid() && this.db == db && this.codec == codec && fresh(userCache) && fresh(settingCache)
    {
      this.db, this.codec := db, codec;
      userCache := new TTL.Cache<User>(maxItems, defaultTTL, false);
      settingCache := new TTL.Cache<Setting>(maxItems, defaultTTL, false);
    }

    lemma CodecIsFaithful()
      requires Valid()
      ensures codec.Faithful()
    {
    }

    lemma ValidIsValidBut(k: string)
      requires Valid()
      ensures ValidBut({k})
    {
    }

    // Users.

    method CreateUser(create: UserFields, now: int) returns (r: Result<User>)
      requires Valid()
      modifies db`tables, userCache
      ensures Valid()
      ensures r.Err? ==> db.tables == old(db.tables)
      ensures r.Ok? ==> r.value.id !in old(db.tables).users &&
                        db.tables == old(db.tables).(users := old(db.tables).users[r.value.id := r.value.fields])
      ensures r.Ok? ==>
                r.value.fields == create.(rowStatus := "NORMAL", createdTs := now, updatedTs := now, description := "")
      ensures r.Ok? <==> db.writable &&
                         forall u :: u in old(db.tables).users ==> old(db.tables).users[u].username != create.username
      ensures r.Ok? ==>
                StoredInCache(old(userCache.data), userCache.data, UserCacheKey(r.value.id), r.value,
                              userCache.maxItems)
    {
      hide UsersMirroredBut, SettingsMirroredBut, IsListing, Found, LookupUser, TTL.AfterSet, TTL.Recorded,
           TTL.LastSets, Matches;
      r := db.CreateUser(create, now);
      assert Held(settingCache.data) == old(Held(settingCache.data));
      if r.Err? { return; }
      OtherUsersMirrored(userCache.data, old(db.tables).users, r.value.id, db.tables.users);
      CacheUser(r.value);
    }

    /** Caches a user just read from or written to the database. */
    method CacheUser(user: User)
      requires userCache.Valid() && UsersMirroredBut({UserCacheKey(user.id)}, userCache.data, db.tables.users)
      requires user.id in db.tables.users && db.tables.users[user.id] == user.fields
      modifies userCache
      ensures userCache.Valid() && UsersMirroredBut({}, userCache.data, db.tables.users)
      ensures StoredInCache(old(userCache.data), userCache.data, UserCacheKey(user.id), user, userCache.maxItems)
    {
      hide UsersMirroredBut, SettingsMirroredBut, IsListing, Found, LookupUser, TTL.AfterSet, TTL.Recorded,
           TTL.LastSets, Matches;
      ghost var before := userCache.data;
      var at: int := *;
      userCache.Set(UserCacheKey(user.id), user, at);
      UsersAfterSet(before, userCache.data, user, at + userCache.defaultTTL, userCache.maxItems, db.tables.users);
    }

    /** Creates a user only where there is none. */
    method CreateUserIfNoUsers(create: UserFields, now: int) returns (r: Result<Option<User>>)
      requires Valid()
      modifies db`tables, userCache
      ensures Valid()
      ensures r.Err? || r.value.None? ==> db.tables == old(db.tables)
      ensures r.Ok? ==> (r.value.Some? <==> old(db.tables).users == map[])
      ensures r.Ok? && r.value.Some? ==>
                db.tables.users == map[r.value.value.id := r.value.value.fields] && r.value.value.fields ==
                  create.(rowStatus := "NORMAL", createdTs := now, updatedTs := now, description := "")
      ensures r.Ok? <==> db.readable && (old(db.tables).users == map[] ==> db.writable)
    {
      hide UsersMirroredBut, SettingsMirroredBut, IsListing, Found, LookupUser, TTL.AfterSet, TTL.Recorded,
           TTL.LastSets, Matches;
      var users := db.ListUsers(EVERYONE.(limit := Some(1)));
      assert Held(settingCache.data) == old(Held(settingCache.data));
      if users.Err? { return Err; }
      SomebodyIsListed(db.tables, users.value);
      if |users.value| > 0 { return Ok(None); }
      var user := CreateUser(create, now);
      if user.Err? { return Err; }
      return Ok(Some(user.value));
    }

    method UpdateUser(update: UpdateUser) returns (r: Result<User>)
      requires Valid()
      modifies db`tables, userCache
      ensures Valid()
      ensures r.Err? ==> db.tables == old(db.tables)
      ensures r.Ok? ==> update.id in old(db.tables).users &&
                        r.value == User(update.id, Updated(old(db.tables).users[update.id], update)) &&
                        db.tables == old(db.tables).(users := old(db.tables).users[update.id := r.value.fields])
      ensures r.Ok? ==>
                var u, v := old(db.tables).users[update.id], db.tables.users[update.id];
                && r.value == User(update.id, v) && v.createdTs == u.createdTs
                && v.updatedTs == (if update.updatedTs.Some? then update.updatedTs.value else u.updatedTs)
                && v.rowStatus == (if update.rowStatus.Some? then update.rowStatus.value else u.rowStatus)
                && v.username == (if update.username.Some? then update.username.value else u.username)
                && v.role == (if update.role.Some? then update.role.value else u.role)
                && v.email == (if update.email.Some? then update.email.value else u.email)
                && v.nickname == (if update.nickname.Some? then update.nickname.value else u.nickname)
                && v.avatarURL == (if update.avatarURL.Some? then update.avatarURL.value else u.avatarURL)
                && v.passwordHash == (if update.passwordHash.Some? then update.passwordHash.value else u.passwordHash)
                && v.description == (if update.description.Some? then update.description.value else u.description)
      ensures r.Ok? ==>
                StoredInCache(old(userCache.data), userCache.data, UserCacheKey(r.value.id), r.value,
                              userCache.maxItems)
    {
      hide UsersMirroredBut, SettingsMirroredBut, IsListing, Found, LookupUser, TTL.AfterSet, TTL.Recorded,
           TTL.LastSets, Matches;
      r := db.UpdateUser(update);
      assert Held(settingCache.data) == old(Held(settingCache.data));
      if r.Err? { return; }
      OtherUsersMirrored(userCache.data, old(db.tables).users, r.value.id, db.tables.users);
      CacheUser(r.value);
    }

    method ListUsers(find: FindUser) returns (r: Result<seq<User>>)
      requires Valid()
      modifies userCache
      ensures Valid()
      ensures r.Ok? <==> db.readable && find.filters == []
      ensures r.Ok? ==> IsListing(db.tables, find, r.value)
      ensures r.Ok? && userCache.maxItems <= 0 ==> AllCached(userCache.data, r.value, |r.value|)
    {
      hide UsersMirroredBut, SettingsMirroredBut, IsListing, Found, LookupUser, TTL.AfterSet, TTL.Recorded,
           TTL.LastSets, Matches;
      r := db.ListUsers(find);
      assert Held(settingCache.data) == old(Held(settingCache.data));
      if r.Err? { return; }
      for i := 0 to |r.value|
        invariant Valid() && Held(settingCache.data) == old(Held(settingCache.data))
        invariant userCache.maxItems <= 0 ==> AllCached(userCache.data, r.value, i)
      {
        ListedUser(db.tables, find, r.value, i);
        FewerUsersMirroredButOne(r.value[i], userCache.data, db.tables.users);
        ghost var before := userCache.data;
        CacheUser(r.value[i]);
        CachedOneMore(db.tables, find, before, userCache.data, r.value, i, userCache.maxItems);
      }
    }

    /**
     A live cached user is returned whatever else the query asks for; otherwise the first user found. So a query by id
     gives what the database would, unless a cached user fails one of its other criteria.
     */
    method GetUser(find: FindUser, now: int) returns (r: Result<Option<User>>)
      requires Valid()
      modifies userCache
      ensures Valid()
      ensures var hit := find.id.Some? && Live(old(userCache.data), UserCacheKey(find.id.value), now);
              && (r.Ok? <==> hit || (db.readable && find.filters == []))
              && (hit ==> find.id.value in db.tables.users &&
                          r.value == Some(User(find.id.value, db.tables.users[find.id.value])))
              && (r.Ok? && find.id.Some? ==>
                    (r.value == LookupUser(db.tables, find.id.value, find) <==>
                     !hit || (Matches(find.id.value, db.tables.users[find.id.value], find) && find.limit != Some(0))))
              && (r.Ok? && !hit ==> if r.value.None? then Limited(|Found(db.tables, find)|, find.limit) == 0
                                    else r.value.value.id in Found(db.tables, find) &&
                                         r.value.value.fields == db.tables.users[r.value.value.id])
    {
      hide UsersMirroredBut, SettingsMirroredBut, IsListing, Found, LookupUser, TTL.AfterSet, TTL.Recorded,
           TTL.LastSets, Matches;
      if find.id.Some? {
        ghost var before := userCache.data;
        var cached := userCache.Get(UserCacheKey(find.id.value), now);
        LiveUser(before, userCache.data, find.id.value, now, db.tables, cached);
        assert Held(settingCache.data) == old(Held(settingCache.data));
        if cached.Some? { return Ok(cached); }
      }
      var list := ListUsers(find);
      assert Held(settingCache.data) == old(Held(settingCache.data));
      if list.Err? { return Err; }
      FirstListed(db.tables, find, list.value);
      if |list.value| == 0 { return Ok(None); }
      var user := list.value[0];
      FewerUsersMirroredButOne(user, userCache.data, db.tables.users);
      CacheUser(user);
      return Ok(Some(user));
    }

    method DeleteUser(id: int) returns (ok: bool)
      requires Valid()
      modifies db`tables, userCache
      ensures Valid() && ok == db.writable
      ensures db.tables == if ok then old(db.tables).(users := old(db.tables).users - {id}) else old(db.tables)
    {
      hide UsersMirroredBut, SettingsMirroredBut, IsListing, Found, LookupUser, TTL.AfterSet, TTL.Recorded,
           TTL.LastSets, Matches;
      ok := db.DeleteUser(id);
      assert Held(settingCache.data) == old(Held(settingCache.data));
      if !ok { return; }
      OtherUsersMirrored(userCache.data, old(db.tables).users, id, db.tables.users);
      ForgetUser(id);
    }

    method ForgetUser(id: int)
      requires userCache.Valid() && UsersMirroredBut({UserCacheKey(id)}, userCache.data, db.tables.users)
      modifies userCache
      ensures userCache.Valid() && UsersMirroredBut({}, userCache.data, db.tables.users)
    {
      hide UsersMirroredBut, SettingsMirroredBut, IsListing, Found, LookupUser, TTL.AfterSet, TTL.Recorded,
           TTL.LastSets, Matches;
      ghost var before := userCache.data;
      userCache.Delete(UserCacheKey(id));
      FewerUsersMirrored({UserCacheKey(id)}, before, userCache.data, db.tables.users);
    }

    // User settings.

    /** Caches a setting just read from or written to the database, in place of what is cached under its key. */
    method CacheSetting(s: Setting)
      requires settingCache.Valid()
      requires SettingsMirroredBut({SettingCacheKey(s.userID, s.key)}, settingCache.data, db.tables.settings, codec)
      requires IsStored(s.userID, s.key, s.value, db.tables.settings, codec)
      modifies settingCache
      ensures settingCache.Valid() && SettingsMirroredBut({}, settingCache.data, db.tables.settings, codec)
      ensures Held(settingCache.data) <= old(Held(settingCache.data)) + {s}
      ensures SettingCacheKey(s.userID, s.key) in settingCache.data ==>
                settingCache.data[SettingCacheKey(s.userID, s.key)].value == s
      ensures settingCache.maxItems <= 0 ==> SettingCacheKey(s.userID, s.key) in settingCache.data
      ensures StoredInCache(old(settingCache.data), settingCache.data, SettingCacheKey(s.userID, s.key), s,
                            settingCache.maxItems)
    {
      hide Codec.Faithful, UsersMirroredBut, SettingsMirroredBut, TTL.AfterSet, TTL.Recorded, TTL.LastSets, IsStored,
           KeyName;
      ghost var before := settingCache.data;
      var at: int := *;
      settingCache.Set(SettingCacheKey(s.userID, s.key), s, at);
      HeldAfterSet(before, settingCache.data, s, at + settingCache.defaultTTL, settingCache.maxItems);
      assert Held(before) == old(Held(settingCache.data));
      SettingsAfterSet(before, settingCache.data, s, at + settingCache.defaultTTL, settingCache.maxItems,
                       db.tables.settings, codec);
    }


    method UpsertUserSetting(userID: int, key: SettingKey, value: SettingValue) returns (r: Result<Setting>)
      requires ValidBut({SettingCacheKey(userID, key)})
      modifies db`tables, settingCache
      ensures fresh(Held(settingCache.data) - old(Held(settingCache.data)))
      ensures r.Ok? <==> !key.KeyUnspecified? && codec.encode(Carried(key, value)).Some? && db.writable
      ensures r.Ok? ==> Valid() && fresh(r.value) && r.value.userID == userID && r.value.key == key &&
                        r.value.value == Carried(key, value)
      ensures r.Ok? ==> db.tables == WithSetting(old(db.tables), userID, key, Carried(key, value), codec)
      ensures r.Err? ==> db.tables == old(db.tables) && settingCache.data == old(settingCache.data)
      ensures r.Err? && old(Valid()) ==> Valid()
      ensures r.Err? ==> ValidBut({SettingCacheKey(userID, key)})
      ensures r.Ok? ==>
                StoredInCache(old(settingCache.data), settingCache.data, SettingCacheKey(userID, key), r.value,
                              settingCache.maxItems)
    {
      hide Codec.Faithful, UsersMirroredBut, SettingsMirroredBut, TTL.AfterSet, TTL.Recorded, TTL.LastSets, IsStored,
           KeyName, KeyNamed, IsSettingListing, Covers, LookupSetting, AsksFor;
      if key.KeyUnspecified? { return Err; }
      var text := codec.encode(Carried(key, value));
      if text.None? { return Err; }
      ghost var before := db.tables;
      var ok := db.UpsertUserSetting(RawSetting(userID, key, text.value));
      assert Held(settingCache.data) == old(Held(settingCache.data));
      if !ok { return Err; }
      var decoded := codec.decode(key, text.value);
      StoredAfterUpsert(before, userID, key, value, codec);
      if decoded.None? { return Err; }
      var s := new Setting(userID, key, decoded.value);
      assert Held(settingCache.data) == old(Held(settingCache.data));
      UpsertTouchesOne(settingCache.data, before.settings, userID, key, text.value, codec);
      CacheSetting(s);
      return Ok(s);
    }

    /** Decodes one row; a row of no known key is none. */
    method ConvertUserSettingFromRaw(raw: RawSetting) returns (r: Result<Option<Setting>>)
      ensures if raw.key.KeyUnspecified? then r == Ok(None)
              else if codec.decode(raw.key, raw.value).None? then r.Err?
              else r.Ok? && r.value.Some? && fresh(r.value.value) && r.value.value.userID == raw.userID &&
                   r.value.value.key == raw.key &&
                   codec.decode(raw.key, raw.value) == Some(r.value.value.value)
    {
      if raw.key.KeyUnspecified? { return Ok(None); }
      var decoded := codec.decode(raw.key, raw.value);
      if decoded.None? { return Err; }
      var s := new Setting(raw.userID, raw.key, decoded.value);
      return Ok(Some(s));
    }

    /** Decodes a row listed for a query, and caches it. */
    method TakeIn(raw: RawSetting, ghost find: FindUserSetting, ghost raws: seq<RawSetting>,
                  ghost i: nat) returns (r: Result<Option<Setting>>)
      requires Valid() && Facts(db.tables, find, raws) && i < |raws| && raws[i] == raw
      modifies settingCache
      ensures Valid()
      ensures r.Err? ==> Undecodable(db.tables, find, codec)
      ensures r.Ok? ==> (r.value.None? <==> raw.key.KeyUnspecified?)
      ensures r.Ok? && r.value.Some? ==>
                var s := r.value.value;
                && fresh(s) && s.userID == raw.userID && s.key == raw.key && codec.decode(raw.key, raw.value).Some?
                && IsStored(s.userID, s.key, s.value, db.tables.settings, codec)
                && Held(settingCache.data) <= old(Held(settingCache.data)) + {s}
      ensures r.Err? || r.value.None? ==> Held(settingCache.data) == old(Held(settingCache.data))
    {
      hide Codec.Faithful, UsersMirroredBut, SettingsMirroredBut, TTL.AfterSet, TTL.Recorded, TTL.LastSets, IsStored,
           KeyName, KeyNamed, IsSettingListing, Covers, LookupSetting, AsksFor, Facts, Undecodable;
      r := ConvertUserSettingFromRaw(raw);
      assert Held(settingCache.data) == old(Held(settingCache.data));
      if r.Err? {
        UndecodableRow(db.tables, find, raws, i, codec);
        return;
      }
      if r.value.None? { return; }
      var s := r.value.value;
      RawIsStored(db.tables, find, raws, i, codec);
      SettingsMirroredButOne(SettingCacheKey(s.userID, s.key), settingCache.data, db.tables.settings, codec);
      CacheSetting(s);
    }

    method ListUserSettings(find: FindUserSetting) returns (r: Result<seq<Setting>>)
      requires Valid()
      modifies settingCache
      ensures Valid() && fresh(Held(settingCache.data) - old(Held(settingCache.data)))
      ensures r.Err? <==> !db.readable || Undecodable(db.tables, find, codec)
      ensures r.Ok? ==> Covers(db.tables, find, r.value) && fresh(RangeOf(r.value))
      ensures r.Ok? ==> AllStored(r.value, db.tables.settings, codec)
      ensures !db.readable ==> settingCache.data == old(settingCache.data)
    {
      hide Codec.Faithful, UsersMirroredBut, SettingsMirroredBut, TTL.AfterSet, TTL.Recorded, TTL.LastSets, IsStored,
           KeyName, KeyNamed, IsSettingListing, Covers, LookupSetting, AsksFor, Undecodable, SettingCacheKey, ComesFrom,
           Facts, Decodable, Wanted, MirrorsSetting, MirrorsUser, AllStored;
      var raws := db.ListUserSettings(find);
      assert Held(settingCache.data) == old(Held(settingCache.data));
      if raws.Err? { return Err; }
      ListingFacts(db.tables, find, raws.value);
      r := TakeInAll(raws.value, find);
    }

    method TakeInAll(raws: seq<RawSetting>, ghost find: FindUserSetting) returns (r: Result<seq<Setting>>)
      requires Valid() && Facts(db.tables, find, raws)
      modifies settingCache
      ensures Valid() && fresh(Held(settingCache.data) - old(Held(settingCache.data)))
      ensures r.Err? <==> Undecodable(db.tables, find, codec)
      ensures r.Ok? ==> Covers(db.tables, find, r.value) && fresh(RangeOf(r.value))
      ensures r.Ok? ==> AllStored(r.value, db.tables.settings, codec)
    {
      hide Valid, Codec.Faithful, UsersMirroredBut, SettingsMirroredBut, TTL.AfterSet, TTL.Recorded, TTL.LastSets,
           IsStored, KeyName, KeyNamed, IsSettingListing, Covers, LookupSetting, AsksFor, Undecodable, SettingCacheKey,
           ComesFrom, Facts, Decodable, Wanted, MirrorsSetting, MirrorsUser, AllStored, RangeOf;
      var list: seq<Setting> := [];
      ghost var from: seq<int> := [];
      NoneTaken(raws, db.tables.settings, codec);
      ghost var first := Held(settingCache.data);
      ghost var made: set<Setting> := {};
      for i := 0 to |raws|
        invariant Valid() && Decodable(raws, i, codec)
        invariant ComesFrom(list, from, raws, i)
        invariant made == RangeOf(list) && fresh(made) && Held(settingCache.data) <= first + made
        invariant AllStored(list, db.tables.settings, codec)
      {
        var raw := raws[i];
        var s := TakeIn(raw, find, raws, i);
        assert RangeOf(list) == made;
        if s.Err? { return Err; }
        DecodedOneMore(raws, i, codec);
        if s.value.None? {
          SkipOne(list, from, raws, i);
          continue;
        }
        TakeOne(list, from, raws, i, s.value.value);
        OneMoreStored(list, s.value.value, db.tables.settings, codec);
        list := list + [s.value.value];
        made := made + {s.value.value};
        from := from + [i];
      }
      AllTaken(db.tables, find, list, from, raws, codec);
      return Ok(list);
    }

    /**
     A live cached setting, else the one the database finds; more than one is an error. For a user and a key this is
     what the database holds, decoded.
     */
    method GetUserSetting(find: FindUserSetting, now: int) returns (r: Result<Option<Setting>>)
      requires Valid()
      modifies settingCache
      ensures Valid() && fresh(Held(settingCache.data) - old(Held(settingCache.data)))
      ensures r.Ok? && r.value.Some? ==> fresh(r.value.value) || r.value.value in old(Held(settingCache.data))
      ensures find.userID.Some? && !find.key.KeyUnspecified? ==>
                Answered(old(settingCache.data), settingCache.data, settingCache.maxItems, db.tables, db.readable,
                         codec, find.userID.value, find.key, now, r)
    {
      hide Valid, ValidBut, Codec.Faithful, UsersMirroredBut, SettingsMirroredBut, TTL.AfterSet, TTL.Recorded,
           TTL.LastSets, IsStored, KeyName, KeyNamed, IsSettingListing, Covers, LookupSetting, AsksFor, Undecodable,
           SettingCacheKey, Fetched, Answered, Live;
      ghost var before := settingCache.data;
      if find.userID.Some? {
        var cached := CachedSetting(find.userID.value, find.key, now);
        if cached.Some? { return Ok(cached); }
      }
      ghost var between := settingCache.data;
      r := FetchSetting(find);
      if find.userID.Some? && !find.key.KeyUnspecified? {
        FetchedIsAnswer(before, between, settingCache.data, settingCache.maxItems, db.tables, db.readable, codec,
                        find.userID.value, find.key,
                        now, r);
      }
    }

    /** The live cached setting. */
    method CachedSetting(userID: int, key: SettingKey, now: int) returns (cached: Option<Setting>)
      requires Valid()
      modifies settingCache
      ensures Valid() && Held(settingCache.data) <= old(Held(settingCache.data))
      ensures cached.Some? ==> cached.value in old(Held(settingCache.data))
      ensures cached.Some? <==> Live(old(settingCache.data), SettingCacheKey(userID, key), now)
      ensures cached.None? ==> SettingCacheKey(userID, key) !in settingCache.data
      ensures cached.Some? ==>
                Answered(old(settingCache.data), settingCache.data, settingCache.maxItems, db.tables, db.readable,
                         codec, userID,
                                        key, now, Ok(cached))
    {
      hide Codec.Faithful, UsersMirroredBut, SettingsMirroredBut, TTL.AfterSet, TTL.Recorded, TTL.LastSets, IsStored,
           KeyName, KeyNamed, LookupSetting, SettingCacheKey;
      ghost var before := settingCache.data;
      cached := settingCache.Get(SettingCacheKey(userID, key), now);
      assert Held(before) == old(Held(settingCache.data));
      LiveSetting(before, settingCache.data, userID, key, now, db.tables, codec, cached);
    }

    /** The setting the database finds, cached. */
    method FetchSetting(find: FindUserSetting) returns (r: Result<Option<Setting>>)
      requires Valid()
      modifies settingCache
      ensures Valid() && fresh(Held(settingCache.data) - old(Held(settingCache.data)))
      ensures r.Ok? && r.value.Some? ==> fresh(r.value.value)
      ensures find.userID.Some? && !find.key.KeyUnspecified? ==>
                Fetched(old(settingCache.data), settingCache.data, settingCache.maxItems, db.tables, db.readable, codec,
                        find.userID.value, find.key, r)
    {
      hide Codec.Faithful, UsersMirroredBut, SettingsMirroredBut, TTL.AfterSet, TTL.Recorded, TTL.LastSets, IsStored,
           KeyName, KeyNamed, IsSettingListing, Covers, LookupSetting, AsksFor, Undecodable, SettingCacheKey;
      var list := ListUserSettings(find);
      if list.Ok? || db.readable {
        SettingsListed(db.tables, find, codec, if list.Ok? then list.value else []);
      }
      if list.Err? { return Err; }
      if |list.value| == 0 { return Ok(None); }
      if |list.value| > 1 { return Err; }
      var s := list.value[0];
      assert s in RangeOf(list.value);
      SettingsMirroredButOne(SettingCacheKey(s.userID, s.key), settingCache.data, db.tables.settings, codec);
      CacheSetting(s);
      return Ok(Some(s));
    }

    /** The user's refresh tokens, cached or not. */
    method GetUserRefreshTokens(userID: int, now: int) returns (r: Result<seq<RefreshToken>>)
      requires Valid()
      modifies settingCache
      ensures fresh(Held(settingCache.data) - old(Held(settingCache.data)))
      ensures Valid()
      ensures r.Ok? ==> r.value == UserRefreshTokensIn(db.tables, userID, codec)
      ensures r.Ok? <==> Live(old(settingCache.data), SettingCacheKey(userID, RefreshTokens), now) ||
                         (db.readable && LookupSetting(db.tables, userID, RefreshTokens, codec).Ok?)
    {
      hide Valid, Codec.Faithful, UsersMirroredBut, SettingsMirroredBut, TTL.AfterSet, TTL.Recorded, TTL.LastSets,
           IsStored, KeyName, KeyNamed, IsSettingListing, Covers, LookupSetting, AsksFor, Undecodable, SettingCacheKey;
      var setting := GetUserSetting(FindUserSetting(Some(userID), RefreshTokens), now);
      if setting.Err? { return Err; }
      CodecIsFaithful();
      UserRefreshTokensRead(db.tables, userID, codec);
      if setting.value.None? { return Ok([]); }
      return Ok(setting.value.value.value.refreshTokens);
    }

    /** The user's personal access tokens, cached or not. */
    method GetUserAccessTokens(userID: int, now: int) returns (r: Result<seq<AccessToken>>)
      requires Valid()
      modifies settingCache
      ensures fresh(Held(settingCache.data) - old(Held(settingCache.data)))
      ensures Valid()
      ensures r.Ok? ==> r.value == UserAccessTokensIn(db.tables, userID, codec)
      ensures r.Ok? <==> Live(old(settingCache.data), SettingCacheKey(userID, PersonalAccessTokens), now) ||
                         (db.readable && LookupSetting(db.tables, userID, PersonalAccessTokens, codec).Ok?)
    {
      hide Valid, Codec.Faithful, UsersMirroredBut, SettingsMirroredBut, TTL.AfterSet, TTL.Recorded, TTL.LastSets,
           IsStored, KeyName, KeyNamed, IsSettingListing, Covers, LookupSetting, AsksFor, Undecodable, SettingCacheKey;
      var setting := GetUserSetting(FindUserSetting(Some(userID), PersonalAccessTokens), now);
      if setting.Err? { return Err; }
      CodecIsFaithful();
      UserAccessTokensRead(db.tables, userID, codec);
      if setting.value.None? { return Ok([]); }
      return Ok(setting.value.value.value.tokens);
    }

    /** The user's webhooks, cached or not. */
    method GetUserWebhooks(userID: int, now: int) returns (r: Result<seq<Webhook>>)
      requires Valid()
      modifies settingCache
      ensures fresh(Held(settingCache.data) - old(Held(settingCache.data)))
      ensures Valid()
      ensures r.Ok? ==> r.value == UserWebhooksIn(db.tables, userID, codec)
      ensures r.Ok? <==> Live(old(settingCache.data), SettingCacheKey(userID, Webhooks), now) ||
                         (db.readable && LookupSetting(db.tables, userID, Webhooks, codec).Ok?)
    {
      hide Valid, Codec.Faithful, UsersMirroredBut, SettingsMirroredBut, TTL.AfterSet, TTL.Recorded, TTL.LastSets,
           IsStored, KeyName, KeyNamed, IsSettingListing, Covers, LookupSetting, AsksFor, Undecodable, SettingCacheKey;
      var setting := GetUserSetting(FindUserSetting(Some(userID), Webhooks), now);
      if setting.Err? { return Err; }
      CodecIsFaithful();
      UserWebhooksRead(db.tables, userID, codec);
      if setting.value.None? { return Ok([]); }
      return Ok(setting.value.value.value.webhooks);
    }

    /** Stores a list that was rebuilt. */
    method WriteList(userID: int, key: SettingKey, value: SettingValue) returns (ok: bool)
      requires Valid() && !key.KeyUnspecified? && KeyOf(value) == key
      modifies db`tables, settingCache
      ensures Valid() && fresh(Held(settingCache.data) - old(Held(settingCache.data)))
      ensures ok ==> Written(old(db.tables), db.tables, userID, key, value, codec)
      ensures !ok ==> db.tables == old(db.tables)
      ensures ok <==> codec.encode(value).Some? && db.writable
    {
      hide Codec.Faithful, UsersMirroredBut, SettingsMirroredBut, TTL.AfterSet, TTL.Recorded, TTL.LastSets, IsStored,
           KeyName, KeyNamed, IsSettingListing, Covers, LookupSetting, AsksFor, Undecodable, SettingCacheKey,
           WithSetting;
      SettingsMirroredButOne(SettingCacheKey(userID, key), settingCache.data, db.tables.settings, codec);
      assert Carried(key, value) == value;
      var written := UpsertUserSetting(userID, key, value);
      ok := written.Ok?;
    }

    /** Appends a refresh token. */
    method AddUserRefreshToken(userID: int, token: RefreshToken, now: int) returns (ok: bool)
      requires Valid()
      modifies db`tables, settingCache
      ensures fresh(Held(settingCache.data) - old(Held(settingCache.data)))
      ensures Valid()
      ensures var list := UserRefreshTokensIn(old(db.tables), userID, codec);
              ok ==> Written(old(db.tables), db.tables, userID, RefreshTokens, RefreshTokensValue(list + [token]),
                             codec)
      ensures !ok ==> db.tables == old(db.tables)
      ensures var list := UserRefreshTokensIn(old(db.tables), userID, codec);
              ok <==> db.writable && codec.encode(RefreshTokensValue(list + [token])).Some? &&
                      IsAnswered(old(settingCache.data), now, old(db.tables), db.readable, codec, userID,
                                 RefreshTokens)
    {
      hide Valid, Codec.Faithful, UsersMirroredBut, SettingsMirroredBut, TTL.AfterSet, TTL.Recorded, TTL.LastSets,
           IsStored, KeyName, KeyNamed, IsSettingListing, Covers, LookupSetting, AsksFor, Undecodable, SettingCacheKey,
           UserRefreshTokensIn, WithSetting, Live, Written;
      var existing := GetUserRefreshTokens(userID, now);
      if existing.Err? { return false; }
      var updated := existing.value + [token];
      ok := WriteList(userID, RefreshTokens, RefreshTokensValue(updated));
    }

    /** Removes the refresh tokens of that id. */
    method RemoveUserRefreshToken(userID: int, tokenID: string, now: int) returns (ok: bool)
      requires Valid()
      modifies db`tables, settingCache
      ensures fresh(Held(settingCache.data) - old(Held(settingCache.data)))
      ensures Valid()
      ensures var list := UserRefreshTokensIn(old(db.tables), userID, codec);
              ok ==> Written(old(db.tables), db.tables, userID, RefreshTokens,
                             RefreshTokensValue(Without(list, RefreshTokenID, tokenID)), codec)
      ensures !ok ==> db.tables == old(db.tables)
      ensures var list := UserRefreshTokensIn(old(db.tables), userID, codec);
              ok <==> db.writable && codec.encode(RefreshTokensValue(Without(list, RefreshTokenID, tokenID))).Some? &&
                      IsAnswered(old(settingCache.data), now, old(db.tables), db.readable, codec, userID,
                                 RefreshTokens)
    {
      hide Valid, Codec.Faithful, UsersMirroredBut, SettingsMirroredBut, TTL.AfterSet, TTL.Recorded, TTL.LastSets,
           IsStored, KeyName, KeyNamed, IsSettingListing, Covers, LookupSetting, AsksFor, Undecodable, SettingCacheKey,
           UserRefreshTokensIn, Without, WithSetting, Live, Written;
      var existing := GetUserRefreshTokens(userID, now);
      if existing.Err? { return false; }
      ghost var held := Held(settingCache.data);
      var updated := Remove(existing.value, RefreshTokenID, tokenID);
      assert Held(settingCache.data) == held;
      ok := WriteList(userID, RefreshTokens, RefreshTokensValue(updated));
    }

    /** Appends a personal access token. */
    method AddUserPersonalAccessToken(userID: int, token: AccessToken, now: int) returns (ok: bool)
      requires Valid()
      modifies db`tables, settingCache
      ensures fresh(Held(settingCache.data) - old(Held(settingCache.data)))
      ensures Valid()
      ensures var list := UserAccessTokensIn(old(db.tables), userID, codec);
              ok ==> Written(old(db.tables), db.tables, userID, PersonalAccessTokens, AccessTokensValue(list + [token]),
                             codec)
      ensures !ok ==> db.tables == old(db.tables)
      ensures var list := UserAccessTokensIn(old(db.tables), userID, codec);
              ok <==> db.writable && codec.encode(AccessTokensValue(list + [token])).Some? &&
                      IsAnswered(old(settingCache.data), now, old(db.tables), db.readable, codec, userID,
                                 PersonalAccessTokens)
    {
      hide Valid, Codec.Faithful, UsersMirroredBut, SettingsMirroredBut, TTL.AfterSet, TTL.Recorded, TTL.LastSets,
           IsStored, KeyName, KeyNamed, IsSettingListing, Covers, LookupSetting, AsksFor, Undecodable, SettingCacheKey,
           UserAccessTokensIn, WithSetting, Live, Written;
      var existing := GetUserAccessTokens(userID, now);
      if existing.Err? { return false; }
      var updated := existing.value + [token];
      ok := WriteList(userID, PersonalAccessTokens, AccessTokensValue(updated));
    }

    /** Removes the personal access tokens of that id. */
    method RemoveUserPersonalAccessToken(userID: int, tokenID: string, now: int) returns (ok: bool)
      requires Valid()
      modifies db`tables, settingCache
      ensures fresh(Held(settingCache.data) - old(Held(settingCache.data)))
      ensures Valid()
      ensures var list := UserAccessTokensIn(old(db.tables), userID, codec);
              ok ==> Written(old(db.tables), db.tables, userID, PersonalAccessTokens,
                             AccessTokensValue(Without(list, AccessTokenID, tokenID)), codec)
      ensures !ok ==> db.tables == old(db.tables)
      ensures var list := UserAccessTokensIn(old(db.tables), userID, codec);
              ok <==> db.writable && codec.encode(AccessTokensValue(Without(list, AccessTokenID, tokenID))).Some? &&
                      IsAnswered(old(settingCache.data), now, old(db.tables), db.readable, codec, userID,
                                 PersonalAccessTokens)
    {
      hide Valid, Codec.Faithful, UsersMirroredBut, SettingsMirroredBut, TTL.AfterSet, TTL.Recorded, TTL.LastSets,
           IsStored, KeyName, KeyNamed, IsSettingListing, Covers, LookupSetting, AsksFor, Undecodable, SettingCacheKey,
           UserAccessTokensIn, Without, WithSetting, Live, Written;
      var existing := GetUserAccessTokens(userID, now);
      if existing.Err? { return false; }
      ghost var held := Held(settingCache.data);
      var updated := Remove(existing.value, AccessTokenID, tokenID);
      assert Held(settingCache.data) == held;
      ok := WriteList(userID, PersonalAccessTokens, AccessTokensValue(updated));
    }

    /** Replaces the webhooks of that id, or appends the webhook. */
    method AddUserWebhook(userID: int, webhook: Webhook, now: int) returns (ok: bool)
      requires Valid()
      modifies db`tables, settingCache
      ensures fresh(Held(settingCache.data) - old(Held(settingCache.data)))
      ensures Valid()
      ensures var list := UserWebhooksIn(old(db.tables), userID, codec);
              ok ==> Written(old(db.tables), db.tables, userID, Webhooks, WebhooksValue(WithWebhook(list, webhook)),
                             codec)
      ensures !ok ==> db.tables == old(db.tables)
      ensures var list := UserWebhooksIn(old(db.tables), userID, codec);
              ok <==> db.writable && codec.encode(WebhooksValue(WithWebhook(list, webhook))).Some? &&
                      IsAnswered(old(settingCache.data), now, old(db.tables), db.readable, codec, userID,
                                 Webhooks)
    {
      hide Valid, Codec.Faithful, UsersMirroredBut, SettingsMirroredBut, TTL.AfterSet, TTL.Recorded, TTL.LastSets,
           IsStored, KeyName, KeyNamed, IsSettingListing, Covers, LookupSetting, AsksFor, Undecodable, SettingCacheKey,
           UserWebhooksIn, WithWebhook, WithSetting, Live, Written;
      var existing := GetUserWebhooks(userID, now);
      if existing.Err? { return false; }
      ghost var held := Held(settingCache.data);
      var updated := AddWebhook(existing.value, webhook);
      assert Held(settingCache.data) == held;
      ok := WriteList(userID, Webhooks, WebhooksValue(updated));
    }

    /** Removes the webhooks of that id. */
    method RemoveUserWebhook(userID: int, webhookID: string, now: int) returns (ok: bool)
      requires Valid()
      modifies db`tables, settingCache
      ensures fresh(Held(settingCache.data) - old(Held(settingCache.data)))
      ensures Valid()
      ensures var list := UserWebhooksIn(old(db.tables), userID, codec);
              ok ==> Written(old(db.tables), db.tables, userID, Webhooks,
                             WebhooksValue(Without(list, WebhookID, webhookID)), codec)
      ensures !ok ==> db.tables == old(db.tables)
      ensures var list := UserWebhooksIn(old(db.tables), userID, codec);
              ok <==> db.writable && codec.encode(WebhooksValue(Without(list, WebhookID, webhookID))).Some? &&
                      IsAnswered(old(settingCache.data), now, old(db.tables), db.readable, codec, userID,
                                 Webhooks)
    {
      hide Valid, Codec.Faithful, UsersMirroredBut, SettingsMirroredBut, TTL.AfterSet, TTL.Recorded, TTL.LastSets,
           IsStored, KeyName, KeyNamed, IsSettingListing, Covers, LookupSetting, AsksFor, Undecodable, SettingCacheKey,
           UserWebhooksIn, Without, WithSetting, Live, Written;
      var existing := GetUserWebhooks(userID, now);
      if existing.Err? { return false; }
      ghost var held := Held(settingCache.data);
      var updated := Remove(existing.value, WebhookID, webhookID);
      assert Held(settingCache.data) == held;
      ok := WriteList(userID, Webhooks, WebhooksValue(updated));
    }

    /** Writes a list back that was changed in place: what is held in memory changes first, and then the database. */
    method WriteInPlace(userID: int, key: SettingKey, held: Option<Setting>, value: SettingValue) returns (ok: bool)
      requires Valid() && !key.KeyUnspecified? && KeyOf(value) == key
      requires LookupSetting(db.tables, userID, key, codec) == Ok(if held.Some? then Some(held.value.value) else None)
      requires held.Some? && SettingCacheKey(userID, key) in settingCache.data ==>
                 settingCache.data[SettingCacheKey(userID, key)].value == held.value
      requires held.Some? ==> SettingCacheKey(userID, key) == SettingCacheKey(held.value.userID, held.value.key)
      modifies db`tables, settingCache, if held.Some? then {held.value} else {}
      ensures fresh(Held(settingCache.data) - old(Held(settingCache.data)))
      ensures ok ==> Valid() && Written(old(db.tables), db.tables, userID, key, value, codec)
      ensures !ok ==> db.tables == old(db.tables) && settingCache.data == old(settingCache.data)
      ensures !ok ==> (Valid() <==> SettingCacheKey(userID, key) !in settingCache.data || held.None? ||
                                    old(held.value.value) == value)
      ensures !ok ==> ValidBut({SettingCacheKey(userID, key)})
      ensures ok <==> codec.encode(value).Some? && db.writable
    {
      hide Codec.Faithful, UsersMirroredBut, SettingsMirroredBut, TTL.AfterSet, TTL.Recorded, TTL.LastSets, IsStored,
           KeyName, KeyNamed, IsSettingListing, Covers, LookupSetting, AsksFor, Undecodable, SettingCacheKey;
      assert Carried(key, value) == value;
      SettingsMirroredButOne(SettingCacheKey(userID, key), settingCache.data, db.tables.settings, codec);
      if held.Some? {
        Overwrite(held.value, value);
        LookupIsStored(db.tables, userID, key, codec);
        MirroredIff(SettingCacheKey(userID, key), held.value, settingCache.data, db.tables.settings, codec);
        CacheKeysAreInjective(userID, key, held.value.userID, held.value.key);
      } else {
        NotHeld(userID, key, settingCache.data, db.tables, codec);
      }
      ghost var agree := SettingsMirroredBut({}, settingCache.data, db.tables.settings, codec);
      ghost var holds := Held(settingCache.data);
      var written := UpsertUserSetting(userID, key, value);
      ok := written.Ok?;
      if !ok {
        assert Held(settingCache.data) == holds;
        assert SettingsMirroredBut({}, settingCache.data, db.tables.settings, codec) == agree;
      }
    }

    /** Changes a setting object; if the cache holds it, it holds the new value. */
    method Overwrite(s: Setting, value: SettingValue)
      requires Valid()
      modifies s
      ensures s.value == value && ValidBut({SettingCacheKey(s.userID, s.key)})
    {
      hide Codec.Faithful, UsersMirroredBut, SettingsMirroredBut, TTL.AfterSet, TTL.Recorded, TTL.LastSets, IsStored,
           KeyName, KeyNamed, IsSettingListing, Covers, LookupSetting, AsksFor, Undecodable;
      HeldUnderOwnKey(s, settingCache.data, db.tables.settings, codec);
      ghost var others := map k | k in settingCache.data &&
        k != SettingCacheKey(s.userID, s.key) :: settingCache.data[k];
      FewerSettingsMirrored({}, settingCache.data, others, db.tables.settings, codec);
      assert s !in Held(others);
      ghost var rest := Held(others);
      s.value := value;
      assert Held(others) == rest;
      OthersAreRest(others, SettingCacheKey(s.userID, s.key), settingCache.data, db.tables.settings, codec);
    }

    /**
     Stamps the first token of that id. The stamp goes into the cached list before it is written. If the write fails,
     the caches agree with the database if the stamp changes nothing, or if the list is neither cached nor to be read;
     and only then, unless a bounded cache did not keep the list it had just read.
     */
    method UpdatePATLastUsed(userID: int, tokenID: string, lastUsed: Option<int>, now: int) returns (ok: bool)
      requires Valid()
      modifies db`tables, settingCache, Held(settingCache.data)
      ensures fresh(Held(settingCache.data) - old(Held(settingCache.data)))
      ensures ok ==> Valid()
      ensures var list := UserAccessTokensIn(old(db.tables), userID, codec);
              ok ==> Written(old(db.tables), db.tables, userID, PersonalAccessTokens,
                             AccessTokensValue(MarkedUsed(list, tokenID, lastUsed)), codec)
      ensures !ok ==> db.tables == old(db.tables)
      ensures var k, list := SettingCacheKey(userID, PersonalAccessTokens),
              UserAccessTokensIn(db.tables, userID, codec);
              var live := Live(old(settingCache.data), k, now);
              var harmless := MarkedUsed(list, tokenID, lastUsed) == list || (!live && !db.readable);
              !ok ==> ValidBut({k}) && (harmless ==> Valid()) &&
                      (live || settingCache.maxItems <= 0 ==> (Valid() <==> harmless))
      ensures var list := UserAccessTokensIn(old(db.tables), userID, codec);
              ok <==> db.writable && codec.encode(AccessTokensValue(MarkedUsed(list, tokenID, lastUsed))).Some? &&
                      IsAnswered(old(settingCache.data), now, old(db.tables), db.readable, codec, userID,
                                 PersonalAccessTokens)
    {
      hide Valid, ValidBut, Codec.Faithful, UsersMirroredBut, SettingsMirroredBut, TTL.AfterSet, TTL.Recorded,
           TTL.LastSets, IsStored, KeyName, KeyNamed, IsSettingListing, Covers, LookupSetting, AsksFor, Undecodable,
           SettingCacheKey, UserAccessTokensIn, MarkedUsed, WithSetting, Live, Written;
      var read := GetUserSetting(FindUserSetting(Some(userID), PersonalAccessTokens), now);
      CodecIsFaithful();
      UserAccessTokensRead(db.tables, userID, codec);
      UserAccessTokensUnread(db.tables, userID, tokenID, lastUsed, codec);
      if read.Err? {
        ValidIsValidBut(SettingCacheKey(userID, PersonalAccessTokens));
        return false;
      }
      var list := if read.value.None? then [] else read.value.value.value.tokens;
      list := MarkUsed(list, tokenID, lastUsed);
      ok := WriteInPlace(userID, PersonalAccessTokens, read.value, AccessTokensValue(list));
    }

    /** Replaces the first webhook of that id, in the cached list before it is written, with the same consequence. */
    method UpdateUserWebhook(userID: int, webhook: Webhook, now: int) returns (ok: bool)
      requires Valid()
      modifies db`tables, settingCache, Held(settingCache.data)
      ensures fresh(Held(settingCache.data) - old(Held(settingCache.data)))
      ensures ok ==> Valid()
      ensures var list := UserWebhooksIn(old(db.tables), userID, codec);
              ok ==> Written(old(db.tables), db.tables, userID, Webhooks, WebhooksValue(ChangedWebhook(list, webhook)),
                             codec)
      ensures !ok ==> db.tables == old(db.tables)
      ensures var k, list := SettingCacheKey(userID, Webhooks), UserWebhooksIn(db.tables, userID, codec);
              var live := Live(old(settingCache.data), k, now);
              var harmless := ChangedWebhook(list, webhook) == list || (!live && !db.readable);
              !ok ==> ValidBut({k}) && (harmless ==> Valid()) &&
                      (live || settingCache.maxItems <= 0 ==> (Valid() <==> harmless))
      ensures var list := UserWebhooksIn(old(db.tables), userID, codec);
              ok <==> db.writable && codec.encode(WebhooksValue(ChangedWebhook(list, webhook))).Some? &&
                      IsAnswered(old(settingCache.data), now, old(db.tables), db.readable, codec, userID,
                                 Webhooks)
    {
      hide Valid, ValidBut, Codec.Faithful, UsersMirroredBut, SettingsMirroredBut, TTL.AfterSet, TTL.Recorded,
           TTL.LastSets, IsStored, KeyName, KeyNamed, IsSettingListing, Covers, LookupSetting, AsksFor, Undecodable,
           SettingCacheKey, UserWebhooksIn, ChangedWebhook, WithSetting, Live, Written;
      var read := GetUserSetting(FindUserSetting(Some(userID), Webhooks), now);
      CodecIsFaithful();
      UserWebhooksRead(db.tables, userID, codec);
      UserWebhooksUnread(db.tables, userID, webhook, codec);
      if read.Err? {
        ValidIsValidBut(SettingCacheKey(userID, Webhooks));
        return false;
      }
      var list := if read.value.None? then [] else read.value.value.value.webhooks;
      list := ChangeWebhook(list, webhook);
      ok := WriteInPlace(userID, Webhooks, read.value, WebhooksValue(list));
    }

    /** Deletes the settings asked for, and forgets those cached. */
    method DeleteUserSettings(find: FindUserSetting) returns (ok: bool)
      requires Valid()
      modifies db`tables, settingCache
      ensures fresh(Held(settingCache.data) - old(Held(settingCache.data)))
      ensures Valid()
      ensures var before := old(db.tables);
              db.tables == if ok then
                before.(settings := map s | s in before.settings && !AsksFor(find, s) :: before.settings[s]) else before
      ensures ok <==> db.readable && db.writable && !Undecodable(old(db.tables), find, codec)
    {
      hide Codec.Faithful, UsersMirroredBut, SettingsMirroredBut, TTL.AfterSet, TTL.Recorded, TTL.LastSets, IsStored,
           KeyName, KeyNamed, IsSettingListing, Covers, LookupSetting, AsksFor, Undecodable, SettingCacheKey;
      var existing := ListUserSettings(find);
      if existing.Err? { return false; }
      ghost var before, held := db.tables, Held(settingCache.data);
      ok := db.DeleteUserSettings(find);
      assert Held(settingCache.data) == held;
      if !ok { return; }
      DeletedAreListed(settingCache.data, before, find, existing.value, db.tables.settings, codec);
      ForgetSettings(existing.value);
    }

    /** Forgets the settings listed, which the database no longer holds. */
    method ForgetSettings(list: seq<Setting>)
      requires settingCache.Valid() &&
               SettingsMirroredBut(CacheKeysFrom(list, 0), settingCache.data, db.tables.settings, codec)
      modifies settingCache
      ensures settingCache.Valid() && SettingsMirroredBut({}, settingCache.data, db.tables.settings, codec)
      ensures Held(settingCache.data) <= old(Held(settingCache.data))
    {
      hide Codec.Faithful, UsersMirroredBut, SettingsMirroredBut, TTL.AfterSet, TTL.Recorded, TTL.LastSets, IsStored,
           KeyName, KeyNamed, IsSettingListing, Covers, LookupSetting, AsksFor, Undecodable, SettingCacheKey;
      for i := 0 to |list|
        invariant settingCache.Valid() && Held(settingCache.data) <= old(Held(settingCache.data))
        invariant SettingsMirroredBut(CacheKeysFrom(list, i), settingCache.data, db.tables.settings, codec)
      {
        ForgetSetting(list[i].userID, list[i].key, CacheKeysFrom(list, i));
        NextKeys(list, i);
        MoreExcepted(CacheKeysFrom(list, i) - {SettingCacheKey(list[i].userID, list[i].key)},
                     CacheKeysFrom(list, i + 1),
                     settingCache.data, db.tables.settings, codec);
      }
      NoKeysLeft(list);
    }

    method ForgetSetting(userID: int, key: SettingKey, ghost pending: set<string>)
      requires settingCache.Valid() && SettingsMirroredBut(pending, settingCache.data, db.tables.settings, codec)
      modifies settingCache
      ensures Held(settingCache.data) <= old(Held(settingCache.data))
      ensures settingCache.Valid()
      ensures SettingsMirroredBut(pending - {SettingCacheKey(userID, key)}, settingCache.data, db.tables.settings,
                                  codec)
    {
      hide Codec.Faithful, UsersMirroredBut, SettingsMirroredBut, TTL.AfterSet, TTL.Recorded, TTL.LastSets, IsStored,
           KeyName, KeyNamed, IsSettingListing, Covers, LookupSetting, AsksFor, Undecodable, SettingCacheKey;
      ghost var before := settingCache.data;
      settingCache.Delete(SettingCacheKey(userID, key));
      assert Held(before) == old(Held(settingCache.data));
      OneForgotten(pending, SettingCacheKey(userID, key), before, db.tables.settings, codec);
    }

    /** Forgets the user's settings of those keys, which the database no longer holds. */
    method ForgetSettingsOf(userID: int, keys: seq<SettingKey>)
      requires settingCache.Valid() &&
               SettingsMirroredBut(UserKeysFrom(userID, keys, 0), settingCache.data, db.tables.settings, codec)
      modifies settingCache
      ensures settingCache.Valid() && SettingsMirroredBut({}, settingCache.data, db.tables.settings, codec)
      ensures Held(settingCache.data) <= old(Held(settingCache.data))
    {
      hide Codec.Faithful, UsersMirroredBut, SettingsMirroredBut, TTL.AfterSet, TTL.Recorded, TTL.LastSets, IsStored,
           KeyName, KeyNamed, IsSettingListing, Covers, LookupSetting, AsksFor, Undecodable, SettingCacheKey;
      for i := 0 to |keys|
        invariant settingCache.Valid() && Held(settingCache.data) <= old(Held(settingCache.data))
        invariant SettingsMirroredBut(UserKeysFrom(userID, keys, i), settingCache.data, db.tables.settings, codec)
      {
        ForgetSetting(userID, keys[i], UserKeysFrom(userID, keys, i));
        NextUserKeys(userID, keys, i);
        MoreExcepted(UserKeysFrom(userID, keys, i) - {SettingCacheKey(userID, keys[i])},
                     UserKeysFrom(userID, keys, i + 1), settingCache.data, db.tables.settings, codec);
      }
      NoUserKeysLeft(userID, keys);
    }

    /** Deletes the user with everything that hangs on the user, and forgets what is cached of it. */
    method DeleteUserCompletely(userID: int, failBeforeCommit: bool,
                                reliable: bool) returns (r: Result<seq<UserDelete.AttachmentRow>>)
      requires Valid()
      modifies db`tables, userCache, settingCache
      ensures fresh(Held(settingCache.data) - old(Held(settingCache.data)))
      ensures Valid()
      ensures db.tables == if r.Ok? then UserDelete.AfterDelete(old(db.tables), userID) else old(db.tables)
      ensures var t := old(db.tables);
              r.Ok? ==>
                UserDelete.Gathered(t, UserDelete.OwnAttachments(t, userID) +
                                    UserDelete.AttachmentsOn(t, Tree(t, userID)), r.value)
      ensures var possible := (!failBeforeCommit && !UserDelete.Blocked(old(db.tables), userID) &&
                               db.driver in {"sqlite", "mysql", "postgres"});
              (r.Ok? ==> possible) && (possible && reliable ==> r.Ok?)
    {
      hide Codec.Faithful, UsersMirroredBut, SettingsMirroredBut, TTL.AfterSet, TTL.Recorded, TTL.LastSets, IsStored,
           KeyName, KeyNamed, IsSettingListing, Covers, LookupSetting, AsksFor, Undecodable, SettingCacheKey,
           UserDelete.AfterDelete, UserDelete.AreTargets, UserDelete.Gathered, UserDelete.OwnAttachments,
           UserDelete.AttachmentsOn, UserDelete.Blocked, Tree;
      var deleted := UserDelete.DeleteUserRows(db, userID, failBeforeCommit, reliable);
      assert Held(settingCache.data) == old(Held(settingCache.data));
      if deleted.Err? { return Err; }
      var keys := deleted.value.settingKeys;
      AfterDeleteIs(old(db.tables), userID);
      OtherUsersMirrored(userCache.data, old(db.tables).users, userID, db.tables.users);
      UserDelete.TargetsAreRead(old(db.tables), userID, deleted.value);
      SettingsOfUser(settingCache.data, old(db.tables), userID, keys, db.tables.settings, codec);
      ForgetUser(userID);
      assert Held(settingCache.data) == old(Held(settingCache.data));
      ForgetSettingsOf(userID, keys);
      return Ok(deleted.value.attachments);
    }

    /** The caches' own cleaning. */
    method CleanCaches(clock: string -> int)
      requires Valid()
      modifies userCache, settingCache
      ensures fresh(Held(settingCache.data) - old(Held(settingCache.data)))
      ensures Valid()
      ensures var users := old(userCache.data);
              userCache.data == map k | k in users && clock(k) <= users[k].expiration :: users[k]
      ensures var settings := old(settingCache.data);
              settingCache.data == map k | k in settings && clock(k) <= settings[k].expiration :: settings[k]
    {
      hide TTL.Reports, UsersMirroredBut, SettingsMirroredBut, TTL.AfterSet, TTL.Recorded, TTL.LastSets, IsStored,
           KeyName, KeyNamed, IsSettingListing, Covers, LookupSetting, AsksFor, Undecodable, SettingCacheKey;
      ghost var users, settings := userCache.data, settingCache.data;
      userCache.Cleanup(clock);
      FewerUsersMirrored({}, users, userCache.data, db.tables.users);
      assert Held(settingCache.data) == old(Held(settingCache.data));
      settingCache.Cleanup(clock);
      assert Held(settings) == old(Held(settingCache.data));
      FewerSettingsMirrored({}, settings, settingCache.data, db.tables.settings, codec);
    }
  }

  lemma FewerUsersMirroredButOne(user: User, data: CachedUsers, users: map<int, UserFields>)
    requires UsersMirroredBut({}, data, users)
    ensures UsersMirroredBut({UserCacheKey(user.id)}, data, users)
  {
  }

  lemma ListedUser(t: Tables, find: FindUser, list: seq<User>, i: nat)
    requires IsListing(t, find, list) && i < |list|
    ensures list[i].id in t.users && t.users[list[i].id] == list[i].fields
  {
  }

  lemma SomebodyIsListed(t: Tables, list: seq<User>)
    requires IsListing(t, EVERYONE.(limit := Some(1)), list)
    ensures |list| > 0 <==> t.users != map[]
  {
    var find := EVERYONE.(limit := Some(1));
    assert Found(t, find) == t.users.Keys;
  }

  /** What a read of the cache says of the database. */
  lemma LiveUser(before: CachedUsers, after: CachedUsers, id: int, now: int, t: Tables, r: Option<User>)
    requires UsersMirroredBut({}, before, t.users)
    requires r.Some? <==> UserCacheKey(id) in before && now <= before[UserCacheKey(id)].expiration
    requires r.Some? ==> r.value == before[UserCacheKey(id)].value && after == before
    requires r.None? ==> after == before - {UserCacheKey(id)}
    ensures UsersMirroredBut({}, after, t.users)
    ensures r.Some? <==> Live(before, UserCacheKey(id), now)
    ensures r.Some? ==> id in t.users && r.value == User(id, t.users[id])
    ensures r.Some? ==> forall find: FindUser ::
              Some(r.value) == LookupUser(t, id, find) <==> Matches(id, t.users[id], find) && find.limit != Some(0)
  {
    if r.Some? {
      CacheKeysAreInjective(id, KeyUnspecified, r.value.id, KeyUnspecified);
    }
  }

  lemma FirstListed(t: Tables, find: FindUser, list: seq<User>)
    requires IsListing(t, find, list)
    ensures find.id.Some? ==> LookupUser(t, find.id.value, find) == if list == [] then None else Some(list[0])
    ensures list == [] ==> Limited(|Found(t, find)|, find.limit) == 0
    ensures list != [] ==> list[0].id in Found(t, find) && list[0].id in t.users &&
                           list[0].fields == t.users[list[0].id]
  {
    if find.id.Some? { ListingOfOne(t, find, list); }
  }

  lemma HeldAfterSet(before: CachedSettings, after: CachedSettings, s: Setting, expiration: int, maxItems: int)
    requires TTL.AfterSet(before, after, SettingCacheKey(s.userID, s.key), TTL.Item(s, expiration), maxItems)
    ensures Held(after) <= Held(before) + {s}
    ensures SettingCacheKey(s.userID, s.key) in after ==> after[SettingCacheKey(s.userID, s.key)].value == s
    ensures maxItems <= 0 ==> SettingCacheKey(s.userID, s.key) in after
  {
    var stored := before[SettingCacheKey(s.userID, s.key) := TTL.Item(s, expiration)];
    forall k | k in after ensures after[k].value in Held(before) + {s} {
      assert k in stored && after[k] == stored[k];
    }
  }

  // Settings read and written.

  ghost function WithSetting(t: Tables, userID: int, key: SettingKey, value: SettingValue, codec: Codec): Tables
    requires codec.encode(value).Some?
  {
    t.(settings := t.settings[(userID, KeyName(key)) := codec.encode(value).value])
  }

  /** The value was stored under the key, and no other row has changed. */
  ghost predicate Written(before: Tables, after: Tables, userID: int, key: SettingKey, value: SettingValue,
                          codec: Codec) {
    codec.encode(value).Some? && after == WithSetting(before, userID, key, value, codec)
  }

  lemma StoredAfterUpsert(t: Tables, userID: int, key: SettingKey, value: SettingValue, codec: Codec)
    requires codec.Faithful() && !key.KeyUnspecified? && codec.encode(Carried(key, value)).Some?
    ensures codec.decode(key, codec.encode(Carried(key, value)).value) == Some(Carried(key, value))
    ensures IsStored(userID, key, Carried(key, value), WithSetting(t, userID, key, Carried(key, value), codec).settings,
                     codec)
  {
    assert KeyOf(Carried(key, value)) == key;
  }

  lemma UpsertTouchesOne(data: CachedSettings, settings: SettingRows, userID: int, key: SettingKey, text: string,
                         codec: Codec)
    requires SettingsMirroredBut({SettingCacheKey(userID, key)}, data, settings, codec)
    ensures SettingsMirroredBut({SettingCacheKey(userID, key)}, data, settings[(userID, KeyName(key)) := text], codec)
  {
    forall k | k in data && k != SettingCacheKey(userID, key)
      ensures MirrorsSetting(k, data[k].value, settings[(userID, KeyName(key)) := text], codec)
    {
      var s := data[k].value;
      if KeyName(s.key) == KeyName(key) { KeyNameInjective(s.key, key); }
    }
  }

  lemma SettingsMirroredButOne(k: string, data: CachedSettings, settings: SettingRows, codec: Codec)
    requires SettingsMirroredBut({}, data, settings, codec)
    ensures SettingsMirroredBut({k}, data, settings, codec)
  {
  }

  ghost predicate Wanted(t: Tables, find: FindUserSetting, row: (int, string)) {
    row in t.settings && AsksFor(find, row) && !KeyNamed(row.1).KeyUnspecified?
  }

  /** A row asked for, of a known key, that does not decode. */
  ghost predicate Undecodable(t: Tables, find: FindUserSetting, codec: Codec) {
    exists row :: Wanted(t, find, row) && codec.decode(KeyNamed(row.1), t.settings[row]).None?
  }

  /** One setting for every row asked for that has a known key, and no other. */
  ghost predicate Covers(t: Tables, find: FindUserSetting, list: seq<Setting>) {
    && (forall i :: 0 <= i < |list| ==>
          !list[i].key.KeyUnspecified? && Wanted(t, find, (list[i].userID, KeyName(list[i].key))))
    && (forall row :: Wanted(t, find, row) ==>
          exists i :: 0 <= i < |list| && (list[i].userID, KeyName(list[i].key)) == row)
    && (forall i, j :: 0 <= i < j < |list| ==> (list[i].userID, list[i].key) != (list[j].userID, list[j].key))
  }

  /** What a listing says of the rows of known keys. */
  ghost predicate Facts(t: Tables, find: FindUserSetting, raws: seq<RawSetting>) {
    && (forall i :: 0 <= i < |raws| && !raws[i].key.KeyUnspecified? ==> IsRawOf(t, find, raws[i]))
    && (forall row :: Wanted(t, find, row) ==> exists i :: 0 <= i < |raws| && raws[i] == RawOf(t, row))
    && (forall i, j :: 0 <= i < j < |raws| && !raws[i].key.KeyUnspecified? ==>
          (raws[i].userID, raws[i].key) != (raws[j].userID, raws[j].key))
  }

  ghost predicate IsRawOf(t: Tables, find: FindUserSetting, raw: RawSetting) {
    var row := (raw.userID, KeyName(raw.key));
    Wanted(t, find, row) && RawOf(t, row) == raw
  }

  lemma NameOfKeyNamed(name: string)
    requires !KeyNamed(name).KeyUnspecified?
    ensures KeyName(KeyNamed(name)) == name
  {
  }

  lemma ListingFacts(t: Tables, find: FindUserSetting, raws: seq<RawSetting>)
    requires IsSettingListing(t, find, raws)
    ensures Facts(t, find, raws)
  {
    var rows: seq<(int, string)> :|
      && |rows| == |raws| && RangeOf(rows) == FoundSettings(t, find)
      && (forall i, j :: 0 <= i < j < |rows| ==> rows[i] != rows[j])
      && forall i :: 0 <= i < |rows| ==> rows[i] in t.settings && raws[i] == RawOf(t, rows[i]);
    forall i | 0 <= i < |raws| && !raws[i].key.KeyUnspecified?
      ensures IsRawOf(t, find, raws[i]) && rows[i] == (raws[i].userID, KeyName(raws[i].key))
    {
      NameOfKeyNamed(rows[i].1);
      assert rows[i] in RangeOf(rows);
    }
    forall row | Wanted(t, find, row) ensures exists i :: 0 <= i < |raws| && raws[i] == RawOf(t, row) {
      assert row in RangeOf(rows);
      var i :| 0 <= i < |rows| && rows[i] == row;
      assert raws[i] == RawOf(t, row);
    }
    forall i, j | 0 <= i < j < |raws| && !raws[i].key.KeyUnspecified?
      ensures (raws[i].userID, raws[i].key) != (raws[j].userID, raws[j].key) {
      if raws[i].key == raws[j].key {
        assert rows[j] == (raws[j].userID, KeyName(raws[j].key));
      }
    }
  }

  /** The settings made so far come, in order, from the raw rows of known keys. */
  ghost predicate ComesFrom(list: seq<Setting>, from: seq<int>, raws: seq<RawSetting>, n: int) {
    && 0 <= n <= |raws| && |from| == |list|
    && (forall i :: 0 <= i < |from| ==>
          0 <= from[i] < n && list[i].userID == raws[from[i]].userID && list[i].key == raws[from[i]].key)
    && (forall i, j :: 0 <= i < j < |from| ==> from[i] < from[j])
    && (forall i :: 0 <= i < |from| ==> !list[i].key.KeyUnspecified?)
    && (forall m :: 0 <= m < n && !raws[m].key.KeyUnspecified? ==> m in from)
  }

  lemma SkipOne(list: seq<Setting>, from: seq<int>, raws: seq<RawSetting>, n: int)
    requires ComesFrom(list, from, raws, n) && n < |raws| && raws[n].key.KeyUnspecified?
    ensures ComesFrom(list, from, raws, n + 1)
  {
  }

  lemma TakeOne(list: seq<Setting>, from: seq<int>, raws: seq<RawSetting>, n: int, s: Setting)
    requires ComesFrom(list, from, raws, n) && n < |raws| && !raws[n].key.KeyUnspecified?
    requires s.userID == raws[n].userID && s.key == raws[n].key
    ensures ComesFrom(list + [s], from + [n], raws, n + 1)
  {
    assert forall m :: m in from || m == n ==> m in from + [n];
  }

  ghost predicate Decodable(raws: seq<RawSetting>, n: int, codec: Codec) {
    forall i :: 0 <= i < n <= |raws| && !raws[i].key.KeyUnspecified? ==> codec.decode(raws[i].key, raws[i].value).Some?
  }

  lemma NoneTaken(raws: seq<RawSetting>, settings: SettingRows, codec: Codec)
    ensures ComesFrom([], [], raws, 0) && Decodable(raws, 0, codec) && AllStored([], settings, codec) &&
            RangeOf<Setting>([]) == {}
  {
  }

  /** The settings are what their rows decode to. */
  ghost predicate AllStored(list: seq<Setting>, settings: SettingRows, codec: Codec)
    reads RangeOf(list)
  {
    forall i :: 0 <= i < |list| ==> IsStored(list[i].userID, list[i].key, list[i].value, settings, codec)
  }

  lemma OneMoreStored(list: seq<Setting>, s: Setting, settings: SettingRows, codec: Codec)
    requires AllStored(list, settings, codec) && IsStored(s.userID, s.key, s.value, settings, codec)
    ensures AllStored(list + [s], settings, codec) && RangeOf(list + [s]) == RangeOf(list) + {s}
  {
    RangeOfSum(list, [s]);
    OneInRange(s);
  }

  lemma DecodedOneMore(raws: seq<RawSetting>, n: int, codec: Codec)
    requires Decodable(raws, n, codec) && 0 <= n < |raws|
    requires raws[n].key.KeyUnspecified? || codec.decode(raws[n].key, raws[n].value).Some?
    ensures Decodable(raws, n + 1, codec)
  {
  }

  lemma RawIsStored(t: Tables, find: FindUserSetting, raws: seq<RawSetting>, i: nat, codec: Codec)
    requires Facts(t, find, raws) && i < |raws| && !raws[i].key.KeyUnspecified?
    ensures var d := codec.decode(raws[i].key, raws[i].value);
            d.Some? ==> IsStored(raws[i].userID, raws[i].key, d.value, t.settings, codec)
  {
    assert IsRawOf(t, find, raws[i]);
  }

  lemma UndecodableRow(t: Tables, find: FindUserSetting, raws: seq<RawSetting>, i: nat, codec: Codec)
    requires Facts(t, find, raws) && i < |raws| && !raws[i].key.KeyUnspecified? &&
             codec.decode(raws[i].key, raws[i].value).None?
    ensures Undecodable(t, find, codec)
  {
    assert IsRawOf(t, find, raws[i]);
    assert Wanted(t, find, (raws[i].userID, KeyName(raws[i].key)));
  }

  lemma AllTaken(t: Tables, find: FindUserSetting, list: seq<Setting>, from: seq<int>, raws: seq<RawSetting>,
                 codec: Codec)
    requires Facts(t, find, raws) && ComesFrom(list, from, raws, |raws|) && Decodable(raws, |raws|, codec)
    ensures Covers(t, find, list) && !Undecodable(t, find, codec)
  {
    forall row | Wanted(t, find, row)
      ensures exists i :: 0 <= i < |list| && (list[i].userID, KeyName(list[i].key)) == row
      ensures codec.decode(KeyNamed(row.1), t.settings[row]).Some?
    {
      NameOfKeyNamed(row.1);
      var m :| 0 <= m < |raws| && raws[m] == RawOf(t, row);
      assert m in from;
      var i :| 0 <= i < |from| && from[i] == m;
      assert (list[i].userID, KeyName(list[i].key)) == row;
    }
    forall i | 0 <= i < |list| ensures Wanted(t, find, (list[i].userID, KeyName(list[i].key))) {
      assert IsRawOf(t, find, raws[from[i]]);
    }
    forall i, j | 0 <= i < j < |list| ensures (list[i].userID, list[i].key) != (list[j].userID, list[j].key) {
      assert from[i] < from[j];
      assert !raws[from[i]].key.KeyUnspecified?;
    }
  }

  ghost function ValueOf(s: Option<Setting>): Option<SettingValue>
    reads if s.Some? then {s.value} else {}
  {
    if s.None? then None else Some(s.value.value)
  }

  /** What the database answers for a user and a key. */
  ghost predicate Fetched(before: CachedSettings, after: CachedSettings, maxItems: int, t: Tables, readable: bool,
                          codec: Codec, userID: int, key: SettingKey, r: Result<Option<Setting>>)
    reads if r.Ok? && r.value.Some? then {r.value.value} else {}
  {
    var k, found := SettingCacheKey(userID, key), LookupSetting(t, userID, key, codec);
    && (r.Ok? <==> readable && found.Ok?)
    && (r.Ok? ==> found == Ok(ValueOf(r.value)) && IsHeldAs(after, maxItems, k, r.value))
    && (!readable ==> after == before)
  }

  /** The setting belongs to the cache key, and nothing else is cached there; an unbounded cache holds it. */
  ghost predicate IsHeldAs(data: CachedSettings, maxItems: int, k: string, s: Option<Setting>) {
    s.Some? ==> k == SettingCacheKey(s.value.userID, s.value.key) && (k in data ==> data[k].value == s.value) &&
                (maxItems <= 0 ==> k in data)
  }

  /**
   What the store answers: the database's decoded row, also where it comes from the cache or the database is out of
   reach.
   */
  ghost predicate Answered(before: CachedSettings, after: CachedSettings, maxItems: int, t: Tables, readable: bool,
                           codec: Codec, userID: int, key: SettingKey, now: int, r: Result<Option<Setting>>)
    reads if r.Ok? && r.value.Some? then {r.value.value} else {}
  {
    var k, found := SettingCacheKey(userID, key), LookupSetting(t, userID, key, codec);
    && (r.Ok? <==> Live(before, k, now) || (readable && found.Ok?))
    && (r.Ok? ==> found == Ok(ValueOf(r.value)) && IsHeldAs(after, maxItems, k, r.value))
    && (Live(before, k, now) ==> k in after)
    && (r.Err? && !readable ==> k !in after)
  }

  lemma FetchedIsAnswer(before: CachedSettings, between: CachedSettings, after: CachedSettings, maxItems: int,
                        t: Tables, readable: bool, codec: Codec, userID: int, key: SettingKey, now: int,
                          r: Result<Option<Setting>>)
    requires !Live(before, SettingCacheKey(userID, key), now) && SettingCacheKey(userID, key) !in between
    requires Fetched(between, after, maxItems, t, readable, codec, userID, key, r)
    ensures Answered(before, after, maxItems, t, readable, codec, userID, key, now, r)
  {
  }

  /** What a read of the setting cache says of the database. */
  lemma LiveSetting(before: CachedSettings, after: CachedSettings, userID: int, key: SettingKey, now: int, t: Tables,
                    codec: Codec, r: Option<Setting>)
    requires SettingsMirroredBut({}, before, t.settings, codec)
    requires r.Some? <==> SettingCacheKey(userID, key) in before &&
                          now <= before[SettingCacheKey(userID, key)].expiration
    requires r.Some? ==> r.value == before[SettingCacheKey(userID, key)].value && after == before
    requires r.None? ==> after == before - {SettingCacheKey(userID, key)}
    ensures SettingsMirroredBut({}, after, t.settings, codec)
    ensures r.Some? <==> Live(before, SettingCacheKey(userID, key), now)
    ensures r.None? ==> SettingCacheKey(userID, key) !in after
    ensures Held(after) <= Held(before)
    ensures r.Some? ==> r.value in Held(before) && r.value.userID == userID && r.value.key == key &&
                        SettingCacheKey(userID, key) in after &&
                        after[SettingCacheKey(userID, key)].value == r.value
    ensures r.Some? ==> LookupSetting(t, userID, key, codec) == Ok(Some(r.value.value))
  {
    if r.Some? {
      assert MirrorsSetting(SettingCacheKey(userID, key), r.value, t.settings, codec);
      CacheKeysAreInjective(userID, key, r.value.userID, r.value.key);
    }
  }

  lemma OneRowWanted(t: Tables, find: FindUserSetting, row: (int, string))
    requires find.userID.Some? && !find.key.KeyUnspecified?
    ensures Wanted(t, find, row) <==> row in t.settings && row == (find.userID.value, KeyName(find.key))
  {
    KeyNameIsOneWord(find.key);
  }

  lemma UndecodableIff(t: Tables, find: FindUserSetting, codec: Codec)
    requires find.userID.Some? && !find.key.KeyUnspecified?
    ensures Undecodable(t, find, codec) <==> LookupSetting(t, find.userID.value, find.key, codec).Err?
  {
    var row := (find.userID.value, KeyName(find.key));
    KeyNameIsOneWord(find.key);
    OneRowWanted(t, find, row);
    hide KeyName, KeyNamed, Wanted;
    if Undecodable(t, find, codec) {
      var other :| Wanted(t, find, other) && codec.decode(KeyNamed(other.1), t.settings[other]).None?;
      OneRowWanted(t, find, other);
    }
  }

  lemma SettingOfOneRow(t: Tables, find: FindUserSetting, list: seq<Setting>, i: nat)
    requires find.userID.Some? && !find.key.KeyUnspecified? && Covers(t, find, list) && i < |list|
    ensures list[i].userID == find.userID.value && list[i].key == find.key &&
            (find.userID.value, KeyName(find.key)) in t.settings
  {
    OneRowWanted(t, find, (list[i].userID, KeyName(list[i].key)));
    KeyNameInjective(list[i].key, find.key);
  }

  lemma AtMostOneListed(t: Tables, find: FindUserSetting, list: seq<Setting>)
    requires find.userID.Some? && !find.key.KeyUnspecified? && Covers(t, find, list)
    ensures |list| <= 1 && (list == [] <==> (find.userID.value, KeyName(find.key)) !in t.settings)
    ensures list != [] ==> list[0].userID == find.userID.value && list[0].key == find.key
  {
    assert |list| > 1 ==> (list[0].userID, list[0].key) != (list[1].userID, list[1].key);
    OneRowWanted(t, find, (find.userID.value, KeyName(find.key)));
    assert Wanted(t, find, (find.userID.value, KeyName(find.key))) ==> list != [];
    hide KeyName, KeyNamed, Wanted;
    if |list| > 0 { SettingOfOneRow(t, find, list, 0); }
    if |list| > 1 { SettingOfOneRow(t, find, list, 1); }
  }

  /** For a user and a key, a listing is the lookup. */
  lemma SettingsListed(t: Tables, find: FindUserSetting, codec: Codec, list: seq<Setting>)
    requires Undecodable(t, find, codec) || Covers(t, find, list)
    requires Undecodable(t, find, codec) || AllStored(list, t.settings, codec)
    ensures find.userID.Some? && !find.key.KeyUnspecified? ==>
              var found := LookupSetting(t, find.userID.value, find.key, codec);
              && (Undecodable(t, find, codec) <==> found.Err?)
              && (found.Ok? ==> |list| <= 1 && (list == [] <==> found.value.None?))
              && (found.Ok? && list != [] ==> list[0].userID == find.userID.value && list[0].key == find.key &&
                                              found.value == Some(list[0].value))
  {
    if find.userID.Some? && !find.key.KeyUnspecified? {
      UndecodableIff(t, find, codec);
      if !Undecodable(t, find, codec) {
        AtMostOneListed(t, find, list);
        hide KeyName, KeyNamed, Wanted, Undecodable, Covers;
      }
    }
  }

  /** The refresh tokens that the database holds for the user. */
  function UserRefreshTokensIn(t: Tables, userID: int, codec: Codec): seq<RefreshToken> {
    match LookupSetting(t, userID, RefreshTokens, codec)
    case Ok(Some(RefreshTokensValue(list))) => list
    case _ => []
  }

  lemma UserRefreshTokensRead(t: Tables, userID: int, codec: Codec)
    requires codec.Faithful()
    ensures var found := LookupSetting(t, userID, RefreshTokens, codec);
            found.Ok? ==> if found.value.None? then UserRefreshTokensIn(t, userID, codec) == []
                          else found.value.value.RefreshTokensValue? &&
                               UserRefreshTokensIn(t, userID, codec) == found.value.value.refreshTokens
  {
  }

  /** The personal access tokens that the database holds for the user. */
  function UserAccessTokensIn(t: Tables, userID: int, codec: Codec): seq<AccessToken> {
    match LookupSetting(t, userID, PersonalAccessTokens, codec)
    case Ok(Some(AccessTokensValue(list))) => list
    case _ => []
  }

  lemma UserAccessTokensRead(t: Tables, userID: int, codec: Codec)
    requires codec.Faithful()
    ensures var found := LookupSetting(t, userID, PersonalAccessTokens, codec);
            found.Ok? ==> if found.value.None? then UserAccessTokensIn(t, userID, codec) == []
                          else found.value.value.AccessTokensValue? &&
                               UserAccessTokensIn(t, userID, codec) == found.value.value.tokens
  {
  }

  /** The webhooks that the database holds for the user. */
  function UserWebhooksIn(t: Tables, userID: int, codec: Codec): seq<Webhook> {
    match LookupSetting(t, userID, Webhooks, codec)
    case Ok(Some(WebhooksValue(list))) => list
    case _ => []
  }

  lemma UserWebhooksRead(t: Tables, userID: int, codec: Codec)
    requires codec.Faithful()
    ensures var found := LookupSetting(t, userID, Webhooks, codec);
            found.Ok? ==> if found.value.None? then UserWebhooksIn(t, userID, codec) == []
                          else found.value.value.WebhooksValue? &&
                               UserWebhooksIn(t, userID, codec) == found.value.value.webhooks
  {
  }

  /** A stored setting is found again, and nobody else's is touched. */
  lemma StoredIsFound(t: Tables, userID: int, key: SettingKey, value: SettingValue, codec: Codec, other: int,
                      otherKey: SettingKey)
    requires codec.Faithful() && codec.encode(value).Some? && KeyOf(value) == key
    ensures LookupSetting(WithSetting(t, userID, key, value, codec), other, otherKey, codec) ==
            if (other, otherKey) == (userID, key) then Ok(Some(value)) else LookupSetting(t, other, otherKey, codec)
  {
    if KeyName(otherKey) == KeyName(key) { KeyNameInjective(otherKey, key); }
  }

  // Changing and forgetting settings.

  lemma UserAccessTokensUnread(t: Tables, userID: int, tokenID: string, lastUsed: Option<int>, codec: Codec)
    ensures MarkedUsed([], tokenID, lastUsed) == []
    ensures LookupSetting(t, userID, PersonalAccessTokens, codec).Err? ==> UserAccessTokensIn(t, userID, codec) == []
  {
  }

  lemma UserWebhooksUnread(t: Tables, userID: int, webhook: Webhook, codec: Codec)
    ensures ChangedWebhook([], webhook) == []
    ensures LookupSetting(t, userID, Webhooks, codec).Err? ==> UserWebhooksIn(t, userID, codec) == []
  {
  }

  lemma LookupIsStored(t: Tables, userID: int, key: SettingKey, codec: Codec)
    ensures var found := LookupSetting(t, userID, key, codec);
            !key.KeyUnspecified? && found.Ok? && found.value.Some? ==>
              forall v :: IsStored(userID, key, v, t.settings, codec) <==> v == found.value.value
  {
  }

  lemma StoredIffLookup(t: Tables, userID: int, key: SettingKey, value: SettingValue, codec: Codec)
    requires !key.KeyUnspecified?
    ensures IsStored(userID, key, value, t.settings, codec) <==> LookupSetting(t, userID, key, codec) == Ok(Some(value))
  {
  }

  /** If the cache agrees but for one key, it agrees exactly when that key's entry does. */
  lemma MirroredIff(k: string, s: Setting, data: CachedSettings, settings: SettingRows, codec: Codec)
    requires SettingsMirroredBut({k}, data, settings, codec) && k == SettingCacheKey(s.userID, s.key)
    requires k in data ==> data[k].value == s
    ensures SettingsMirroredBut({}, data, settings, codec) <==>
              k !in data || IsStored(s.userID, s.key, s.value, settings, codec)
  {
    if k in data && SettingsMirroredBut({}, data, settings, codec) {
      assert MirrorsSetting(k, data[k].value, settings, codec);
    }
  }

  lemma NotHeld(userID: int, key: SettingKey, data: CachedSettings, t: Tables, codec: Codec)
    requires SettingsMirroredBut({}, data, t.settings, codec) && LookupSetting(t, userID, key, codec) == Ok(None)
    ensures SettingCacheKey(userID, key) !in data
  {
    var k := SettingCacheKey(userID, key);
    if k in data {
      assert MirrorsSetting(k, data[k].value, t.settings, codec);
      CacheKeysAreInjective(userID, key, data[k].value.userID, data[k].value.key);
    }
  }

  lemma HeldUnderOwnKey(s: Setting, data: CachedSettings, settings: SettingRows, codec: Codec)
    requires SettingsMirroredBut({}, data, settings, codec)
    ensures UnderOwnKeys(data) && forall k :: k in data && data[k].value == s ==> k == SettingCacheKey(s.userID, s.key)
  {
    forall k | k in data && data[k].value == s ensures k == SettingCacheKey(s.userID, s.key) {
      assert MirrorsSetting(k, data[k].value, settings, codec);
    }
  }

  lemma OthersAreRest(others: CachedSettings, but: string, data: CachedSettings, settings: SettingRows, codec: Codec)
    requires SettingsMirroredBut({}, others, settings, codec)
    requires UnderOwnKeys(data) && forall k :: k in data && k != but ==> k in others && others[k] == data[k]
    ensures SettingsMirroredBut({but}, data, settings, codec)
  {
  }

  lemma OneForgotten(pending: set<string>, k: string, data: CachedSettings, settings: SettingRows, codec: Codec)
    requires SettingsMirroredBut(pending, data, settings, codec)
    ensures SettingsMirroredBut(pending - {k}, data - {k}, settings, codec)
  {
  }

  lemma MoreExcepted(fewer: set<string>, more: set<string>, data: CachedSettings, settings: SettingRows, codec: Codec)
    requires SettingsMirroredBut(fewer, data, settings, codec) && fewer <= more
    ensures SettingsMirroredBut(more, data, settings, codec)
  {
  }

  /** The cache keys of the settings still to be forgotten. */
  ghost function CacheKeysFrom(list: seq<Setting>, n: int): set<string> {
    set i | 0 <= n <= i < |list| :: SettingCacheKey(list[i].userID, list[i].key)
  }

  lemma NextKeys(list: seq<Setting>, n: nat)
    requires n < |list|
    ensures CacheKeysFrom(list, n) - {SettingCacheKey(list[n].userID, list[n].key)} <= CacheKeysFrom(list, n + 1)
  {
  }

  lemma NoKeysLeft(list: seq<Setting>)
    ensures CacheKeysFrom(list, |list|) == {}
  {
  }

  ghost function UserKeysFrom(userID: int, keys: seq<SettingKey>, n: int): set<string> {
    set i | 0 <= n <= i < |keys| :: SettingCacheKey(userID, keys[i])
  }

  lemma NextUserKeys(userID: int, keys: seq<SettingKey>, n: nat)
    requires n < |keys|
    ensures UserKeysFrom(userID, keys, n) - {SettingCacheKey(userID, keys[n])} <= UserKeysFrom(userID, keys, n + 1)
  {
  }

  lemma NoUserKeysLeft(userID: int, keys: seq<SettingKey>)
    ensures UserKeysFrom(userID, keys, |keys|) == {}
  {
  }

  /** Whatever is cached of the deleted rows was listed. */
  lemma DeletedAreListed(data: CachedSettings, t: Tables, find: FindUserSetting, existing: seq<Setting>,
                         after: SettingRows, codec: Codec)
    requires SettingsMirroredBut({}, data, t.settings, codec) && Covers(t, find, existing)
    requires after == map s | s in t.settings && !AsksFor(find, s) :: t.settings[s]
    ensures SettingsMirroredBut(CacheKeysFrom(existing, 0), data, after, codec)
  {
    forall k | k in data &&
      AsksFor(find, (data[k].value.userID, KeyName(data[k].value.key))) ensures k in CacheKeysFrom(existing, 0) {
      var s := data[k].value;
      assert MirrorsSetting(k, s, t.settings, codec);
      KeyNameIsOneWord(s.key);
      assert Wanted(t, find, (s.userID, KeyName(s.key)));
      var i :| 0 <= i < |existing| && (existing[i].userID, KeyName(existing[i].key)) == (s.userID, KeyName(s.key));
      KeyNameInjective(existing[i].key, s.key);
    }
    forall k | k in data && k !in CacheKeysFrom(existing, 0) ensures MirrorsSetting(k, data[k].value, after, codec) {
      assert MirrorsSetting(k, data[k].value, t.settings, codec);
    }
  }

  lemma AfterDeleteIs(t: Tables, userID: int)
    ensures var after := UserDelete.AfterDelete(t, userID);
            && after.users == (map u | u in t.users && u != userID :: t.users[u])
            && after.settings == (map s | s in t.settings && s.0 != userID :: t.settings[s])
  {
    hide UserDelete.Concerns, UserDelete.Contents;
  }

  /** Whatever is cached of the user's settings is under one of the keys that were read. */
  lemma SettingsOfUser(data: CachedSettings, t: Tables, userID: int, keys: seq<SettingKey>, after: SettingRows,
                       codec: Codec)
    requires SettingsMirroredBut({}, data, t.settings, codec)
    requires forall name :: (userID, name) in t.settings ==> KeyNamed(name) in keys
    requires after == map s | s in t.settings && s.0 != userID :: t.settings[s]
    ensures SettingsMirroredBut(UserKeysFrom(userID, keys, 0), data, after, codec)
  {
    forall k | k in data && data[k].value.userID == userID ensures k in UserKeysFrom(userID, keys, 0) {
      var s := data[k].value;
      assert MirrorsSetting(k, s, t.settings, codec);
      KeyNameIsOneWord(s.key);
      assert (userID, KeyName(s.key)) in t.settings;
      var i :| 0 <= i < |keys| && keys[i] == s.key;
    }
    forall k | k in data && k !in UserKeysFrom(userID, keys, 0) ensures MirrorsSetting(k, data[k].value, after, codec) {
      assert MirrorsSetting(k, data[k].value, t.settings, codec);
    }
  }
}
