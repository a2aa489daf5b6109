/** Whole runs of calls on the store, one after another, the database coming and going. */
module StoreRuns {
  import opened Driver
  import opened SettingValues
  import opened Store
  import opened Tables
  import opened Wrappers
  import TTL = Cache
  import UserDelete

  datatype Call =
    | CreateUser(create: UserFields, now: int)
    | CreateFirstUser(create: UserFields, now: int)
    | ChangeUser(update: UpdateUser)
    | ListUsers(find: FindUser)
    | GetUser(find: FindUser, now: int)
    | DeleteUser(userID: int)
    | UpsertSetting(userID: int, key: SettingKey, value: SettingValue)
    | ListSettings(wanted: FindUserSetting)
    | GetSetting(wanted: FindUserSetting, now: int)
    | DeleteSettings(wanted: FindUserSetting)
    | AddRefreshToken(userID: int, refreshToken: RefreshToken, now: int)
    | RemoveRefreshToken(userID: int, id: string, now: int)
    | AddAccessToken(userID: int, accessToken: AccessToken, now: int)
    | RemoveAccessToken(userID: int, id: string, now: int)
    | MarkAccessTokenUsed(userID: int, id: string, at: Option<int>, now: int)
    | AddWebhook(userID: int, webhook: Webhook, now: int)
    | ChangeWebhook(userID: int, webhook: Webhook, now: int)
    | RemoveWebhook(userID: int, id: string, now: int)
    | DeleteUserCompletely(userID: int, failBeforeCommit: bool, reliable: bool)
    | CleanCaches(clock: string -> int)
    | Reach(readable: bool, writable: bool)

  /** The list that a call changes in memory before it writes it. */
  function ChangedInPlace(call: Call): Option<(int, SettingKey)> {
    match call
    case MarkAccessTokenUsed(userID, _, _, _) => Some((userID, PersonalAccessTokens))
    case ChangeWebhook(userID, _, _) => Some((userID, Webhooks))
    case _ => None
  }

  /** Is what is cached of a setting what the database holds? */
  method SettingAgrees(s: Store, userID: int, key: SettingKey) returns (agrees: bool)
    requires s.ValidBut({SettingCacheKey(userID, key)}) && !key.KeyUnspecified?
    ensures agrees <==> s.Valid()
  {
    hide Codec.Faithful, UsersMirroredBut, SettingsMirroredBut, TTL.Recorded, TTL.LastSets, SettingCacheKey, KeyName,
         LookupSetting, IsStored;
    var k := SettingCacheKey(userID, key);
    if k !in s.settingCache.data {
      UncachedAgrees(k, s.settingCache.data, s.db.tables.settings, s.codec);
      return true;
    }
    var setting := s.settingCache.data[k].value;
    CachedUnderOwnKey(k, s.settingCache.data, s.db.tables.settings, s.codec);
    agrees := LookupSetting(s.db.tables, userID, key, s.codec) == Ok(Some(setting.value));
    CacheKeysAreInjective(userID, key, setting.userID, setting.key);
    MirroredIff(k, setting, s.settingCache.data, s.db.tables.settings, s.codec);
    StoredIffLookup(s.db.tables, userID, key, setting.value, s.codec);
  }

  predicate AboutUsers(call: Call) {
    call.CreateUser? || call.CreateFirstUser? || call.ChangeUser? || call.ListUsers? || call.GetUser? ||
      call.DeleteUser?
  }

  method PerformOnUsers(s: Store, call: Call)
    requires s.Valid() && AboutUsers(call)
    modifies s.db`tables, s.userCache
    ensures s.Valid()
  {
    hide Store.Valid, Store.ValidBut, Answered, IsListing, LookupUser, Live, Found, Matches;
    match call {
      case CreateUser(create, now) => var _ := s.CreateUser(create, now);
      case CreateFirstUser(create, now) => var _ := s.CreateUserIfNoUsers(create, now);
      case ChangeUser(update) => var _ := s.UpdateUser(update);
      case ListUsers(find) => var _ := s.ListUsers(find);
      case GetUser(find, now) => var _ := s.GetUser(find, now);
      case DeleteUser(userID) => var _ := s.DeleteUser(userID);
    }
  }

  predicate AboutLists(call: Call) {
    call.AddRefreshToken? || call.RemoveRefreshToken? || call.AddAccessToken? || call.RemoveAccessToken? ||
      call.AddWebhook? ||
    call.RemoveWebhook?
  }

  method PerformOnLists(s: Store, call: Call)
    requires s.Valid() && AboutLists(call)
    modifies s.db`tables, s.settingCache
    ensures s.Valid() && fresh(Held(s.settingCache.data) - old(Held(s.settingCache.data)))
  {
    hide Store.Valid, Store.ValidBut, Written, Without, WithWebhook;
    match call {
      case AddRefreshToken(userID, token, now) => var _ := s.AddUserRefreshToken(userID, token, now);
      case RemoveRefreshToken(userID, id, now) => var _ := s.RemoveUserRefreshToken(userID, id, now);
      case AddAccessToken(userID, token, now) => var _ := s.AddUserPersonalAccessToken(userID, token, now);
      case RemoveAccessToken(userID, id, now) => var _ := s.RemoveUserPersonalAccessToken(userID, id, now);
      case AddWebhook(userID, webhook, now) => var _ := s.AddUserWebhook(userID, webhook, now);
      case RemoveWebhook(userID, id, now) => var _ := s.RemoveUserWebhook(userID, id, now);
    }
  }

  method PerformInPlace(s: Store, call: Call) returns (agree: bool)
    requires s.Valid() && ChangedInPlace(call).Some?
    modifies s.db`tables, s.settingCache, Held(s.settingCache.data)
    ensures agree <==> s.Valid()
    ensures !agree ==> s.db.tables == old(s.db.tables)
    ensures !agree ==> s.ValidBut({SettingCacheKey(ChangedInPlace(call).value.0, ChangedInPlace(call).value.1)})
    ensures fresh(Held(s.settingCache.data) - old(Held(s.settingCache.data)))
  {
    hide Store.Valid, Store.ValidBut, Written, MarkedUsed, ChangedWebhook, Live, SettingCacheKey;
    agree := true;
    match call {
      case MarkAccessTokenUsed(userID, id, at, now) =>
        var ok := s.UpdatePATLastUsed(userID, id, at, now);
        if !ok { agree := SettingAgrees(s, userID, PersonalAccessTokens); }
      case ChangeWebhook(userID, webhook, now) =>
        var ok := s.UpdateUserWebhook(userID, webhook, now);
        if !ok { agree := SettingAgrees(s, userID, Webhooks); }
    }
  }

  method PerformReach(s: Store, readable: bool, writable: bool)
    requires s.Valid()
    modifies s.db
    ensures s.Valid() && Held(s.settingCache.data) == old(Held(s.settingCache.data))
  {
    hide Codec.Faithful, UsersMirroredBut, SettingsMirroredBut, TTL.Recorded, TTL.LastSets;
    ghost var held := Held(s.settingCache.data);
    s.db.readable, s.db.writable := readable, writable;
    assert Held(s.settingCache.data) == held;
  }

  method PerformOnSettings(s: Store, call: Call)
    requires s.Valid() && !AboutUsers(call) && !AboutLists(call) && ChangedInPlace(call).None? && !call.Reach?
    modifies s.db`tables, s.userCache, s.settingCache
    ensures s.Valid() && fresh(Held(s.settingCache.data) - old(Held(s.settingCache.data)))
  {
    hide Store.Valid, Store.ValidBut, Written, Answered, Covers, Undecodable, AllStored, SettingCacheKey,
         UserDelete.AfterDelete, UserDelete.Gathered, StoredInCache;
    match call {
      case UpsertSetting(userID, key, value) =>
        s.ValidIsValidBut(SettingCacheKey(userID, key));
        var _ := s.UpsertUserSetting(userID, key, value);
      case ListSettings(find) => var _ := s.ListUserSettings(find);
      case GetSetting(find, now) => var _ := s.GetUserSetting(find, now);
      case DeleteSettings(find) => var _ := s.DeleteUserSettings(find);
      case DeleteUserCompletely(userID, failBeforeCommit, reliable) =>
        var _ := s.DeleteUserCompletely(userID, failBeforeCommit, reliable);
      case CleanCaches(clock) => s.CleanCaches(clock);
    }
  }

  /**
   One call. Afterwards the caches agree, except perhaps for the one list that the call changed in place and could not
   write.
   */
  method Perform(s: Store, call: Call) returns (agree: bool)
    requires s.Valid()
    modifies s.db, s.userCache, s.settingCache, Held(s.settingCache.data)
    ensures agree <==> s.Valid()
    ensures !agree ==> ChangedInPlace(call).Some? && s.db.tables == old(s.db.tables) &&
                       s.ValidBut({SettingCacheKey(ChangedInPlace(call).value.0, ChangedInPlace(call).value.1)})
    ensures fresh(Held(s.settingCache.data) - old(Held(s.settingCache.data)))
  {
    hide Store.Valid, Store.ValidBut;
    agree := true;
    if call.Reach? {
      PerformReach(s, call.readable, call.writable);
    } else if ChangedInPlace(call).Some? {
      agree := PerformInPlace(s, call);
    } else if AboutUsers(call) {
      PerformOnUsers(s, call);
      assert Held(s.settingCache.data) == old(Held(s.settingCache.data));
    } else if AboutLists(call) {
      PerformOnLists(s, call);
    } else {
      PerformOnSettings(s, call);
    }
  }

  /**
   Any run: the caches agree with the database throughout, unless a list changed in place could not be written; then
   they agree but for that one list.
   */
  method Run(s: Store, calls: seq<Call>) returns (performed: nat, agree: bool)
    requires s.Valid()
    modifies s.db, s.userCache, s.settingCache, Held(s.settingCache.data)
    ensures performed <= |calls| && (agree <==> s.Valid()) && (agree ==> performed == |calls|)
    ensures !agree ==> performed > 0 && ChangedInPlace(calls[performed - 1]).Some? &&
                       var (userID, key) := ChangedInPlace(calls[performed - 1]).value;
                       s.ValidBut({SettingCacheKey(userID, key)})
  {
    hide UsersMirroredBut, SettingsMirroredBut, TTL.Recorded, TTL.LastSets, SettingCacheKey;
    performed, agree := 0, true;
    while performed < |calls|
      invariant performed <= |calls| && agree && s.Valid()
      invariant fresh(Held(s.settingCache.data) - old(Held(s.settingCache.data)))
    {
      ghost var held := Held(s.settingCache.data);
      agree := Perform(s, calls[performed]);
      ghost var first, now := old(Held(s.settingCache.data)), Held(s.settingCache.data);
      assert now - first <= (now - held) + (held - first);
      performed := performed + 1;
      if !agree { return; }
    }
  }

  /** The next successful write of that list makes the caches agree again. */
  method Restore(s: Store, userID: int, key: SettingKey, value: SettingValue) returns (ok: bool)
    requires s.ValidBut({SettingCacheKey(userID, key)})
    modifies s.db, s.settingCache
    ensures ok <==> !key.KeyUnspecified? && s.codec.encode(Carried(key, value)).Some? && old(s.db.writable)
    ensures ok ==> s.Valid()
  {
    hide UsersMirroredBut, SettingsMirroredBut, TTL.Recorded, TTL.LastSets, SettingCacheKey, Codec.Faithful;
    var r := s.UpsertUserSetting(userID, key, value);
    ok := r.Ok?;
  }

  /** Is the list cached, or will the call read it in and keep it? */
  predicate ReachesCache(s: Store, userID: int, key: SettingKey, now: int)
    reads s.db, s.settingCache
  {
    Live(s.settingCache.data, SettingCacheKey(userID, key), now) || (s.db.readable && s.settingCache.maxItems <= 0)
  }

  /**
   What a failed write leaves behind: while the database takes no writes, stamping a token that does not yet bear the
   stamp makes the cache differ from the database, whether the list was cached before or is read in for the stamp.
   */
  method FailedStampIsCached(s: Store, userID: int, tokenID: string, at: Option<int>, now: int)
    requires s.Valid() && !s.db.writable && ReachesCache(s, userID, PersonalAccessTokens, now)
    requires MarkedUsed(UserAccessTokensIn(s.db.tables, userID, s.codec), tokenID,
                        at) != UserAccessTokensIn(s.db.tables, userID, s.codec)
    modifies s.db, s.settingCache, Held(s.settingCache.data)
    ensures s.db.tables == old(s.db.tables) && !s.Valid()
    ensures s.ValidBut({SettingCacheKey(userID, PersonalAccessTokens)})
  {
    hide Codec.Faithful, UsersMirroredBut, SettingsMirroredBut, MarkedUsed, UserAccessTokensIn, Written, Live,
         Store.Valid, Store.ValidBut;
    var ok := s.UpdatePATLastUsed(userID, tokenID, at, now);
  }

  /** So does changing a webhook. */
  method FailedChangeIsCached(s: Store, userID: int, webhook: Webhook, now: int)
    requires s.Valid() && !s.db.writable && ReachesCache(s, userID, Webhooks, now)
    requires ChangedWebhook(UserWebhooksIn(s.db.tables, userID, s.codec), webhook) != UserWebhooksIn(s.db.tables,
                                                                                                     userID, s.codec)
    modifies s.db, s.settingCache, Held(s.settingCache.data)
    ensures s.db.tables == old(s.db.tables) && !s.Valid()
    ensures s.ValidBut({SettingCacheKey(userID, Webhooks)})
  {
    hide Codec.Faithful, UsersMirroredBut, SettingsMirroredBut, ChangedWebhook, UserWebhooksIn, Written, Live,
         Store.Valid, Store.ValidBut;
    var ok := s.UpdateUserWebhook(userID, webhook, now);
  }

  /** A cached user is returned whatever else is asked for: a normal user is found among the archived ones. */
  method NormalUserAmongArchived(s: Store, id: int, now: int) returns (r: Result<Option<User>>)
    requires s.Valid() && Live(s.userCache.data, UserCacheKey(id), now)
    requires id in s.db.tables.users && s.db.tables.users[id].rowStatus == "NORMAL"
    modifies s.userCache
    ensures var find := EVERYONE.(id := Some(id), rowStatus := Some("ARCHIVED"));
            LookupUser(s.db.tables, id, find) == None && r == Ok(Some(User(id, s.db.tables.users[id])))
  {
    hide UsersMirroredBut, SettingsMirroredBut, UserCacheKey, Live;
    assert "NORMAL"[0] != "ARCHIVED"[0];
    r := s.GetUser(EVERYONE.(id := Some(id), rowStatus := Some("ARCHIVED")), now);
  }
}
