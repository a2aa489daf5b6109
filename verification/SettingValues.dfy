/** The values of user settings, their storage as text, and the list updates made on them (store/user_setting.go). */
module SettingValues {
  import opened Tables
  import opened Wrappers

  datatype RefreshToken = RefreshToken(tokenID: string, expiresAt: int, description: string)

  datatype AccessToken = AccessToken(tokenID: string, tokenHash: string, description: string, lastUsedAt: Option<int>)

  datatype Webhook = Webhook(id: string, title: string, url: string)

  datatype SettingValue =
    | GeneralValue(locale: string, memoVisibility: string, theme: string)
    | ShortcutsValue(shortcuts: seq<(string, string, string)>)
    | WebhooksValue(webhooks: seq<Webhook>)
    | RefreshTokensValue(refreshTokens: seq<RefreshToken>)
    | AccessTokensValue(tokens: seq<AccessToken>)

  function KeyOf(value: SettingValue): SettingKey {
    match value
    case GeneralValue(_, _, _) => General
    case ShortcutsValue(_) => Shortcuts
    case WebhooksValue(_) => Webhooks
    case RefreshTokensValue(_) => RefreshTokens
    case AccessTokensValue(_) => PersonalAccessTokens
  }

  /** What a setting that carries no value for its key stores. */
  function EmptyValue(key: SettingKey): SettingValue {
    match key
    case KeyUnspecified => GeneralValue("", "", "")
    case General => GeneralValue("", "", "")
    case Shortcuts => ShortcutsValue([])
    case Webhooks => WebhooksValue([])
    case RefreshTokens => RefreshTokensValue([])
    case PersonalAccessTokens => AccessTokensValue([])
  }

  function Carried(key: SettingKey, value: SettingValue): SettingValue {
    if KeyOf(value) == key then value else EmptyValue(key)
  }

  /** A value of its own key is stored as it is, and any other as an empty one of the key. */
  lemma CarriedIsOfItsKey(key: SettingKey, value: SettingValue)
    requires !key.KeyUnspecified?
    ensures KeyOf(Carried(key, value)) == key && (KeyOf(value) == key ==> Carried(key, value) == value)
    ensures KeyOf(value) != key ==>
              Carried(key, value) in {GeneralValue("", "", ""), ShortcutsValue([]), WebhooksValue([]),
                                      RefreshTokensValue([]), AccessTokensValue([])}
  {
  }

  /** How values are written as text and read back; either may fail. */
  datatype Codec = Codec(encode: SettingValue -> Option<string>, decode: (SettingKey, string) -> Option<SettingValue>)
  {
    /** What was written reads back as itself, and a value is read for its own key. */
    ghost predicate Faithful() {
      && (forall v: SettingValue :: encode(v).Some? ==> decode(KeyOf(v), encode(v).value) == Some(v))
      && (forall k, s :: decode(k, s).Some? ==> KeyOf(decode(k, s).value) == k)
    }
  }

  // Entries with ids.

  function RefreshTokenID(token: RefreshToken): string { token.tokenID }

  function AccessTokenID(token: AccessToken): string { token.tokenID }

  function WebhookID(webhook: Webhook): string { webhook.id }

  /** The entries of other ids, in their order. */
  function Without<T>(entries: seq<T>, id: T -> string, gone: string): seq<T> {
    if entries == [] then []
    else
      var n := |entries| - 1;
      var rest := Without(entries[..n], id, gone);
      if id(entries[n]) != gone then rest + [entries[n]] else rest
  }

  method Remove<T>(entries: seq<T>, id: T -> string, gone: string) returns (kept: seq<T>)
    ensures kept == Without(entries, id, gone)
  {
    kept := [];
    for i := 0 to |entries|
      invariant kept == Without(entries[..i], id, gone)
    {
      assert entries[..i + 1][..i] == entries[..i];
      if id(entries[i]) != gone { kept := kept + [entries[i]]; }
    }
    assert entries[..|entries|] == entries;
  }

  /** Removing keeps exactly the entries of other ids, and all of them if none has that id. */
  lemma {:induction false} RemovingKeepsOthers<T(!new)>(entries: seq<T>, id: T -> string, gone: string)
    ensures forall e :: e in Without(entries, id, gone) <==> e in entries && id(e) != gone
    ensures (forall e :: e in entries ==> id(e) != gone) ==> Without(entries, id, gone) == entries
  {
    if entries == [] {
    } else {
      var n := |entries| - 1;
      RemovingKeepsOthers(entries[..n], id, gone);
      assert entries == entries[..n] + [entries[n]];
    }
  }

  /** Removing undoes adding an entry whose id was not there. */
  lemma RemovingUndoesAdding<T(!new)>(entries: seq<T>, id: T -> string, entry: T)
    requires forall other :: other in entries ==> id(other) != id(entry)
    ensures Without(entries + [entry], id, id(entry)) == entries
  {
    RemovingKeepsOthers(entries, id, id(entry));
    assert (entries + [entry])[..|entries|] == entries;
  }

  // Tokens.

  /** The position of the first token of that id, or the number of tokens. */
  function FirstToken(tokens: seq<AccessToken>, tokenID: string): (n: nat)
    ensures n <= |tokens| && (forall i :: 0 <= i < n ==> tokens[i].tokenID != tokenID) &&
            (n < |tokens| ==> tokens[n].tokenID == tokenID)
  {
    if tokens == [] || tokens[0].tokenID == tokenID then 0 else 1 + FirstToken(tokens[1..], tokenID)
  }

  function MarkedUsed(tokens: seq<AccessToken>, tokenID: string, at: Option<int>): seq<AccessToken> {
    var n := FirstToken(tokens, tokenID);
    if n < |tokens| then tokens[n := tokens[n].(lastUsedAt := at)] else tokens
  }

  /** Stamps the first token of that id. */
  method MarkUsed(tokens: seq<AccessToken>, tokenID: string, at: Option<int>) returns (marked: seq<AccessToken>)
    ensures marked == MarkedUsed(tokens, tokenID, at)
  {
    marked := tokens;
    for i := 0 to |tokens|
      invariant marked == tokens && forall j :: 0 <= j < i ==> tokens[j].tokenID != tokenID
    {
      if tokens[i].tokenID == tokenID {
        FirstTokenIs(tokens, tokenID, i);
        marked := tokens[i := tokens[i].(lastUsedAt := at)];
        return;
      }
    }
    FirstTokenIs(tokens, tokenID, |tokens|);
  }

  lemma FirstTokenIs(tokens: seq<AccessToken>, tokenID: string, n: nat)
    requires n <= |tokens| && (forall i :: 0 <= i < n ==> tokens[i].tokenID != tokenID) &&
             (n < |tokens| ==> tokens[n].tokenID == tokenID)
    ensures FirstToken(tokens, tokenID) == n
  {
  }

  /** The first token of that id gets the time of use; nothing else changes. */
  lemma MarkingStamps(tokens: seq<AccessToken>, tokenID: string, at: Option<int>)
    ensures |MarkedUsed(tokens, tokenID, at)| == |tokens|
    ensures forall i :: 0 <= i < |tokens| ==>
              MarkedUsed(tokens, tokenID, at)[i] ==
              var t := tokens[i];
              if t.tokenID == tokenID && forall j :: 0 <= j < i ==> tokens[j].tokenID != tokenID
              then AccessToken(t.tokenID, t.tokenHash, t.description, at) else t
  {
  }

  /** Removing by id leaves the tokens, respectively webhooks, that carry another one. */
  lemma RemovingLooksAtIDs(refresh: seq<RefreshToken>, access: seq<AccessToken>, webhooks: seq<Webhook>, gone: string)
    ensures forall t :: t in Without(refresh, RefreshTokenID, gone) <==> t in refresh && t.tokenID != gone
    ensures forall t :: t in Without(access, AccessTokenID, gone) <==> t in access && t.tokenID != gone
    ensures forall w :: w in Without(webhooks, WebhookID, gone) <==> w in webhooks && w.id != gone
  {
    RemovingKeepsOthers(refresh, RefreshTokenID, gone);
    RemovingKeepsOthers(access, AccessTokenID, gone);
    RemovingKeepsOthers(webhooks, WebhookID, gone);
  }

  // Webhooks.

  function Replaced(webhooks: seq<Webhook>, webhook: Webhook): seq<Webhook> {
    seq(|webhooks|, i requires 0 <= i < |webhooks| => if webhooks[i].id == webhook.id then webhook else webhooks[i])
  }

  predicate HasWebhook(webhooks: seq<Webhook>, id: string) {
    exists i :: 0 <= i < |webhooks| && webhooks[i].id == id
  }

  /** Every webhook of that id replaced, or the webhook put at the end. */
  function WithWebhook(webhooks: seq<Webhook>, webhook: Webhook): seq<Webhook> {
    if HasWebhook(webhooks, webhook.id) then Replaced(webhooks, webhook) else webhooks + [webhook]
  }

  function FirstWebhook(webhooks: seq<Webhook>, id: string): (n: nat)
    ensures n <= |webhooks| && (forall i :: 0 <= i < n ==> webhooks[i].id != id) &&
            (n < |webhooks| ==> webhooks[n].id == id)
  {
    if webhooks == [] || webhooks[0].id == id then 0 else 1 + FirstWebhook(webhooks[1..], id)
  }

  /** The first webhook of that id replaced. */
  function ChangedWebhook(webhooks: seq<Webhook>, webhook: Webhook): seq<Webhook> {
    var n := FirstWebhook(webhooks, webhook.id);
    if n < |webhooks| then webhooks[n := webhook] else webhooks
  }

  method AddWebhook(existing: seq<Webhook>, webhook: Webhook) returns (updated: seq<Webhook>)
    ensures updated == WithWebhook(existing, webhook)
  {
    updated := [];
    var webhookExists := false;
    for i := 0 to |existing|
      invariant |updated| == i && forall j :: 0 <= j < i ==> updated[j] == if existing[j].id == webhook.id then webhook
                                    else existing[j]
      invariant webhookExists <==> exists j :: 0 <= j < i && existing[j].id == webhook.id
    {
      if existing[i].id == webhook.id {
        updated := updated + [webhook];
        webhookExists := true;
      } else {
        updated := updated + [existing[i]];
      }
    }
    if !webhookExists {
      assert updated == existing;
      updated := updated + [webhook];
    } else {
      assert updated == Replaced(existing, webhook);
    }
  }

  /** Replaces the first webhook of that id. */
  method ChangeWebhook(webhooks: seq<Webhook>, webhook: Webhook) returns (changed: seq<Webhook>)
    ensures changed == ChangedWebhook(webhooks, webhook)
  {
    changed := webhooks;
    for i := 0 to |webhooks|
      invariant changed == webhooks && forall j :: 0 <= j < i ==> webhooks[j].id != webhook.id
    {
      if webhooks[i].id == webhook.id {
        FirstWebhookIs(webhooks, webhook.id, i);
        changed := webhooks[i := webhook];
        return;
      }
    }
    FirstWebhookIs(webhooks, webhook.id, |webhooks|);
  }

  lemma FirstWebhookIs(webhooks: seq<Webhook>, id: string, n: nat)
    requires n <= |webhooks| && (forall i :: 0 <= i < n ==> webhooks[i].id != id) &&
             (n < |webhooks| ==> webhooks[n].id == id)
    ensures FirstWebhook(webhooks, id) == n
  {
  }

  ghost predicate DistinctWebhooks(webhooks: seq<Webhook>) {
    forall i, j :: 0 <= i < j < |webhooks| ==> webhooks[i].id != webhooks[j].id
  }

  /** The webhook stored under an id. */
  ghost predicate Stores(webhooks: seq<Webhook>, id: string, webhook: Webhook) {
    webhook in webhooks && webhook.id == id
  }

  /** Adding stores the webhook under its id, leaves every other id alone and keeps ids distinct. */
  lemma AddingStores(webhooks: seq<Webhook>, webhook: Webhook)
    requires DistinctWebhooks(webhooks)
    ensures var after := WithWebhook(webhooks, webhook);
            && DistinctWebhooks(after)
            && (forall w :: Stores(after, webhook.id, w) <==> w == webhook)
            && (forall id, w :: id != webhook.id ==> (Stores(after, id, w) <==> Stores(webhooks, id, w)))
            && (if exists i :: 0 <= i < |webhooks| && webhooks[i].id == webhook.id then |after| == |webhooks|
                else |after| == |webhooks| + 1 && after[|webhooks|] == webhook)
            && (forall i :: 0 <= i < |webhooks| && webhooks[i].id != webhook.id ==> after[i] == webhooks[i])
  {
    var after := WithWebhook(webhooks, webhook);
    if HasWebhook(webhooks, webhook.id) {
      var n :| 0 <= n < |webhooks| && webhooks[n].id == webhook.id;
      assert after == webhooks[n := webhook];
      forall w | w in webhooks && w.id != webhook.id ensures w in after {
        var i :| 0 <= i < |webhooks| && webhooks[i] == w;
        assert after[i] == w;
      }
      assert after[n] == webhook;
    } else {
      forall w | w in webhooks ensures w.id != webhook.id {}
    }
  }

  /** Where ids are distinct and the id is there, changing a webhook is adding it. */
  lemma ChangingIsAdding(webhooks: seq<Webhook>, webhook: Webhook)
    requires DistinctWebhooks(webhooks)
    ensures ChangedWebhook(webhooks, webhook) == if HasWebhook(webhooks, webhook.id) then WithWebhook(webhooks, webhook)
            else webhooks
  {
    var n := FirstWebhook(webhooks, webhook.id);
    if HasWebhook(webhooks, webhook.id) {
      assert n < |webhooks|;
      assert Replaced(webhooks, webhook) == webhooks[n := webhook];
    }
  }
}
