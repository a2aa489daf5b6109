/** The rows that users own, as the tables of the database hold them (store/migration/sqlite/LATEST.sql). */
module Tables {
  import opened Wrappers

  datatype User = User(id: int, fields: UserFields)

  datatype UserFields = UserFields(
    rowStatus: string, createdTs: int, updatedTs: int, username: string, role: string, email: string,
    nickname: string, passwordHash: string, avatarURL: string, description: string)

  datatype SettingKey = KeyUnspecified | General | Shortcuts | Webhooks | RefreshTokens | PersonalAccessTokens

  function KeyName(key: SettingKey): string {
    match key
    case KeyUnspecified => "KEY_UNSPECIFIED"
    case General => "GENERAL"
    case Shortcuts => "SHORTCUTS"
    case Webhooks => "WEBHOOKS"
    case RefreshTokens => "REFRESH_TOKENS"
    case PersonalAccessTokens => "PERSONAL_ACCESS_TOKENS"
  }

  /** The key a stored name denotes; every name that is not a key's denotes the unspecified one. */
  function KeyNamed(name: string): SettingKey {
    if name == "GENERAL" then General
    else if name == "SHORTCUTS" then Shortcuts
    else if name == "WEBHOOKS" then Webhooks
    else if name == "REFRESH_TOKENS" then RefreshTokens
    else if name == "PERSONAL_ACCESS_TOKENS" then PersonalAccessTokens
    else KeyUnspecified
  }

  /** Every key but the unspecified one is stored under a name that denotes it, and no other name denotes it. */
  lemma KeyNamedIff(key: SettingKey, name: string)
    requires !key.KeyUnspecified?
    ensures KeyNamed(name) == key <==> name == KeyName(key)
    ensures KeyName(General) == "GENERAL" && KeyName(Shortcuts) == "SHORTCUTS" && KeyName(Webhooks) == "WEBHOOKS"
    ensures KeyName(RefreshTokens) == "REFRESH_TOKENS" && KeyName(PersonalAccessTokens) == "PERSONAL_ACCESS_TOKENS"
  {
    assert |"GENERAL"| == 7 && |"SHORTCUTS"| == 9 && |"WEBHOOKS"| == 8 && |"REFRESH_TOKENS"| == 14;
  }

  datatype Memo = Memo(uid: string, creatorID: int, content: string)

  datatype Relation = Relation(memoID: int, relatedMemoID: int, kind: string)

  datatype Reaction = Reaction(creatorID: int, contentID: string, reactionType: string)

  datatype Attachment = Attachment(uid: string, creatorID: int, memoID: Option<int>, payload: StoredText<string>)

  datatype Share = Share(uid: string, memoID: int, creatorID: int)

  datatype Inbox = Inbox(senderID: int, receiverID: int, message: StoredText<InboxMessage>)

  /** JSON text in a column: empty, not decodable, or the text of a message. */
  datatype StoredText<T> = Empty | Malformed | Encoded(message: T)

  datatype MessageType = TypeUnspecified | MemoComment | MemoMention

  /** The payload carries its own tag, which need not be the one the message's type names. */
  datatype Payload = NoPayload | CommentPayload(memoID: int, relatedMemoID: int) |
      MentionPayload(memoID: int, relatedMemoID: int)

  datatype InboxMessage = InboxMessage(kind: MessageType, payload: Payload)

  datatype Tables = Tables(
    users: map<int, UserFields>,
    settings: map<(int, string), string>,
    memos: map<int, Memo>,
    relations: set<Relation>,
    reactions: map<int, Reaction>,
    attachments: map<int, Attachment>,
    shares: map<int, Share>,
    inboxes: map<int, Inbox>)

  /** How a reaction names the memo it is on. */
  function ContentID(uid: string): string {
    "memos/" + uid
  }
}
