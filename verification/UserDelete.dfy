/** Deleting a user with everything that hangs on the user, in one transaction (store/user_delete.go). */
module UserDelete {
  import opened Driver
  import opened Lists
  import opened MemoTree
  import opened Tables
  import opened Wrappers

  // What is to go.

  /** An attachment as read for deletion, its payload decoded; no payload decodes as the empty one. */
  datatype AttachmentRow = AttachmentRow(id: int, attachment: Attachment, payload: string)

  datatype Targets = Targets(memos: seq<MemoRef>, attachments: seq<AttachmentRow>, settingKeys: seq<SettingKey>,
                             inboxIDs: seq<int>)

  function OwnAttachments(t: Tables, userID: int): set<int> {
    set a | a in t.attachments && t.attachments[a].creatorID == userID
  }

  function AttachmentsOn(t: Tables, memos: set<int>): set<int> {
    set a | a in t.attachments && t.attachments[a].memoID.Some? && t.attachments[a].memoID.value in memos
  }

  function DirectInboxes(t: Tables, userID: int): set<int> {
    set i | i in t.inboxes && (t.inboxes[i].senderID == userID || t.inboxes[i].receiverID == userID)
  }

  function OtherInboxes(t: Tables, userID: int): set<int> {
    set i | i in t.inboxes && t.inboxes[i].senderID != userID && t.inboxes[i].receiverID != userID
  }

  /** Does the notification concern one of the memos? Only a payload of the message's own type is looked at. */
  predicate InboxMessageTouchesMemoSet(message: InboxMessage, memos: set<int>) {
    match message.kind
    case MemoComment =>
      (match message.payload
       case CommentPayload(memoID, relatedMemoID) => MemoIDInSet(memoID, memos) || MemoIDInSet(relatedMemoID, memos)
       case _ => false)
    case MemoMention =>
      (match message.payload
       case MentionPayload(memoID, relatedMemoID) => MemoIDInSet(memoID, memos) || MemoIDInSet(relatedMemoID, memos)
       case _ => false)
    case TypeUnspecified => false
  }

  predicate MemoIDInSet(id: int, memos: set<int>) {
    id != 0 && id in memos
  }

  predicate Concerns(inbox: Inbox, users: set<int>, memos: set<int>) {
    || inbox.senderID in users || inbox.receiverID in users
    || (inbox.message.Encoded? && InboxMessageTouchesMemoSet(inbox.message.message, memos))
  }

  function InboxTargets(t: Tables, userID: int, memos: set<int>): set<int> {
    set i | i in t.inboxes && Concerns(t.inboxes[i], {userID}, memos)
  }

  /** A row the deletion has to decode, and cannot. */
  ghost predicate Blocked(t: Tables, userID: int) {
    || (exists a :: a in OwnAttachments(t, userID) + AttachmentsOn(t, Tree(t, userID)) &&
          t.attachments[a].payload.Malformed?)
    || (Tree(t, userID) != {} && exists i :: i in OtherInboxes(t, userID) && t.inboxes[i].message.Malformed?)
  }

  /**
   Those rows: an attachment of the user or on a memo of the tree, and unless the tree is empty any notification between
   others.
   */
  lemma BlockedIff(t: Tables, userID: int)
    ensures Blocked(t, userID) <==>
            || (exists a :: (a in t.attachments && t.attachments[a].payload.Malformed? &&
                             (t.attachments[a].creatorID == userID ||
                              (t.attachments[a].memoID.Some? && t.attachments[a].memoID.value in Tree(t, userID)))))
            || (Tree(t, userID) != {} &&
                exists i :: (i in t.inboxes && t.inboxes[i].message.Malformed? &&
                             t.inboxes[i].senderID != userID && t.inboxes[i].receiverID != userID))
  {
    hide Tree;
  }

  /** The rows of exactly the given attachments, each once. */
  ghost predicate Gathered(t: Tables, ids: set<int>, rows: seq<AttachmentRow>) {
    && (forall i :: 0 <= i < |rows| ==> IsRow(t, rows[i]))
    && (forall i, j :: 0 <= i < j < |rows| ==> rows[i].id != rows[j].id)
    && RangeOf(AttachmentIDs(rows)) == ids
  }

  ghost predicate IsRow(t: Tables, row: AttachmentRow) {
    && row.id in t.attachments && row.attachment == t.attachments[row.id]
    && match row.attachment.payload case Empty => row.payload == "" case Encoded(text) => row.payload == text
       case Malformed => false
  }

  function AttachmentIDs(rows: seq<AttachmentRow>): seq<int> {
    seq(|rows|, i requires 0 <= i < |rows| => rows[i].id)
  }

  function MemoIDs(refs: seq<MemoRef>): seq<int> {
    seq(|refs|, i requires 0 <= i < |refs| => refs[i].id)
  }

  function ContentIDs(refs: seq<MemoRef>): seq<string> {
    seq(|refs|, i requires 0 <= i < |refs| => ContentID(refs[i].uid))
  }

  lemma GatherOne(t: Tables, ids: set<int>, rows: seq<AttachmentRow>, row: AttachmentRow)
    requires Gathered(t, ids, rows) && IsRow(t, row) && row.id !in ids
    ensures Gathered(t, ids + {row.id}, rows + [row])
  {
    assert AttachmentIDs(rows + [row]) == AttachmentIDs(rows) + [row.id];
    RangeOfSum(AttachmentIDs(rows), [row.id]);
    OneInRange(row.id);
    forall i | 0 <= i < |rows| ensures rows[i].id != row.id { assert AttachmentIDs(rows)[i] in ids; }
  }

  lemma GatheredNone(t: Tables)
    ensures Gathered(t, {}, []) && RangeOf<int>([]) == {}
  {
    assert AttachmentIDs([]) == [];
  }

  method AppendAttachments(tx: Transaction, query: set<int>, seen: set<int>, attachments: seq<AttachmentRow>)
    returns (r: Result<(set<int>, seq<AttachmentRow>)>)
    requires query <= tx.tables.attachments.Keys && Gathered(tx.tables, seen, attachments)
    ensures r.Ok? ==> r.value.0 == seen + query && Gathered(tx.tables, r.value.0, r.value.1)
    ensures r.Ok? ==> forall a :: a in query && a !in seen ==> !tx.tables.attachments[a].payload.Malformed?
    ensures r.Err? && tx.reliable ==> exists a :: a in query && tx.tables.attachments[a].payload.Malformed?
  {
    hide Gathered, RangeOf;
    if !tx.reliable { if * { return Err; } }
    var rows := InAnyOrder(query);
    var seen', attachments' := seen, attachments;
    assert RangeOf(rows[..0]) == {} by { EmptyRange<int>(); }
    for i := 0 to |rows|
      invariant seen' == seen + RangeOf(rows[..i]) && Gathered(tx.tables, seen', attachments')
      invariant forall a :: a in RangeOf(rows[..i]) && a !in seen ==>
                  a in query && !tx.tables.attachments[a].payload.Malformed?
    {
      var id := rows[i];
      RangeStep(rows, i);
      if id in seen' { continue; }
      seen' := seen' + {id};
      var attachment := tx.tables.attachments[id];
      var payload := "";
      match attachment.payload {
        case Empty =>
        case Malformed => return Err;
        case Encoded(text) => payload := text;
      }
      GatherOne(tx.tables, seen' - {id}, attachments', AttachmentRow(id, attachment, payload));
      assert seen' - {id} + {id} == seen';
      attachments' := attachments' + [AttachmentRow(id, attachment, payload)];
    }
    assert rows[..|rows|] == rows;
    return Ok((seen', attachments'));
  }

  lemma AttachmentsOnStep(t: Tables, batches: seq<seq<int>>, i: nat)
    requires i < |batches|
    ensures AttachmentsOn(t, RangeOf(Concat(batches[..i + 1]))) ==
            AttachmentsOn(t, RangeOf(Concat(batches[..i]))) + AttachmentsOn(t, RangeOf(batches[i]))
    ensures AttachmentsOn(t, RangeOf(batches[i])) <= AttachmentsOn(t, RangeOf(Concat(batches)))
  {
    BatchIsPart(batches, i);
  }

  method ListAttachments(tx: Transaction, userID: int, memoIDs: seq<int>) returns (r: Result<seq<AttachmentRow>>)
    ensures r.Ok? ==>
              Gathered(tx.tables, OwnAttachments(tx.tables, userID) + AttachmentsOn(tx.tables, RangeOf(memoIDs)),
                       r.value)
    ensures r.Err? && tx.reliable ==> exists a ::
                                        a in OwnAttachments(tx.tables, userID) +
                                          AttachmentsOn(tx.tables, RangeOf(memoIDs)) &&
                                                  tx.tables.attachments[a].payload.Malformed?
  {
    hide Gathered, RangeOf;
    ghost var t := tx.tables;
    GatheredNone(t);
    var own := AppendAttachments(tx, OwnAttachments(tx.tables, userID), {}, []);
    if own.Err? { return Err; }
    var seen, attachments := own.value.0, own.value.1;
    assert {} + OwnAttachments(t, userID) == OwnAttachments(t, userID);
    var batches := Batches(memoIDs, BATCH_SIZE);
    assert AttachmentsOn(t, RangeOf(Concat(batches[..0]))) == {} by { EmptyRange<int>(); }
    for i := 0 to |batches|
      invariant seen == OwnAttachments(t, userID) + AttachmentsOn(t, RangeOf(Concat(batches[..i])))
      invariant Gathered(t, seen, attachments)
    {
      AttachmentsOnStep(t, batches, i);
      var more := AppendAttachments(tx, AttachmentsOn(tx.tables, RangeOf(batches[i])), seen, attachments);
      if more.Err? { return Err; }
      seen, attachments := more.value.0, more.value.1;
    }
    assert batches[..|batches|] == batches;
    return Ok(attachments);
  }

  function SettingNames(t: Tables, userID: int): set<string> {
    set s | s in t.settings && s.0 == userID :: s.1
  }

  method ListSettingKeys(tx: Transaction, userID: int) returns (r: Result<seq<SettingKey>>)
    ensures r.Ok? ==> forall key :: key in r.value <==>
                        exists name :: name in SettingNames(tx.tables, userID) && KeyNamed(name) == key
    ensures tx.reliable ==> r.Ok?
  {
    if !tx.reliable { if * { return Err; } }
    var rows := InAnyOrder(SettingNames(tx.tables, userID));
    var keys: seq<SettingKey> := [];
    for i := 0 to |rows|
      invariant |keys| == i && forall j :: 0 <= j < i ==> keys[j] == KeyNamed(rows[j])
    {
      keys := keys + [KeyNamed(rows[i])];
    }
    forall key ensures key in keys <==>
      exists name :: name in SettingNames(tx.tables, userID) && KeyNamed(name) == key {
      if key in keys {
        var j :| 0 <= j < |keys| && keys[j] == key;
        assert rows[j] in RangeOf(rows);
      }
      if name :| name in SettingNames(tx.tables, userID) && KeyNamed(name) == key {
        assert name in RangeOf(rows);
        var j :| 0 <= j < |rows| && rows[j] == name;
        assert keys[j] == key;
      }
    }
    return Ok(keys);
  }

  method ListInboxIDs(tx: Transaction, userID: int, memos: set<int>) returns (r: Result<seq<int>>)
    ensures r.Ok? ==> RangeOf(r.value) == InboxTargets(tx.tables, userID, memos)
    ensures r.Ok? && memos != {} ==> forall i :: i in OtherInboxes(tx.tables, userID) ==>
                                       !tx.tables.inboxes[i].message.Malformed?
    ensures r.Err? && tx.reliable ==>
              memos != {} && exists i :: i in OtherInboxes(tx.tables, userID) && tx.tables.inboxes[i].message.Malformed?
  {
    hide RangeOf;
    if !tx.reliable { if * { return Err; } }
    var inboxIDs := InAnyOrder(DirectInboxes(tx.tables, userID));
    if memos == {} {
      NothingTouchesNothing(tx.tables, userID);
      return Ok(inboxIDs);
    }
    if !tx.reliable { if * { return Err; } }
    var rows := InAnyOrder(OtherInboxes(tx.tables, userID));
    assert RangeOf(rows[..0]) == {} by { EmptyRange<int>(); }
    for i := 0 to |rows|
      invariant RangeOf(inboxIDs) ==
                  DirectInboxes(tx.tables, userID) + TouchedAmong(tx.tables, RangeOf(rows[..i]), memos)
      invariant forall j :: j in RangeOf(rows[..i]) ==>
                  j in tx.tables.inboxes && !tx.tables.inboxes[j].message.Malformed?
    {
      var id := rows[i];
      RangeStep(rows, i);
      match tx.tables.inboxes[id].message {
        case Empty =>
        case Malformed => return Err;
        case Encoded(message) =>
          if InboxMessageTouchesMemoSet(message, memos) {
            RangeOfSum(inboxIDs, [id]);
            OneInRange(id);
            inboxIDs := inboxIDs + [id];
          }
      }
    }
    assert rows[..|rows|] == rows;
    TouchedAreTargets(tx.tables, userID, memos);
    return Ok(inboxIDs);
  }

  function TouchedAmong(t: Tables, ids: set<int>, memos: set<int>): set<int> {
    set i | i in t.inboxes && i in ids && Concerns(t.inboxes[i], {}, memos)
  }

  lemma NothingTouchesNothing(t: Tables, userID: int)
    ensures InboxTargets(t, userID, {}) == DirectInboxes(t, userID)
  {
    forall i | i in t.inboxes ensures i in InboxTargets(t, userID, {}) <==> i in DirectInboxes(t, userID) {
      if t.inboxes[i].message.Encoded? { assert !InboxMessageTouchesMemoSet(t.inboxes[i].message.message, {}); }
    }
  }

  lemma TouchedAreTargets(t: Tables, userID: int, memos: set<int>)
    ensures DirectInboxes(t, userID) + TouchedAmong(t, OtherInboxes(t, userID), memos) == InboxTargets(t, userID, memos)
  {
    hide InboxMessageTouchesMemoSet;
    forall i | i in t.inboxes
      ensures i in DirectInboxes(t, userID) + TouchedAmong(t, OtherInboxes(t, userID), memos) <==>
                i in InboxTargets(t, userID, memos)
    {
    }
  }

  /** Exactly what is to go with the user, read in the transaction. */
  ghost predicate AreTargets(t: Tables, userID: int, targets: Targets) {
    var tree := Tree(t, userID);
    && Listed(t, targets.memos) && Distinct(targets.memos) && Ids(targets.memos) == tree
    && Gathered(t, OwnAttachments(t, userID) + AttachmentsOn(t, tree), targets.attachments)
    && (forall key :: key in targets.settingKeys <==>
          exists name :: name in SettingNames(t, userID) && KeyNamed(name) == key)
    && RangeOf(targets.inboxIDs) == InboxTargets(t, userID, tree)
  }

  lemma MemoIDsAreIds(refs: seq<MemoRef>)
    ensures RangeOf(MemoIDs(refs)) == Ids(refs)
  {
    forall i | 0 <= i < |refs| ensures refs[i].id in RangeOf(MemoIDs(refs)) { assert MemoIDs(refs)[i] == refs[i].id; }
  }

  method CollectTargets(tx: Transaction, mysql: bool, userID: int) returns (r: Result<Targets>)
    ensures r.Ok? ==> AreTargets(tx.tables, userID, r.value) && !Blocked(tx.tables, userID)
    ensures r.Err? && tx.reliable ==> Blocked(tx.tables, userID)
  {
    hide Gathered, RangeOf, Tree, Listed, Distinct, Ids, OwnAttachments, AttachmentsOn, OtherInboxes, InboxTargets,
         SettingNames, IsTree;
    var memos: Result<seq<MemoRef>>;
    if mysql { memos := tx.ListMemoTreeIterative(userID); } else { memos := tx.ListMemoTreeRecursive(userID); }
    if memos.Err? { return Err; }
    TreeIsReachability(tx.tables, userID, Ids(memos.value));
    MemoIDsAreIds(memos.value);
    var attachments := ListAttachments(tx, userID, MemoIDs(memos.value));
    if attachments.Err? { return Err; }
    NoneMalformed(tx.tables, OwnAttachments(tx.tables, userID) + AttachmentsOn(tx.tables, Tree(tx.tables, userID)),
                  attachments.value);
    var keys := ListSettingKeys(tx, userID);
    if keys.Err? { return Err; }
    var inboxIDs := ListInboxIDs(tx, userID, RangeOf(MemoIDs(memos.value)));
    if inboxIDs.Err? { return Err; }
    return Ok(Targets(memos.value, attachments.value, keys.value, inboxIDs.value));
  }

  lemma NoneMalformed(t: Tables, ids: set<int>, rows: seq<AttachmentRow>)
    requires Gathered(t, ids, rows)
    ensures forall a :: a in ids ==> a in t.attachments && !t.attachments[a].payload.Malformed?
  {
    forall a | a in ids ensures a in t.attachments && !t.attachments[a].payload.Malformed? {
      assert a in RangeOf(AttachmentIDs(rows));
      var i :| 0 <= i < |rows| && AttachmentIDs(rows)[i] == a;
      assert IsRow(t, rows[i]);
    }
  }

  lemma TargetsAreRead(t: Tables, userID: int, targets: Targets)
    requires AreTargets(t, userID, targets)
    ensures forall name :: (userID, name) in t.settings ==> KeyNamed(name) in targets.settingKeys
    ensures Gathered(t, OwnAttachments(t, userID) + AttachmentsOn(t, Tree(t, userID)), targets.attachments)
  {
    hide Tree, Gathered, Listed, Distinct, Ids, RangeOf, InboxTargets;
    forall name | (userID, name) in t.settings ensures KeyNamed(name) in targets.settingKeys {
      assert (userID, name).1 in SettingNames(t, userID);
    }
  }

  // The statements, each with what it leaves.

  function WithoutReactionsOn(t: Tables, contents: set<string>): Tables {
    t.(reactions := map r | r in t.reactions && t.reactions[r].contentID !in contents :: t.reactions[r])
  }

  function WithoutReactionsBy(t: Tables, userID: int): Tables {
    t.(reactions := map r | r in t.reactions && t.reactions[r].creatorID != userID :: t.reactions[r])
  }

  function WithoutAttachments(t: Tables, ids: set<int>): Tables {
    t.(attachments := map a | a in t.attachments && a !in ids :: t.attachments[a])
  }

  function WithoutSharesBy(t: Tables, userID: int): Tables {
    t.(shares := map s | s in t.shares && t.shares[s].creatorID != userID :: t.shares[s])
  }

  function WithoutSharesOf(t: Tables, memos: set<int>): Tables {
    t.(shares := map s | s in t.shares && t.shares[s].memoID !in memos :: t.shares[s])
  }

  function WithoutInboxes(t: Tables, ids: set<int>): Tables {
    t.(inboxes := map i | i in t.inboxes && i !in ids :: t.inboxes[i])
  }

  function WithoutSettingsOf(t: Tables, userID: int): Tables {
    t.(settings := map s | s in t.settings && s.0 != userID :: t.settings[s])
  }

  function WithoutRelations(t: Tables, memos: set<int>): Tables {
    t.(relations := set r | r in t.relations && r.memoID !in memos && r.relatedMemoID !in memos)
  }

  function WithoutMemos(t: Tables, memos: set<int>): Tables {
    t.(memos := map m | m in t.memos && m !in memos :: t.memos[m])
  }

  function WithoutUser(t: Tables, userID: int): Tables {
    t.(users := map u | u in t.users && u != userID :: t.users[u])
  }

  /** Deleting nothing changes nothing, and deleting twice is deleting both at once. */
  ghost predicate Additive<K(!new)>(without: (Tables, set<K>) -> Tables) {
    (forall t :: without(t, {}) == t) && (forall t, a, b :: without(without(t, a), b) == without(t, a + b))
  }

  /** One statement after another, each with the next batch of keys. */
  method DeleteInBatches<K(==,!new)>(tx: Transaction, keys: seq<K>, without: (Tables, set<K>) -> Tables)
    returns (ok: bool)
    requires Additive(without)
    modifies tx
    ensures ok ==> tx.tables == without(old(tx.tables), RangeOf(keys))
    ensures tx.reliable ==> ok
  {
    hide RangeOf;
    ghost var t := tx.tables;
    var batches := Batches(keys, BATCH_SIZE);
    EmptyRange<K>();
    for i := 0 to |batches|
      invariant tx.tables == without(t, RangeOf(Concat(batches[..i])))
    {
      if !tx.reliable { if * { return false; } }
      BatchIsPart(batches, i);
      tx.tables := without(tx.tables, RangeOf(batches[i]));
    }
    assert batches[..|batches|] == batches;
    return true;
  }

  /** Batch by batch, the reactions on the given memos. */
  method DeleteReactionsByContentIDs(tx: Transaction, contentIDs: seq<string>) returns (ok: bool)
    modifies tx
    ensures ok ==> tx.tables == WithoutReactionsOn(old(tx.tables), RangeOf(contentIDs))
    ensures tx.reliable ==> ok
  {
    ReactionsAddUp();
    ok := DeleteInBatches(tx, contentIDs, WithoutReactionsOn);
  }

  lemma ReactionsAddUp()
    ensures Additive(WithoutReactionsOn)
  {
  }

  /** Batch by batch, the given attachments. */
  method DeleteAttachmentsByIDs(tx: Transaction, attachmentIDs: seq<int>) returns (ok: bool)
    modifies tx
    ensures ok ==> tx.tables == WithoutAttachments(old(tx.tables), RangeOf(attachmentIDs))
    ensures tx.reliable ==> ok
  {
    AttachmentsAddUp();
    ok := DeleteInBatches(tx, attachmentIDs, WithoutAttachments);
  }

  lemma AttachmentsAddUp()
    ensures Additive(WithoutAttachments)
  {
  }

  /** Batch by batch, the shares of the given memos. */
  method DeleteMemoSharesOf(tx: Transaction, memoIDs: seq<int>) returns (ok: bool)
    modifies tx
    ensures ok ==> tx.tables == WithoutSharesOf(old(tx.tables), RangeOf(memoIDs))
    ensures tx.reliable ==> ok
  {
    SharesAddUp();
    ok := DeleteInBatches(tx, memoIDs, WithoutSharesOf);
  }

  lemma SharesAddUp()
    ensures Additive(WithoutSharesOf)
  {
  }

  /** Batch by batch, the given notifications. */
  method DeleteInboxesByIDs(tx: Transaction, inboxIDs: seq<int>) returns (ok: bool)
    modifies tx
    ensures ok ==> tx.tables == WithoutInboxes(old(tx.tables), RangeOf(inboxIDs))
    ensures tx.reliable ==> ok
  {
    InboxesAddUp();
    ok := DeleteInBatches(tx, inboxIDs, WithoutInboxes);
  }

  lemma InboxesAddUp()
    ensures Additive(WithoutInboxes)
  {
  }

  /** Batch by batch, the relations from or to the given memos. */
  method DeleteMemoRelations(tx: Transaction, memoIDs: seq<int>) returns (ok: bool)
    modifies tx
    ensures ok ==> tx.tables == WithoutRelations(old(tx.tables), RangeOf(memoIDs))
    ensures tx.reliable ==> ok
  {
    RelationsAddUp();
    ok := DeleteInBatches(tx, memoIDs, WithoutRelations);
  }

  lemma RelationsAddUp()
    ensures Additive(WithoutRelations)
  {
  }

  /** Batch by batch, the given memos. */
  method DeleteMemos(tx: Transaction, memoIDs: seq<int>) returns (ok: bool)
    modifies tx
    ensures ok ==> tx.tables == WithoutMemos(old(tx.tables), RangeOf(memoIDs))
    ensures tx.reliable ==> ok
  {
    MemosAddUp();
    ok := DeleteInBatches(tx, memoIDs, WithoutMemos);
  }

  lemma MemosAddUp()
    ensures Additive(WithoutMemos)
  {
  }

  method DeleteMemoShares(tx: Transaction, userID: int, memoIDs: seq<int>) returns (ok: bool)
    modifies tx
    ensures ok ==> tx.tables == WithoutSharesOf(WithoutSharesBy(old(tx.tables), userID), RangeOf(memoIDs))
    ensures tx.reliable ==> ok
  {
    if !tx.reliable { if * { return false; } }
    tx.tables := WithoutSharesBy(tx.tables, userID);
    ok := DeleteMemoSharesOf(tx, memoIDs);
  }

  /** One user's rows in a table that names the user, all at once. */
  method Execute(tx: Transaction, after: Tables) returns (ok: bool)
    modifies tx
    ensures ok ==> tx.tables == after
    ensures tx.reliable ==> ok
  {
    if !tx.reliable { if * { return false; } }
    tx.tables := after;
    return true;
  }

  /** Runs the statements in their order, up to the first that fails. */
  method DeleteTargets(tx: Transaction, userID: int, targets: Targets) returns (ok: bool)
    requires AreTargets(tx.tables, userID, targets)
    modifies tx
    ensures ok ==> tx.tables == AfterDelete(old(tx.tables), userID)
    ensures tx.reliable ==> ok
  {
    StatementsAddUp(tx.tables, userID, targets);
    hide RangeOf, Tree, Left, AfterDelete, AreTargets, WithoutReactionsOn, WithoutReactionsBy, WithoutAttachments,
         WithoutSharesBy, WithoutSharesOf, WithoutInboxes, WithoutSettingsOf, WithoutRelations, WithoutMemos,
         WithoutUser;
    var memoIDs := MemoIDs(targets.memos);
    ok := DeleteReactionsByContentIDs(tx, ContentIDs(targets.memos));
    if !ok { return; }
    ok := DeleteAttachmentsByIDs(tx, AttachmentIDs(targets.attachments));
    if !ok { return; }
    ok := Execute(tx, WithoutReactionsBy(tx.tables, userID));
    if !ok { return; }
    ok := DeleteMemoShares(tx, userID, memoIDs);
    if !ok { return; }
    ok := DeleteInboxesByIDs(tx, targets.inboxIDs);
    if !ok { return; }
    ok := Execute(tx, WithoutSettingsOf(tx.tables, userID));
    if !ok { return; }
    ok := DeleteMemoRelations(tx, memoIDs);
    if !ok { return; }
    ok := DeleteMemos(tx, memoIDs);
    if !ok { return; }
    ok := Execute(tx, WithoutUser(tx.tables, userID));
  }

  // The outcome.

  /** The names under which reactions refer to the memos. */
  ghost function Contents(t: Tables, memos: set<int>): set<string> {
    set m | m in memos && m in t.memos :: ContentID(t.memos[m].uid)
  }

  /** What is left of every table without the users, their rows, and the rows that refer to the memos. */
  ghost function Left(t: Tables, users: set<int>, memos: set<int>): Tables {
    var contents := Contents(t, memos);
    Tables(
      map u | u in t.users && u !in users :: t.users[u],
      map s | s in t.settings && s.0 !in users :: t.settings[s],
      map m | m in t.memos && m !in memos :: t.memos[m],
      set r | r in t.relations && r.memoID !in memos && r.relatedMemoID !in memos,
      map r | r in t.reactions && t.reactions[r].creatorID !in users &&
        t.reactions[r].contentID !in contents :: t.reactions[r],
      map a | a in t.attachments && t.attachments[a].creatorID !in users &&
        !IsOn(t.attachments[a], memos) :: t.attachments[a],
      map s | s in t.shares && t.shares[s].creatorID !in users && t.shares[s].memoID !in memos :: t.shares[s],
      map i | i in t.inboxes && !Concerns(t.inboxes[i], users, memos) :: t.inboxes[i])
  }

  /** What a committed deletion leaves. */
  ghost function AfterDelete(t: Tables, userID: int): Tables {
    Left(t, {userID}, Tree(t, userID))
  }

  predicate IsOn(attachment: Attachment, memos: set<int>) {
    attachment.memoID.Some? && attachment.memoID.value in memos
  }

  lemma ContentIDsAreContents(t: Tables, refs: seq<MemoRef>)
    requires Listed(t, refs)
    ensures RangeOf(ContentIDs(refs)) == Contents(t, Ids(refs))
  {
    var ids := ContentIDs(refs);
    forall x | x in Contents(t, Ids(refs)) ensures x in RangeOf(ids) {
      var m :| m in Ids(refs) && m in t.memos && ContentID(t.memos[m].uid) == x;
      var i :| 0 <= i < |refs| && refs[i].id == m;
      assert ids[i] == x;
      assert x in RangeOf(ids);
    }
    forall x | x in RangeOf(ids) ensures x in Contents(t, Ids(refs)) {
      var i :| 0 <= i < |ids| && ids[i] == x;
      var m := refs[i].id;
      assert m in Ids(refs) && m in t.memos && ContentID(t.memos[m].uid) == x;
    }
  }

  lemma AttachmentsLeft(t: Tables, userID: int, memos: set<int>)
    ensures WithoutAttachments(t, OwnAttachments(t, userID) + AttachmentsOn(t, memos)).attachments ==
              Left(t, {userID}, memos).attachments
  {
    hide Contents, Concerns;
    forall a | a in t.attachments
      ensures a in OwnAttachments(t, userID) + AttachmentsOn(t, memos) <==>
                t.attachments[a].creatorID in {userID} || IsOn(t.attachments[a], memos)
    {
    }
    hide IsOn, OwnAttachments, AttachmentsOn;
  }

  /** All statements together leave what is to be left. */
  lemma StatementsLeave(t: Tables, userID: int, memos: set<int>, contents: set<string>, attachments: set<int>,
                        inboxes: set<int>)
    requires contents == Contents(t, memos) && inboxes == InboxTargets(t, userID, memos)
    requires attachments == OwnAttachments(t, userID) + AttachmentsOn(t, memos)
    ensures AfterStatements(t, userID, memos, contents, attachments, inboxes) == Left(t, {userID}, memos)
  {
    hide AfterStatements, Left, Contents, InboxTargets, OwnAttachments, AttachmentsOn;
    StatementsLeaveOwnRows(t, userID, memos, contents, attachments, inboxes);
    StatementsLeaveHangers(t, userID, memos, contents, attachments, inboxes);
  }

  lemma StatementsLeaveOwnRows(t: Tables, userID: int, memos: set<int>, contents: set<string>, attachments: set<int>,
                               inboxes: set<int>)
    ensures var after, left := AfterStatements(t, userID, memos, contents, attachments, inboxes),
            Left(t, {userID}, memos);
            after.users == left.users && after.settings == left.settings && after.memos == left.memos &&
              after.relations == left.relations
  {
    hide Contents, Concerns, IsOn;
  }

  lemma StatementsLeaveHangers(t: Tables, userID: int, memos: set<int>, contents: set<string>, attachments: set<int>,
                               inboxes: set<int>)
    requires contents == Contents(t, memos) && inboxes == InboxTargets(t, userID, memos)
    requires attachments == OwnAttachments(t, userID) + AttachmentsOn(t, memos)
    ensures var after, left := AfterStatements(t, userID, memos, contents, attachments, inboxes),
            Left(t, {userID}, memos);
            after.reactions == left.reactions && after.attachments == left.attachments && after.shares == left.shares &&
            after.inboxes == left.inboxes
  {
    AttachmentsLeft(t, userID, memos);
    hide Contents, Concerns, IsOn, OwnAttachments, AttachmentsOn;
  }

  /** The statements in their order. */
  function AfterStatements(t: Tables, userID: int, memos: set<int>, contents: set<string>, attachments: set<int>,
                           inboxes: set<int>): Tables {
    var t1 := WithoutReactionsBy(WithoutAttachments(WithoutReactionsOn(t, contents), attachments), userID);
    var t2 := WithoutInboxes(WithoutSharesOf(WithoutSharesBy(t1, userID), memos), inboxes);
    WithoutUser(WithoutMemos(WithoutRelations(WithoutSettingsOf(t2, userID), memos), memos), userID)
  }

  lemma StatementsAddUp(t: Tables, userID: int, targets: Targets)
    requires AreTargets(t, userID, targets)
    ensures AfterStatements(t, userID, RangeOf(MemoIDs(targets.memos)), RangeOf(ContentIDs(targets.memos)),
                            RangeOf(AttachmentIDs(targets.attachments)), RangeOf(targets.inboxIDs)) ==
                              AfterDelete(t, userID)
  {
    ContentIDsAreContents(t, targets.memos);
    MemoIDsAreIds(targets.memos);
    hide RangeOf, Tree, Listed, Distinct, Ids, Contents, InboxTargets, AfterStatements, Left, OwnAttachments,
         AttachmentsOn;
    StatementsLeave(t, userID, RangeOf(MemoIDs(targets.memos)), RangeOf(ContentIDs(targets.memos)),
                    RangeOf(AttachmentIDs(targets.attachments)), RangeOf(targets.inboxIDs));
  }

  // The transaction.

  /**
   Deletes the user and everything that goes with the user, or nothing: any error, also of the commit itself,
   leaves all tables as they were. Without database errors only rows that do not decode stop it.
   */
  method DeleteUserRows(db: Database, userID: int, failBeforeCommit: bool, reliable: bool) returns (r: Result<Targets>)
    modifies db`tables
    ensures r.Ok? ==> db.tables == AfterDelete(old(db.tables), userID) && AreTargets(old(db.tables), userID, r.value)
    ensures r.Err? ==> db.tables == old(db.tables)
    ensures r.Ok? ==> !failBeforeCommit && !Blocked(old(db.tables), userID) &&
                      db.driver in {"sqlite", "mysql", "postgres"}
    ensures (reliable && !failBeforeCommit && !Blocked(old(db.tables), userID) &&
             db.driver in {"sqlite", "mysql", "postgres"}) ==> r.Ok?
  {
    hide *;
    if db.driver != "sqlite" && db.driver != "mysql" && db.driver != "postgres" { return Err; }
    if !reliable { if * { return Err; } }
    var tx := new Transaction(db.tables, reliable);
    var targets := CollectTargets(tx, db.driver == "mysql", userID);
    if targets.Err? { return Err; }
    var ok := DeleteTargets(tx, userID, targets.value);
    if !ok { return Err; }
    if failBeforeCommit { return Err; }
    if !reliable { if * { return Err; } }
    db.tables := tx.tables;
    return targets;
  }

  // What the outcome means.

  /** Does the notification's payload, whatever its type, name one of the memos? */
  predicate Names(message: InboxMessage, memos: set<int>) {
    match message.payload
    case NoPayload => false
    case CommentPayload(memoID, relatedMemoID) => memoID in memos || relatedMemoID in memos
    case MentionPayload(memoID, relatedMemoID) => memoID in memos || relatedMemoID in memos
  }

  /** The payload is of the message's own type. */
  predicate WellTyped(message: InboxMessage) {
    match message.payload
    case NoPayload => true
    case CommentPayload(_, _) => message.kind.MemoComment?
    case MentionPayload(_, _) => message.kind.MemoMention?
  }

  /** Rows have positive ids, and memos distinct uids. */
  ghost predicate ProperKeys(t: Tables) {
    && (forall m :: m in t.memos ==> m > 0)
    && (forall m, n :: m in t.memos && n in t.memos && t.memos[m].uid == t.memos[n].uid ==> m == n)
  }

  /** No row of the tables belongs to the user or refers to one of the memos, apart from notifications. */
  ghost predicate FreeOf(t: Tables, userID: int, memos: set<int>, contents: set<string>) {
    && userID !in t.users
    && (forall s :: s in t.settings ==> s.0 != userID)
    && (forall m :: m in t.memos ==> m !in memos && t.memos[m].creatorID != userID)
    && (forall r :: r in t.relations ==> r.memoID !in memos && r.relatedMemoID !in memos)
    && (forall r :: r in t.reactions ==> t.reactions[r].creatorID != userID && t.reactions[r].contentID !in contents)
    && (forall a :: a in t.attachments ==> t.attachments[a].creatorID != userID && !IsOn(t.attachments[a], memos))
    && (forall s :: s in t.shares ==> t.shares[s].creatorID != userID && t.shares[s].memoID !in memos)
    && (forall i :: i in t.inboxes ==> t.inboxes[i].senderID != userID && t.inboxes[i].receiverID != userID)
  }

  /** Nothing that survives belongs to the user, refers to a deleted memo, or was a comment or a reaction on one. */
  lemma NothingDangles(t: Tables, userID: int)
    ensures var tree := Tree(t, userID);
            var after := AfterDelete(t, userID);
            && FreeOf(after, userID, tree, Contents(t, tree))
            && (forall c, p :: c in after.memos && p in tree ==> Relation(c, p, "COMMENT") !in t.relations)
            && (forall r, m :: r in after.reactions && m in tree && m in t.memos ==>
                  after.reactions[r].contentID != "memos/" + t.memos[m].uid)
  {
    ReachedAreClosed(t, userID);
    forall c, p | c in AfterDelete(t, userID).memos && p in Tree(t, userID)
      ensures Relation(c, p, "COMMENT") !in t.relations
    {
      assert !IsCommentOn(t, c, p);
    }
    forall m | m in t.memos && t.memos[m].creatorID == userID ensures m in Tree(t, userID) {
      assert IsRoot(t, userID, m);
    }
    hide Tree, Contents;
  }

  /** No surviving notification names a deleted memo. */
  ghost predicate InboxesFreeOf(t: Tables, memos: set<int>) {
    forall i :: i in t.inboxes && t.inboxes[i].message.Encoded? ==> !Names(t.inboxes[i].message.message, memos)
  }

  /** Others' notifications that name one of the memos say so in a payload of the message's own type. */
  ghost predicate NamedProperly(t: Tables, userID: int, memos: set<int>) {
    forall i :: (i in OtherInboxes(t, userID) && t.inboxes[i].message.Encoded? &&
                 Names(t.inboxes[i].message.message, memos))
                ==> WellTyped(t.inboxes[i].message.message)
  }

  /** Notifications are cleaned out exactly when those naming a deleted memo carry a payload of their own type. */
  lemma NotificationsCleanIff(t: Tables, userID: int)
    requires ProperKeys(t)
    ensures InboxesFreeOf(AfterDelete(t, userID), Tree(t, userID)) <==> NamedProperly(t, userID, Tree(t, userID))
  {
    var tree := Tree(t, userID);
    assert 0 !in tree;
    hide Tree, Contents;
    forall i | i in t.inboxes && t.inboxes[i].message.Encoded?
      ensures i in AfterDelete(t, userID).inboxes && Names(t.inboxes[i].message.message, tree) <==>
              i in OtherInboxes(t, userID) && Names(t.inboxes[i].message.message, tree) &&
                !WellTyped(t.inboxes[i].message.message)
    {
      TouchesIff(t.inboxes[i].message.message, tree);
    }
    if InboxesFreeOf(AfterDelete(t, userID), tree) {
      forall i | i in OtherInboxes(t, userID) && t.inboxes[i].message.Encoded? &&
        Names(t.inboxes[i].message.message, tree)
        ensures WellTyped(t.inboxes[i].message.message)
      {
        assert i !in AfterDelete(t, userID).inboxes;
      }
    }
  }

  lemma TouchesIff(message: InboxMessage, memos: set<int>)
    requires 0 !in memos
    ensures InboxMessageTouchesMemoSet(message, memos) <==> Names(message, memos) && WellTyped(message)
  {
  }

  /** A notification of one type whose payload is of the other outlives the memo it names. */
  lemma MistypedNotificationSurvives()
    ensures var message := InboxMessage(MemoComment, MentionPayload(1, 1));
            var t :=
              Tables(map[], map[], map[1 := Memo("m", 1, "")], {}, map[], map[], map[],
                     map[7 := Inbox(2, 3, Encoded(message))]);
            7 in AfterDelete(t, 1).inboxes && Tree(t, 1) == {1} && Names(message, {1})
  {
    var message := InboxMessage(MemoComment, MentionPayload(1, 1));
    var t :=
      Tables(map[], map[], map[1 := Memo("m", 1, "")], {}, map[], map[], map[],
             map[7 := Inbox(2, 3, Encoded(message))]);
    assert IsRoot(t, 1, 1) && LeadsToRoot(t, 1, [1]);
  }

  /** Of others' reactions exactly those on no memo of the tree stay, on whatever else they are. */
  lemma ReactionStaysIff(t: Tables, userID: int, r: int)
    requires r in t.reactions
    ensures r in AfterDelete(t, userID).reactions <==>
            t.reactions[r].creatorID != userID &&
            forall m :: m in Tree(t, userID) ==> t.reactions[r].contentID != "memos/" + t.memos[m].uid
  {
    hide Tree, Concerns;
    assert forall m :: m in Tree(t, userID) ==> m in t.memos by { TreeHasMemos(t, userID); }
  }

  lemma TreeHasMemos(t: Tables, userID: int)
    ensures forall m :: m in Tree(t, userID) ==> m in t.memos
  {
  }

  /** Memo 1 of user 1, a comment on it and a reference to it, both of user 2, and a reaction of user 3 on each. */
  function LinkedMemos(): Tables {
    Tables(map[], map[], map[1 := Memo("a", 1, ""), 2 := Memo("b", 2, ""), 3 := Memo("c", 2, "")],
           {Relation(2, 1, "COMMENT"), Relation(3, 1, "REFERENCE")},
           map[1 := Reaction(3, "memos/a", ""), 2 := Reaction(3, "memos/b", ""), 3 := Reaction(3, "memos/c", "")],
           map[], map[], map[])
  }

  /** With user 1 go memos 1 and 2 and the reactions on them; memo 3 and its reaction stay. */
  lemma CommentGoesReferenceStays()
    ensures var after := AfterDelete(LinkedMemos(), 1);
            && Tree(LinkedMemos(), 1) == {1, 2} && after.memos.Keys == {3} && after.relations == {}
            && after.reactions.Keys == {3}
  {
    var t := LinkedMemos();
    LinkedTree();
    LinkedReactions();
    hide Tree;
    assert t.reactions[1].contentID == "memos/" + t.memos[1].uid;
    assert t.reactions[2].contentID == "memos/" + t.memos[2].uid;
    ReactionStaysIff(t, 1, 1);
    ReactionStaysIff(t, 1, 2);
    ReactionStaysIff(t, 1, 3);
    hide Contents, Concerns, LinkedMemos;
    assert t.memos.Keys == t.reactions.Keys == {1, 2, 3} &&
           t.relations == {Relation(2, 1, "COMMENT"), Relation(3, 1, "REFERENCE")};
  }

  lemma LinkedTree()
    ensures Tree(LinkedMemos(), 1) == {1, 2}
  {
    var t := LinkedMemos();
    InTreeIff(t, 1, 1);
    InTreeIff(t, 1, 2);
    InTreeIff(t, 1, 3);
    TreeHasMemos(t, 1);
    hide Tree;
    assert "REFERENCE"[0] != "COMMENT"[0];
    assert forall p :: Relation(3, p, "COMMENT") !in t.relations;
  }

  lemma LinkedReactions()
    ensures "memos/" + "a" == "memos/a" && "memos/" + "b" == "memos/b"
    ensures "memos/" + "a" != "memos/c" && "memos/" + "b" != "memos/c"
  {
    assert "memos/c"[6] == 'c' && ("memos/" + "a")[6] == 'a' && ("memos/" + "b")[6] == 'b';
  }

  /** Every reference leads to a row. */
  ghost predicate References(t: Tables) {
    && (forall m :: m in t.memos ==> t.memos[m].creatorID in t.users)
    && (forall s :: s in t.settings ==> s.0 in t.users)
    && (forall r :: r in t.relations ==> r.memoID in t.memos && r.relatedMemoID in t.memos)
    && (forall r :: r in t.reactions ==>
          t.reactions[r].creatorID in t.users && t.reactions[r].contentID in Contents(t, t.memos.Keys))
    && (forall a :: a in t.attachments ==>
          t.attachments[a].creatorID in t.users && AttachedWithin(t.attachments[a], t.memos.Keys))
    && (forall s :: s in t.shares ==> t.shares[s].creatorID in t.users && t.shares[s].memoID in t.memos)
    && (forall i :: i in t.inboxes ==> InboxRefers(t.inboxes[i], t.users.Keys, t.memos.Keys))
  }

  predicate AttachedWithin(attachment: Attachment, memos: set<int>) {
    attachment.memoID.Some? ==> attachment.memoID.value in memos
  }

  predicate InboxRefers(inbox: Inbox, users: set<int>, memos: set<int>) {
    && inbox.senderID in users && inbox.receiverID in users
    && (inbox.message.Encoded? ==>
          WellTyped(inbox.message.message) &&
          match inbox.message.message.payload
          case NoPayload => true
          case CommentPayload(memoID, relatedMemoID) => memoID in memos && relatedMemoID in memos
          case MentionPayload(memoID, relatedMemoID) => memoID in memos && relatedMemoID in memos)
  }

  lemma ReactionsStillRefer(t: Tables, userID: int)
    requires References(t)
    ensures var after := AfterDelete(t, userID);
            forall r :: r in after.reactions ==> after.reactions[r].contentID in Contents(after, after.memos.Keys)
  {
    var after := AfterDelete(t, userID);
    hide Tree, Concerns, ContentID;
    forall r | r in after.reactions ensures after.reactions[r].contentID in Contents(after, after.memos.Keys) {
      var m :| m in t.memos && ContentID(t.memos[m].uid) == t.reactions[r].contentID;
      assert m in after.memos;
    }
  }

  /** If every reference led to a row before, it does after. */
  lemma ReferencesAreKept(t: Tables, userID: int)
    requires ProperKeys(t) && References(t)
    ensures References(AfterDelete(t, userID)) && ProperKeys(AfterDelete(t, userID))
  {
    OwnReferencesStay(t, userID);
    HangersStillRefer(t, userID);
    ReactionsStillRefer(t, userID);
    var after := AfterDelete(t, userID);
    forall i | i in after.inboxes ensures InboxRefers(after.inboxes[i], after.users.Keys, after.memos.Keys) {
      InboxStillRefers(t, userID, i);
    }
    hide AfterDelete, InboxRefers, AttachedWithin, Contents;
  }

  lemma OwnReferencesStay(t: Tables, userID: int)
    requires ProperKeys(t) && References(t)
    ensures var after := AfterDelete(t, userID);
            && ProperKeys(after)
            && (forall m :: m in after.memos ==> after.memos[m].creatorID in after.users)
            && (forall s :: s in after.settings ==> s.0 in after.users)
            && (forall r :: r in after.relations ==> r.memoID in after.memos && r.relatedMemoID in after.memos)
  {
    NothingDangles(t, userID);
    hide Tree, Contents, Concerns, InboxRefers, AttachedWithin;
  }

  lemma HangersStillRefer(t: Tables, userID: int)
    requires ProperKeys(t) && References(t)
    ensures var after := AfterDelete(t, userID);
            && (forall r :: r in after.reactions ==> after.reactions[r].creatorID in after.users)
            && (forall a :: a in after.attachments ==> after.attachments[a].creatorID in after.users &&
                                                       AttachedWithin(after.attachments[a], after.memos.Keys))
            && (forall s :: s in after.shares ==>
                  after.shares[s].creatorID in after.users && after.shares[s].memoID in after.memos)
  {
    hide Tree, Contents, Concerns, InboxRefers;
  }

  lemma InboxStillRefers(t: Tables, userID: int, i: int)
    requires ProperKeys(t) && i in AfterDelete(t, userID).inboxes &&
             InboxRefers(t.inboxes[i], t.users.Keys, t.memos.Keys)
    ensures InboxRefers(AfterDelete(t, userID).inboxes[i], AfterDelete(t, userID).users.Keys,
                        AfterDelete(t, userID).memos.Keys)
  {
    var tree := Tree(t, userID);
    assert 0 !in tree;
    hide Tree, Contents;
    if t.inboxes[i].message.Encoded? {
      TouchesIff(t.inboxes[i].message.message, tree);
    }
  }

  /**
   A memo outside the tree keeps all that others hang on it: reactions, attachments, shares, relations to other such
   memos.
   */
  lemma SurvivingMemosKeepTheirRows(t: Tables, userID: int, m: int)
    requires ProperKeys(t) && m in t.memos && m !in Tree(t, userID)
    ensures var after := AfterDelete(t, userID);
            && m in after.memos && after.memos[m] == t.memos[m] && t.memos[m].creatorID != userID
            && (forall r :: (r in t.reactions && t.reactions[r].contentID == ContentID(t.memos[m].uid) &&
                             t.reactions[r].creatorID != userID)
                            ==> r in after.reactions && after.reactions[r] == t.reactions[r])
            && (forall a :: (a in t.attachments && t.attachments[a].memoID == Some(m) &&
                             t.attachments[a].creatorID != userID)
                            ==> a in after.attachments && after.attachments[a] == t.attachments[a])
            && (forall s :: s in t.shares && t.shares[s].memoID == m && t.shares[s].creatorID != userID
                            ==> s in after.shares && after.shares[s] == t.shares[s])
            && (forall r :: r in t.relations && r.memoID == m && r.relatedMemoID !in Tree(t, userID) ==>
                  r in after.relations)
            && (forall r :: r in t.relations && r.relatedMemoID == m && r.memoID !in Tree(t, userID) ==>
                  r in after.relations)
  {
    var tree := Tree(t, userID);
    ReachedAreClosed(t, userID);
    assert !IsRoot(t, userID, m);
    assert ContentID(t.memos[m].uid) !in Contents(t, tree) by {
      if ContentID(t.memos[m].uid) in Contents(t, tree) {
        var n :| n in tree && n in t.memos && ContentID(t.memos[n].uid) == ContentID(t.memos[m].uid);
        SameContentSameUID(t.memos[m].uid, t.memos[n].uid);
      }
    }
    hide Tree, Contents, ContentID;
  }

  /** Rows that are not the user's and refer to no deleted memo stay as they are, and no row is new or changed. */
  lemma OthersAreUntouched(t: Tables, userID: int)
    ensures var tree := Tree(t, userID);
            var after := AfterDelete(t, userID);
            && (forall u :: u in t.users && u != userID ==> u in after.users)
            && (forall s :: s in t.settings && s.0 != userID ==> s in after.settings)
            && (forall a :: (a in t.attachments && t.attachments[a].creatorID != userID &&
                             !IsOn(t.attachments[a], tree)) ==> a in after.attachments)
            && (forall s :: s in t.shares && t.shares[s].creatorID != userID && t.shares[s].memoID !in tree ==>
                  s in after.shares)
            && (forall i :: (i in OtherInboxes(t, userID) &&
                             (t.inboxes[i].message.Encoded? ==> !Names(t.inboxes[i].message.message, tree)))
                            ==> i in after.inboxes)
            && IsPartOf(after, t)
  {
    hide Tree, Contents;
  }

  ghost predicate IsPartOf(part: Tables, t: Tables) {
    && (forall u :: u in part.users ==> u in t.users && part.users[u] == t.users[u])
    && (forall s :: s in part.settings ==> s in t.settings && part.settings[s] == t.settings[s])
    && (forall m :: m in part.memos ==> m in t.memos && part.memos[m] == t.memos[m])
    && part.relations <= t.relations
    && (forall r :: r in part.reactions ==> r in t.reactions && part.reactions[r] == t.reactions[r])
    && (forall a :: a in part.attachments ==> a in t.attachments && part.attachments[a] == t.attachments[a])
    && (forall s :: s in part.shares ==> s in t.shares && part.shares[s] == t.shares[s])
    && (forall i :: i in part.inboxes ==> i in t.inboxes && part.inboxes[i] == t.inboxes[i])
  }

  lemma SameContentSameUID(a: string, b: string)
    requires ContentID(a) == ContentID(b)
    ensures a == b
  {
    assert ContentID(a)[6..] == a && ContentID(b)[6..] == b;
  }

  // Several deletions.

  /** After one user's deletion, another's tree is what is left of it. */
  lemma TreeAfterDelete(t: Tables, a: int, b: int)
    ensures Tree(AfterDelete(t, a), b) == Tree(t, b) - Tree(t, a)
  {
    var left := Tree(t, b) - Tree(t, a);
    ReachedAreClosed(t, a);
    ReachedAreClosed(t, b);
    LeftIsClosed(t, a, b);
    LeftIsNeeded(t, a, b);
    TreeIsReachability(AfterDelete(t, a), b, left);
  }

  lemma LeftIsClosed(t: Tables, a: int, b: int)
    ensures Closed(AfterDelete(t, a), b, Tree(t, b) - Tree(t, a))
  {
    var after := AfterDelete(t, a);
    var left := Tree(t, b) - Tree(t, a);
    ReachedAreClosed(t, b);
    hide Tree, Contents;
    forall m | IsRoot(after, b, m) ensures m in left { assert IsRoot(t, b, m); }
    forall c, p | p in left && IsCommentOn(after, c, p) ensures c in left { assert IsCommentOn(t, c, p); }
  }

  lemma LeftIsNeeded(t: Tables, a: int, b: int)
    ensures Needed(AfterDelete(t, a), b, Tree(t, b) - Tree(t, a))
  {
    var after := AfterDelete(t, a);
    ReachedAreClosed(t, a);
    ReachedAreNeeded(t, b);
    hide Tree, Contents;
    forall closed: set<int> | Closed(after, b, closed) ensures Tree(t, b) - Tree(t, a) <= closed {
      assert Closed(t, b, closed + Tree(t, a)) by {
        forall m | IsRoot(t, b, m) ensures m in closed + Tree(t, a) {
          if m !in Tree(t, a) { assert IsRoot(after, b, m); }
        }
        forall c, p | p in closed + Tree(t, a) && IsCommentOn(t, c, p) ensures c in closed + Tree(t, a) {
          if p !in Tree(t, a) && c !in Tree(t, a) { assert IsCommentOn(after, c, p); }
        }
      }
    }
  }

  lemma TouchesUnion(message: InboxMessage, a: set<int>, b: set<int>)
    ensures InboxMessageTouchesMemoSet(message, a + b) <==>
              InboxMessageTouchesMemoSet(message, a) || InboxMessageTouchesMemoSet(message, b)
  {
  }

  lemma IsOnUnion(attachment: Attachment, a: set<int>, b: set<int>)
    ensures IsOn(attachment, a + b) <==> IsOn(attachment, a) || IsOn(attachment, b - a)
  {
  }

  lemma ContentsLeft(t: Tables, users: set<int>, a: set<int>, b: set<int>)
    ensures Contents(t, a) + Contents(Left(t, users, a), b - a) == Contents(t, a + b)
  {
    hide ContentID, Concerns;
    var left := Left(t, users, a);
    forall m | m in t.memos && m in b - a ensures ContentID(t.memos[m].uid) in Contents(left, b - a) {
      assert m in left.memos && left.memos[m] == t.memos[m];
    }
  }

  lemma RowsLeft(t: Tables, users: set<int>, others: set<int>, a: set<int>, b: set<int>)
    ensures Left(Left(t, users, a), others, b - a).reactions == Left(t, users + others, a + b).reactions
    ensures Left(Left(t, users, a), others, b - a).attachments == Left(t, users + others, a + b).attachments
  {
    hide Left;
    ReactionsLeft(t, users, others, a, b);
    AttachmentsLeftTwice(t, users, others, a, b);
  }

  lemma ReactionsLeft(t: Tables, users: set<int>, others: set<int>, a: set<int>, b: set<int>)
    ensures Left(Left(t, users, a), others, b - a).reactions == Left(t, users + others, a + b).reactions
  {
    ContentsLeft(t, users, a, b);
    hide Contents, Concerns, IsOn;
  }

  lemma AttachmentsLeftTwice(t: Tables, users: set<int>, others: set<int>, a: set<int>, b: set<int>)
    ensures Left(Left(t, users, a), others, b - a).attachments == Left(t, users + others, a + b).attachments
  {
    forall attachment ensures IsOn(attachment, a + b) <==> IsOn(attachment, a) || IsOn(attachment, b - a) {
      IsOnUnion(attachment, a, b);
    }
    hide Contents, Concerns, IsOn;
  }

  lemma InboxesLeft(t: Tables, users: set<int>, others: set<int>, a: set<int>, b: set<int>)
    ensures Left(Left(t, users, a), others, b - a).inboxes == Left(t, users + others, a + b).inboxes
  {
    assert a + (b - a) == a + b;
    forall i | i in t.inboxes
      ensures Concerns(t.inboxes[i], users + others, a + b) <==>
                Concerns(t.inboxes[i], users, a) || Concerns(t.inboxes[i], others, b - a)
    {
      if t.inboxes[i].message.Encoded? {
        TouchesUnion(t.inboxes[i].message.message, a, b - a);
      }
    }
    hide Contents, Concerns;
  }

  /** Leaving out some and then others leaves out all of them. */
  lemma LeftAddsUp(t: Tables, users: set<int>, others: set<int>, a: set<int>, b: set<int>)
    ensures Left(Left(t, users, a), others, b - a) == Left(t, users + others, a + b)
  {
    RowsLeft(t, users, others, a, b);
    InboxesLeft(t, users, others, a, b);
    OwnRowsLeft(t, users, others, a, b);
    hide Left;
  }

  lemma OwnRowsLeft(t: Tables, users: set<int>, others: set<int>, a: set<int>, b: set<int>)
    ensures var after, both := Left(Left(t, users, a), others, b - a), Left(t, users + others, a + b);
            after.users == both.users && after.settings == both.settings && after.memos == both.memos &&
            after.relations == both.relations && after.shares == both.shares
  {
    hide Contents, Concerns, IsOn;
  }

  /** The order in which two users are deleted does not matter, and deleting one twice is deleting it once. */
  lemma DeletionsCommute(t: Tables, a: int, b: int)
    ensures AfterDelete(AfterDelete(t, a), b) == AfterDelete(AfterDelete(t, b), a)
    ensures AfterDelete(AfterDelete(t, a), a) == AfterDelete(t, a)
  {
    SecondDeletionAdds(t, a, b);
    SecondDeletionAdds(t, b, a);
    SecondDeletionAdds(t, a, a);
    hide Tree, Left;
    assert {a} + {b} == {b} + {a};
    assert Tree(t, a) + Tree(t, b) == Tree(t, b) + Tree(t, a);
    assert {a} + {a} == {a};
    assert Tree(t, a) + Tree(t, a) == Tree(t, a);
  }

  lemma SecondDeletionAdds(t: Tables, a: int, b: int)
    ensures AfterDelete(AfterDelete(t, a), b) == Left(t, {a} + {b}, Tree(t, a) + Tree(t, b))
  {
    TreeAfterDelete(t, a, b);
    LeftAddsUp(t, {a}, {b}, Tree(t, a), Tree(t, b));
    hide Tree, Left;
  }
}
