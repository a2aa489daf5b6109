/** The condition tree and the field schema of the filter compiler (internal/filter/ir.go, schema.go). */
module FilterIr {
  import opened Sql
  import opened Wrappers

  datatype LogicalOperator = LogicalAnd | LogicalOr

  datatype ValueExpr =
    | FieldRef(name: string)
    | Literal(value: Value)
    | FunctionValue(fn: string, args: seq<ValueExpr>)

  /** The predicates allowed inside `tags.exists(t, ...)`. */
  datatype TagPredicate = Equals(text: string) | StartsWith(text: string) | EndsWith(text: string) |
      ContainsText(text: string)

  datatype Condition =
    | Logical(operator: LogicalOperator, left: Condition, right: Condition)
    | Negation(expr: Condition)
    | FieldPredicate(field: string)
    | Comparison(lhs: ValueExpr, op: CompareOp, rhs: ValueExpr)
    | In(lhs: ValueExpr, values: seq<ValueExpr>)
    | ElementIn(element: ValueExpr, field: string)
    | Contains(field: string, text: string)
    | ListComprehension(field: string, test: TagPredicate)
    | Constant(value: bool)

  datatype FieldKind = Scalar | BoolColumn | JsonBool | JsonList | Attachment | VirtualAlias

  datatype FieldType = StringType | IntType | BoolType | TimestampType

  datatype Field = Field(name: string, kind: FieldKind, ty: FieldType, aliasFor: string, mimePrefix: string,
                         supportsContains: bool, allowedOps: Option<set<CompareOp>>)

  /** Fields by name; the entry for a name carries that name. */
  type Schema = s: map<string, Field> | forall n :: n in s ==> s[n].name == n witness map[]

  function ResolveAlias(schema: Schema, name: string): Option<Field> {
    if name !in schema then None
    else if schema[name].kind == VirtualAlias then
      if schema[name].aliasFor in schema then Some(schema[schema[name].aliasFor]) else None
    else Some(schema[name])
  }

  function Plain(name: string, kind: FieldKind, ty: FieldType): Field {
    Field(name, kind, ty, "", "", false, None)
  }

  const EQUALITY: Option<set<CompareOp>> := Some({Eq, Neq})

  /** A schema of the given fields; of two with one name the first counts. */
  function SchemaOf(fields: seq<Field>): Schema {
    if fields == [] then map[] else SchemaOf(fields[1..])[fields[0].name := fields[0]]
  }

  function MemoColumns(): seq<Field> {
    [
      Plain("visibility", Scalar, StringType).(allowedOps := EQUALITY),
      Plain("creator_id", Scalar, IntType).(allowedOps := EQUALITY),
      Plain("content", Scalar, StringType).(supportsContains := true),
      Plain("creator", Scalar, StringType).(allowedOps := EQUALITY),
      Plain("created_ts", Scalar, TimestampType),
      Plain("updated_ts", Scalar, TimestampType),
      Plain("pinned", BoolColumn, BoolType).(allowedOps := EQUALITY)
    ]
  }

  function MemoLists(): seq<Field> {
    [
      Plain("tags", JsonList, StringType),
      Plain("tag", VirtualAlias, StringType).(aliasFor := "tags")
    ]
  }

  function MemoFlags(): seq<Field> {
    [
      Plain("has_task_list", JsonBool, BoolType).(allowedOps := EQUALITY),
      Plain("has_link", JsonBool, BoolType).(allowedOps := EQUALITY),
      Plain("has_code", JsonBool, BoolType).(allowedOps := EQUALITY),
      Plain("has_incomplete_tasks", JsonBool, BoolType).(allowedOps := EQUALITY)
    ]
  }

  function MemoAttachments(): seq<Field> {
    [
      Plain("has_attachment", Attachment, BoolType),
      Plain("has_image", Attachment, BoolType).(mimePrefix := "image/"),
      Plain("has_audio", Attachment, BoolType).(mimePrefix := "audio/"),
      Plain("has_video", Attachment, BoolType).(mimePrefix := "video/")
    ]
  }

  /** The fields of memo filters. */
  function MemoFields(): seq<Field> { MemoColumns() + MemoLists() + MemoFlags() + MemoAttachments() }

  function MemoSchema(): Schema { SchemaOf(MemoFields()) }

  /** A field is found under its name if none before it has that name. */
  lemma {:induction false} FieldIsFound(fields: seq<Field>, i: nat)
    requires i < |fields| && forall j :: 0 <= j < i ==> fields[j].name != fields[i].name
    ensures fields[i].name in SchemaOf(fields) && SchemaOf(fields)[fields[i].name] == fields[i]
  {
    if i == 0 {
    } else {
      FieldIsFound(fields[1..], i - 1);
    }
  }

  const MEMO_NAMES := ["visibility", "creator_id", "content", "creator", "created_ts", "updated_ts", "pinned", "tags",
                       "tag", "has_task_list", "has_link", "has_code", "has_incomplete_tasks", "has_attachment",
                       "has_image", "has_audio", "has_video"]

  lemma MemoNames()
    ensures |MemoFields()| == |MEMO_NAMES| == 17
    ensures forall i :: 0 <= i < 17 ==> MemoFields()[i].name == MEMO_NAMES[i]
  {
  }

  lemma ColumnNamesDiffer()
    ensures forall i, j :: 0 <= j < i < 7 ==> MEMO_NAMES[j] != MEMO_NAMES[i]
    ensures forall i :: 0 <= i < 7 ==> MEMO_NAMES[i][0] != 't' && MEMO_NAMES[i][0] != 'h'
  {
  }

  lemma OtherNamesDiffer()
    ensures forall i, j :: 7 <= j < i < 17 ==> MEMO_NAMES[j] != MEMO_NAMES[i]
    ensures forall i :: 7 <= i < 17 ==> MEMO_NAMES[i][0] == 't' || MEMO_NAMES[i][0] == 'h'
  {
  }

  /** No two fields of memo filters have one name. */
  lemma MemoNamesDiffer()
    ensures forall i, j :: 0 <= j < i < |MemoFields()| ==> MemoFields()[j].name != MemoFields()[i].name
  {
    hide MemoFields;
    MemoNames();
    ColumnNamesDiffer();
    OtherNamesDiffer();
    forall i, j | 0 <= j < 7 <= i < 17 ensures MEMO_NAMES[j] != MEMO_NAMES[i] {
      assert MEMO_NAMES[j][0] != MEMO_NAMES[i][0];
    }
  }

  /** The fields of memo filters, looked up: columns first, then what the payload and the attachments hold. */
  lemma MemoColumnsInLiterals()
    ensures var s := MemoSchema();
            && "visibility" in s && s["visibility"] == Field("visibility", Scalar, StringType, "", "", false, EQUALITY)
            && "creator_id" in s && s["creator_id"] == Field("creator_id", Scalar, IntType, "", "", false, EQUALITY)
            && "content" in s && s["content"] == Field("content", Scalar, StringType, "", "", true, None)
            && "creator" in s && s["creator"] == Field("creator", Scalar, StringType, "", "", false, EQUALITY)
            && "created_ts" in s && s["created_ts"] == Field("created_ts", Scalar, TimestampType, "", "", false, None)
            && "updated_ts" in s && s["updated_ts"] == Field("updated_ts", Scalar, TimestampType, "", "", false, None)
            && "pinned" in s && s["pinned"] == Field("pinned", BoolColumn, BoolType, "", "", false, EQUALITY)
  {
    var fields := MemoFields();
    MemoNamesDiffer();
    hide SchemaOf;
    FieldIsFound(fields, 0);
    FieldIsFound(fields, 1);
    FieldIsFound(fields, 2);
    FieldIsFound(fields, 3);
    FieldIsFound(fields, 4);
    FieldIsFound(fields, 5);
    FieldIsFound(fields, 6);
  }

  lemma MemoPayloadInLiterals()
    ensures var s := MemoSchema();
            && "tags" in s && s["tags"] == Field("tags", JsonList, StringType, "", "", false, None)
            && "tag" in s && s["tag"] == Field("tag", VirtualAlias, StringType, "tags", "", false, None)
            && ResolveAlias(s, "tag") == Some(s["tags"])
            && (forall f :: f in ["has_task_list", "has_link", "has_code", "has_incomplete_tasks"] ==>
                  f in s && s[f] == Field(f, JsonBool, BoolType, "", "", false, EQUALITY))
  {
    var fields := MemoFields();
    MemoNamesDiffer();
    hide SchemaOf;
    FieldIsFound(fields, 7);
    FieldIsFound(fields, 8);
    FieldIsFound(fields, 9);
    FieldIsFound(fields, 10);
    FieldIsFound(fields, 11);
    FieldIsFound(fields, 12);
  }

  /** The attachment flags, told apart by the start of the attachment's type. */
  lemma MemoAttachmentsInLiterals()
    ensures var s := MemoSchema();
            && "has_attachment" in s && s["has_attachment"] ==
                 Field("has_attachment", Attachment, BoolType, "", "", false, None)
            && "has_image" in s && s["has_image"] == Field("has_image", Attachment, BoolType, "", "image/", false, None)
            && "has_audio" in s && s["has_audio"] == Field("has_audio", Attachment, BoolType, "", "audio/", false, None)
            && "has_video" in s && s["has_video"] == Field("has_video", Attachment, BoolType, "", "video/", false, None)
  {
    var fields := MemoFields();
    MemoNamesDiffer();
    hide SchemaOf;
    FieldIsFound(fields, 13);
    FieldIsFound(fields, 14);
    FieldIsFound(fields, 15);
    FieldIsFound(fields, 16);
  }

  /** A schema has only the fields it was made of. */
  lemma {:induction false} SchemaHoldsFields(fields: seq<Field>)
    ensures forall n :: n in SchemaOf(fields) ==> SchemaOf(fields)[n] in fields
  {
    if fields == [] {
    } else {
      SchemaHoldsFields(fields[1..]);
      assert forall f :: f in fields[1..] ==> f in fields;
    }
  }
}
