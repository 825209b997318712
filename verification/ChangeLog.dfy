/** The change log: one record for every command that changed a document. */
module ChangeLog {
  import opened ByteStrings
  import opened Json
  import opened Documents
  import opened Indexing

  datatype Action = Create | Set | Update | Delete

  datatype CDC = CDC(
    id: Bytes,
    collection: Bytes,
    action: Action,
    documentID: Bytes,
    diff: seq<JSONFieldOp>,
    timestamp: int,
    metadata: Json)

  /** What surrounds a command: clock readings it takes lie between `from` and `until`, and its metadata
      go into every record. */
  datatype Context = Context(from: int, until: int, metadata: Json) {
    predicate Open() {
      from < until
    }

    predicate Covers(r: CDC) {
      from <= r.timestamp < until && r.metadata == metadata
    }
  }

  // ----- the record as a document of the log collection -----

  const COLLECTION: Name := [99, 111, 108, 108, 101, 99, 116, 105, 111, 110]
  const ACTION: Name := [97, 99, 116, 105, 111, 110]
  const DOCUMENT_ID: Name := [100, 111, 99, 117, 109, 101, 110, 116, 73, 68]
  const DIFF: Name := [100, 105, 102, 102]
  const TIMESTAMP: Name := [116, 105, 109, 101, 115, 116, 97, 109, 112]
  const METADATA: Name := [109, 101, 116, 97, 100, 97, 116, 97]
  const PATH: Name := [112, 97, 116, 104]
  const OP: Name := [111, 112]
  const VALUE: Name := [118, 97, 108, 117, 101]
  const BEFORE_VALUE: Name := [98, 101, 102, 111, 114, 101, 86, 97, 108, 117, 101]

  function ActionText(a: Action): Bytes {
    match a
    case Create => [99, 114, 101, 97, 116, 101]
    case Set => [115, 101, 116]
    case Update => [117, 112, 100, 97, 116, 101]
    case Delete => [100, 101, 108, 101, 116, 101]
  }

  function OpText(o: JSONOp): Bytes {
    match o
    case Remove => [114, 101, 109, 111, 118, 101]
    case Replace => [114, 101, 112, 108, 97, 99, 101]
    case Add => [97, 100, 100]
    case Unsupported => []
  }

  /** Null values are left out of the wire format. */
  function OpJson(o: JSONFieldOp): Json {
    Obj(map[PATH := Str(FieldText(o.path)), OP := Str(OpText(o.op))]
        + (if o.value == Null then map[] else map[VALUE := o.value])
        + (if o.beforeValue == Null then map[] else map[BEFORE_VALUE := o.beforeValue]))
  }

  function CdcDocument(pk: Path, r: CDC): (d: Json)
    requires pk != []
    ensures d.Obj? && Lookup(d, pk) == Some(Str(r.id))
  {
    var body := Obj(map[
      COLLECTION := Str(r.collection),
      ACTION := Str(ActionText(r.action)),
      DOCUMENT_ID := Str(r.documentID),
      DIFF := Arr(seq(|r.diff|, i requires 0 <= i < |r.diff| => OpJson(r.diff[i]))),
      TIMESTAMP := Num(r.timestamp as real),
      METADATA := r.metadata]);
    LookupSetBelow(body, pk, Str(r.id), pk);
    SetPath(body, pk, Str(r.id))
  }
}
