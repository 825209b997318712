/** Where clauses evaluated against a document. */
module Filter {
  import opened ByteStrings
  import opened Json
  import opened Schemas

  datatype WhereOp = Eq | Neq | Lt | Lte | Gt | Gte | In

  datatype Where = Where(field: Path, op: WhereOp, value: Json)

  /** A string that starts with a dollar sign names another field of the same document. */
  predicate IsSelf(v: Json) {
    v.Str? && v.s != [] && v.s[0] == DOLLAR
  }

  /** cast.ToFloat64 on parsed JSON. Strings that spell a number are not parsed here. */
  function ToFloat(v: Json): real {
    match v
    case Num(n) => n
    case Bool(b) => if b then 1.0 else 0.0
    case _ => 0.0
  }

  function Operand(w: Where, doc: Json): Json {
    if IsSelf(w.value) then Get(doc, SplitDots(w.value.s[1..])) else w.value
  }

  function Elements(v: Json): seq<Json> {
    match v
    case Arr(items) => items
    case Null => []
    case _ => [v]
  }

  /** Whether the document passes one clause. Equality with the text "null" never holds: the text is
      not the null value, and where the field is that text the extra test rejects it. */
  predicate ClauseHolds(w: Where, doc: Json) {
    var have, want := Get(doc, w.field), Operand(w, doc);
    match w.op
    case Eq => want == have && !(w.value == Str(NULL_TEXT) && have != Null)
    case Neq => want != have && !(w.value == Str(NULL_TEXT) && have == Null)
    case Lt => ToFloat(have) < ToFloat(want)
    case Lte => ToFloat(have) <= ToFloat(want)
    case Gt => ToFloat(have) > ToFloat(want)
    case Gte => ToFloat(have) >= ToFloat(want)
    case In => have in Elements(w.value)
  }

  predicate Matches(wheres: seq<Where>, doc: Json) {
    forall i :: 0 <= i < |wheres| ==> ClauseHolds(wheres[i], doc)
  }

  /** Document.Where: the clauses are tried in order, the first that fails decides. */
  method Passes(wheres: seq<Where>, doc: Json) returns (pass: bool)
    ensures pass == Matches(wheres, doc)
  {
    for i := 0 to |wheres|
      invariant forall k :: 0 <= k < i ==> ClauseHolds(wheres[k], doc)
    {
      var w := wheres[i];
      var have, want := Get(doc, w.field), Operand(w, doc);
      match w.op {
        case Eq =>
          if want != have || (w.value == Str(NULL_TEXT) && have != Null) { return false; }
        case Neq =>
          if want == have || (w.value == Str(NULL_TEXT) && have == Null) { return false; }
        case Lt =>
          if ToFloat(have) >= ToFloat(want) { return false; }
        case Lte =>
          if ToFloat(have) > ToFloat(want) { return false; }
        case Gt =>
          if ToFloat(have) <= ToFloat(want) { return false; }
        case Gte =>
          if ToFloat(have) < ToFloat(want) { return false; }
        case In =>
          var elements, match' := Elements(w.value), false;
          for k := 0 to |elements|
            invariant match' <==> have in elements[..k]
          {
            if elements[k] == have { match' := true; }
          }
          assert elements[..|elements|] == elements;
          if !match' { return false; }
      }
    }
    return true;
  }

  /** An equality clause on a plain scalar pins the field to that value; on "null" it pins nothing,
      it is never met. */
  lemma EqPins(w: Where, doc: Json)
    requires w.op.Eq? && !IsSelf(w.value) && w.value != Null && ClauseHolds(w, doc)
    ensures Lookup(doc, w.field) == Some(w.value) && w.value != Str(NULL_TEXT)
  {
  }

  // ----- what the operators mean -----

  lemma OneClause(w: Where, doc: Json)
    ensures Matches([w], doc) <==> ClauseHolds(w, doc)
  {
    hide ClauseHolds;
    assert [w][0] == w;
  }

  /** A document passes when it passes every clause by itself. */
  lemma MatchesEach(wheres: seq<Where>, doc: Json)
    ensures Matches(wheres, doc) <==> forall k :: 0 <= k < |wheres| ==> Matches([wheres[k]], doc)
  {
    hide ClauseHolds;
    forall k | 0 <= k < |wheres| ensures Matches([wheres[k]], doc) <==> ClauseHolds(wheres[k], doc) {
      OneClause(wheres[k], doc);
    }
  }

  /** What a value is in a comparison with a number. */
  function CountsAs(v: Json): real {
    if v.Num? then v.n else if v == Bool(true) then 1.0 else 0.0
  }

  /** The four comparisons with this operand are those of the two numbers. */
  ghost predicate Compares(field: Path, value: Json, doc: Json, x: real, y: real) {
    && (Matches([Where(field, Lt, value)], doc) <==> x < y)
    && (Matches([Where(field, Lte, value)], doc) <==> x <= y)
    && (Matches([Where(field, Gt, value)], doc) <==> x > y)
    && (Matches([Where(field, Gte, value)], doc) <==> x >= y)
  }

  /** A clause with an operand that is no reference to another field. Anything but a number counts as zero
      in a comparison, except that true counts as one. */
  lemma OperatorMeans(field: Path, value: Json, doc: Json)
    requires value.Str? ==> value.s == [] || value.s[0] != DOLLAR
    ensures value != Str(NULL_TEXT) ==>
      && (Matches([Where(field, Eq, value)], doc) <==> Get(doc, field) == value)
      && (Matches([Where(field, Neq, value)], doc) <==> Get(doc, field) != value)
    ensures value == Str(NULL_TEXT) ==>
      && !Matches([Where(field, Eq, value)], doc)
      && (Matches([Where(field, Neq, value)], doc) <==> Get(doc, field) != value && Get(doc, field) != Null)
    ensures value.Num? ==> Compares(field, value, doc, CountsAs(Get(doc, field)), value.n)
    ensures value.Arr? ==>
      (Matches([Where(field, In, value)], doc) <==>
        exists k :: 0 <= k < |value.items| && value.items[k] == Get(doc, field))
    ensures !value.Arr? ==> (Matches([Where(field, In, value)], doc) <==> Get(doc, field) == value && value != Null)
  {
    hide Get, Matches;
    forall op ensures Matches([Where(field, op, value)], doc) <==> ClauseHolds(Where(field, op, value), doc) {
      OneClause(Where(field, op, value), doc);
    }
  }

  /** A text that begins with a dollar sign stands for the field that it names. */
  lemma SelfOperatorMeans(field: Path, other: Path, doc: Json)
    requires DotFree(other)
    ensures var value := Str([DOLLAR] + JoinDots(other));
      && (Matches([Where(field, Eq, value)], doc) <==> Get(doc, field) == Get(doc, other))
      && (Matches([Where(field, Neq, value)], doc) <==> Get(doc, field) != Get(doc, other))
      && Compares(field, value, doc, CountsAs(Get(doc, field)), CountsAs(Get(doc, other)))
  {
    SplitOfJoined(other);
    hide Get, JoinDots, SplitDots, Matches;
    var value := Str([DOLLAR] + JoinDots(other));
    assert value.s[1..] == JoinDots(other) && value.s[0] == DOLLAR != NULL_TEXT[0];
    forall op ensures Matches([Where(field, op, value)], doc) <==> ClauseHolds(Where(field, op, value), doc) {
      OneClause(Where(field, op, value), doc);
    }
  }
}
