/**
 * The two helpers that make database rows fit for a JSON response:
 * `make_json_serializable`, which walks dicts and lists and turns uuid,
 * decimal, date and datetime leaves into text, and
 * `make_json_serializable2`, which turns the bytes and tuple values of one
 * row into their `str()` text.
 */
module JsonSerialize {
  import opened PyValue

  /**
   * Nothing left for `make_json_serializable` to convert: no uuid, decimal,
   * date or datetime object inside a dict or a list. Tuples, sets, bytes
   * and other objects are not looked into.
   */
  predicate Plain(v: Value) {
    match v
    case Uuid(_) => false
    case Decimal(_) => false
    case Date(_) => false
    case DateTime(_) => false
    case List(xs) => forall i :: 0 <= i < |xs| ==> Plain(xs[i])
    case Dict(es) => forall i :: 0 <= i < |es| ==> Plain(es[i].1)
    case _ => true
  }

  /** `make_json_serializable` */
  function MakeJsonSerializable(v: Value): (r: Value)
    ensures Plain(r)
    ensures v.Dict? ==> r.Dict? && Keys(r.entries) == Keys(v.entries)
    ensures v.Dict? ==> forall i :: 0 <= i < |v.entries| ==>
      r.entries[i] == (v.entries[i].0, MakeJsonSerializable(v.entries[i].1))
    ensures v.List? ==> r.List? && |r.items| == |v.items|
    ensures v.List? ==> forall i :: 0 <= i < |v.items| ==> r.items[i] == MakeJsonSerializable(v.items[i])
    ensures (v.Uuid? || v.Decimal?) ==> r == Str(v.text)
    ensures (v.Date? || v.DateTime?) ==> r == Str(v.iso)
    ensures !(v.Dict? || v.List? || v.Uuid? || v.Decimal? || v.Date? || v.DateTime?) ==> r == v
    decreases v
  {
    match v
    case Dict(es) =>
      Dict(seq(|es|, i requires 0 <= i < |es| => (es[i].0, MakeJsonSerializable(es[i].1))))
    case List(xs) =>
      List(seq(|xs|, i requires 0 <= i < |xs| => MakeJsonSerializable(xs[i])))
    case Uuid(t) => Str(t)
    case Decimal(t) => Str(t)
    case Date(iso) => Str(iso)
    case DateTime(iso) => Str(iso)
    case _ => v
  }

  /** A value with nothing to convert comes back as it went in. */
  lemma {:induction false} PlainUnchanged(v: Value)
    requires Plain(v)
    ensures MakeJsonSerializable(v) == v
    decreases v
  {
    match v
    case Dict(es) =>
      forall i | 0 <= i < |es| ensures MakeJsonSerializable(es[i].1) == es[i].1 {
        PlainUnchanged(es[i].1);
      }
      assert MakeJsonSerializable(v).entries == es;
    case List(xs) =>
      forall i | 0 <= i < |xs| ensures MakeJsonSerializable(xs[i]) == xs[i] {
        PlainUnchanged(xs[i]);
      }
      assert MakeJsonSerializable(v).items == xs;
    case _ =>
  }

  /** Converting twice is converting once. */
  lemma Idempotent(v: Value)
    ensures MakeJsonSerializable(MakeJsonSerializable(v)) == MakeJsonSerializable(v)
  {
    PlainUnchanged(MakeJsonSerializable(v));
  }

  /** No bytes or tuple value left at the top level of a row. */
  predicate RowPlain(row: Row) {
    forall i :: 0 <= i < |row| ==> !row[i].1.Bytes? && !row[i].1.Tuple?
  }

  /**
   * `make_json_serializable2`: `str` stands for Python's `str()` of a bytes
   * or tuple value. Values are not descended into.
   */
  function MakeJsonSerializable2(row: Row, str: Value -> string): (r: Row)
    ensures Keys(r) == Keys(row)
    ensures RowPlain(r)
    ensures forall i :: 0 <= i < |row| && (row[i].1.Bytes? || row[i].1.Tuple?) ==> r[i] == (row[i].0, Str(str(row[i].1)))
    ensures forall i :: 0 <= i < |row| && !row[i].1.Bytes? && !row[i].1.Tuple? ==> r[i] == row[i]
  {
    seq(|row|, i requires 0 <= i < |row| =>
      (row[i].0, if row[i].1.Bytes? || row[i].1.Tuple? then Str(str(row[i].1)) else row[i].1))
  }

  /** A row without bytes or tuples comes back as it went in. */
  lemma PlainRowUnchanged(row: Row, str: Value -> string)
    requires RowPlain(row)
    ensures MakeJsonSerializable2(row, str) == row
  {
  }

  lemma Idempotent2(row: Row, str: Value -> string)
    ensures MakeJsonSerializable2(MakeJsonSerializable2(row, str), str) == MakeJsonSerializable2(row, str)
  {
    PlainRowUnchanged(MakeJsonSerializable2(row, str), str);
  }
}
