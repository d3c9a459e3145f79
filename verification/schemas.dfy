/** The schema a caller hands to `xray`: a selector string, a plain object of
    named sub-schemas, or an array whose entries are selector strings or
    plain objects. */
module Schemas {
  import opened Values
  import Separators
  import SelectorPattern

  /** One schema node. The fields of an object are listed in the order
      `Object.keys` enumerates them. */
  datatype Schema =
    | Select(expr: string)
    | Fields(fields: seq<Field>)
    | Many(items: seq<Item>)

  /** One own key of a schema object and its value. `$root` is an ordinary key
      here: the interpreter treats it specially only when choosing the scope. */
  datatype Field = Field(key: string, schema: Schema)

  /** An entry of a schema array: only strings and objects are handled. */
  datatype Item = ItemSelect(expr: string) | ItemFields(fields: seq<Field>)

  /** The key that narrows the scope. */
  const RootKey: string := "$root"

  /** A selector expression that the selector pattern can match: its field
      text holds at least one character other than `[`. Any other expression
      makes the interpreter fail on a `null` match. */
  predicate ExprOk(e: string) {
    SelectorPattern.MatchSelector(Separators.FieldText(e)).Some?
  }

  /** `o[k]` on a schema object. */
  function FieldLookup(fs: seq<Field>, k: string): (r: Option<Schema>)
    ensures r.None? <==> forall i :: 0 <= i < |fs| ==> fs[i].key != k
    ensures r.Some? ==> exists i :: 0 <= i < |fs| && fs[i].key == k && fs[i].schema == r.value
  {
    if |fs| == 0 then None
    else if fs[0].key == k then Some(fs[0].schema)
    else FieldLookup(fs[1..], k)
  }

  /** The own keys of an object are distinct: no key occurs again later. */
  predicate KeysDistinct(fs: seq<Field>)
    decreases |fs|
  {
    |fs| == 0 || (FieldLookup(fs[1..], fs[0].key).None? && KeysDistinct(fs[1..]))
  }

  /** Distinct keys, stated by position. */
  lemma {:induction false} KeysDistinctAt(fs: seq<Field>, i: nat, j: nat)
    requires KeysDistinct(fs) && i < j < |fs|
    ensures fs[i].key != fs[j].key
    decreases i
  {
    if i == 0 {
      assert fs[1..][j - 1] == fs[j];
    } else {
      KeysDistinctAt(fs[1..], i - 1, j - 1);
    }
  }

  /** `obj.$root` as a scope selector: present and truthy. The raw string is
      what narrows the scope; it is not parsed. */
  function RootSelector(fs: seq<Field>): (r: Option<string>)
    ensures r.Some? ==> |r.value| > 0 && FieldLookup(fs, RootKey) == Some(Select(r.value))
    ensures r.None? ==> match FieldLookup(fs, RootKey)
                         case None => true
                         case Some(s) => s == Select("") || !s.Select?
  {
    match FieldLookup(fs, RootKey)
    case Some(Select(e)) => if |e| > 0 then Some(e) else None
    case _ => None
  }

  /** With distinct keys, the `$root` field at position `j` is what `obj.$root`
      reads, so it alone decides whether the scope narrows. */
  lemma RootSelectorAt(fs: seq<Field>, j: nat)
    requires KeysDistinct(fs) && j < |fs| && fs[j].key == RootKey
    ensures FieldLookup(fs, RootKey) == Some(fs[j].schema)
    ensures RootSelector(fs) == if fs[j].schema.Select? && |fs[j].schema.expr| > 0
                                then Some(fs[j].schema.expr) else None
  {
    var i :| 0 <= i < |fs| && fs[i].key == RootKey && fs[i].schema == FieldLookup(fs, RootKey).value;
    if i < j {
      KeysDistinctAt(fs, i, j);
    } else if j < i {
      KeysDistinctAt(fs, j, i);
    }
  }

  /** A schema the interpreter can run: every selector expression can be
      matched, and `$root`, when present, is a selector string. (Keys of a
      JavaScript object are distinct anyway; the lemmas that read an object
      back by key ask for `KeysDistinct` themselves.) */
  predicate SchemaOk(s: Schema)
    decreases s, 1
  {
    match s
    case Select(e) => ExprOk(e)
    case Fields(fs) => FieldsOk(fs)
    case Many(items) => forall i :: 0 <= i < |items| ==> ItemOk(items[i])
  }

  predicate ItemOk(it: Item)
    decreases it, 1
  {
    match it
    case ItemSelect(e) => ExprOk(e)
    case ItemFields(fs) => FieldsOk(fs)
  }

  predicate FieldsOk(fs: seq<Field>)
    decreases fs, 0
  {
    && (FieldLookup(fs, RootKey).Some? ==> FieldLookup(fs, RootKey).value.Select?)
    && forall i :: 0 <= i < |fs| ==> SchemaOk(fs[i].schema)
  }
}
