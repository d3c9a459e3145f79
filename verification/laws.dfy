/** Properties of the interpreter that relate several calls, or a call to an
    independent description of what it computes. */
module Laws {
  import opened Values
  import opened Schemas
  import Separators
  import SelectorPattern
  import Filters
  import opened Interpreter

  // ---------------------------------------------------------------------
  // Helpers: subsequences

  /** `a` is `b` with some elements left out, the rest kept in order. */
  ghost predicate Subseq<T>(a: seq<T>, b: seq<T>)
    decreases |b|
  {
    |a| == 0 || (|b| > 0 && ((a[0] == b[0] && Subseq(a[1..], b[1..])) || Subseq(a, b[1..])))
  }

  lemma SubseqKeep<T>(x: T, a: seq<T>, b: seq<T>)
    requires Subseq(a, b)
    ensures Subseq([x] + a, [x] + b)
  {
    assert ([x] + a)[1..] == a;
    assert ([x] + b)[1..] == b;
  }

  lemma SubseqSkip<T>(x: T, a: seq<T>, b: seq<T>)
    requires Subseq(a, b)
    ensures Subseq(a, [x] + b)
  {
    assert ([x] + b)[1..] == b;
  }

  // ---------------------------------------------------------------------
  // Selector expressions

  /** An expression without filters, written as a selector with an optional
      bracketed attribute, parses back to that selector and attribute; its
      filter list is whatever the tokenizer makes of the empty filter text. */
  lemma ParseSelectorText(cfg: Config, sel: string, attribute: Option<string>)
    requires |sel| > 0 && '[' !in sel && '|' !in sel
    requires attribute.Some? ==>
      |attribute.value| > 0 && '[' !in attribute.value && '|' !in attribute.value
    ensures ExprOk(SelectorPattern.SelectorText(sel, attribute))
    ensures var m := Parse(cfg, SelectorPattern.SelectorText(sel, attribute));
      && m.selector == sel
      && m.attribute == attribute
      && m.formatters == Filters.Resolve(cfg.filters, cfg.tokenize(""))
  {
    var t := SelectorPattern.SelectorText(sel, attribute);
    assert '|' !in t by {
      if attribute.Some? {
        assert t == sel + "[" + attribute.value + "]";
        forall i | 0 <= i < |t| ensures t[i] != '|' {
          if i < |sel| {
            assert t[i] == sel[i];
          } else if |sel| < i < |sel| + 1 + |attribute.value| {
            assert t[i] == attribute.value[i - |sel| - 1];
          }
        }
      }
    }
    Separators.NoBarIsAllField(t);
    SelectorPattern.MatchSelectorText(sel, attribute);
  }

  // ---------------------------------------------------------------------
  // String schemas

  /** A string schema yields the first rendered match, and `undefined` when
      nothing matches. */
  lemma SelectFirstMatch(cfg: Config, e: string, root: seq<Element>)
    requires ExprOk(e)
    ensures var els := Matches(cfg, root, e);
      Resolve(cfg, Select(e), root)
        == if |els| == 0 then Undef else Render(cfg, els[0], Parse(cfg, e))
  {
  }

  /** An array holding one string yields one value per element matched under
      the first scope element, in document order, none filtered out (an
      absent attribute stays `undefined`), and `[]` when nothing matches. */
  lemma ManyOfSelect(cfg: Config, e: string, root: seq<Element>)
    requires ExprOk(e)
    ensures var els := Matches(cfg, Eq0(root), e);
      var r := Resolve(cfg, Many([ItemSelect(e)]), root);
      && r.List?
      && |r.items| == |els|
      && (forall i :: 0 <= i < |els| ==> r.items[i] == Render(cfg, els[i], Parse(cfg, e)))
  {
    var items := [ItemSelect(e)];
    var steps := Steps(cfg, items, root);
    var vs := FindAll(cfg, Eq0(root), e);
    assert steps[0] == Append(vs);
    assert Reduce(steps, 1) == vs by {
      assert Reduce(steps, 0) == [];
      assert [] + vs == vs;
    }
    assert Resolve(cfg, Many(items), root) == List(vs);
  }

  // ---------------------------------------------------------------------
  // Arrays: the fold of `collection`

  /** Index of the last replacing step among the first `n`. */
  ghost function LastReplace(steps: seq<Step>, n: nat): (r: Option<nat>)
    requires n <= |steps|
    ensures r.Some? ==> r.value < n && steps[r.value].Replace?
    ensures r.Some? ==> forall i :: r.value < i < n ==> steps[i].Append?
    ensures r.None? ==> forall i :: 0 <= i < n ==> steps[i].Append?
  {
    if n == 0 then None
    else if steps[n - 1].Replace? then Some(n - 1)
    else LastReplace(steps, n - 1)
  }

  /** The values of the appending steps in `[lo, n)`, concatenated in order. */
  ghost function Appended(steps: seq<Step>, lo: nat, n: nat): seq<Value>
    requires lo <= n <= |steps|
    decreases n - lo
  {
    if n == lo then []
    else Appended(steps, lo, n - 1) + (if steps[n - 1].Append? then steps[n - 1].values else [])
  }

  /** The fold described without folding: the values of the last replacing
      step, followed by those of every appending step after it; with no
      replacing step, the values of all the steps. */
  ghost function Described(steps: seq<Step>, n: nat): seq<Value>
    requires n <= |steps|
  {
    match LastReplace(steps, n)
    case None => Appended(steps, 0, n)
    case Some(k) => steps[k].values + Appended(steps, k + 1, n)
  }

  /** `l == h + s` and `s == m + t` give `l == (h + m) + t`. */
  lemma Reassociate<T>(l: seq<T>, l1: seq<T>, h: seq<T>, m: seq<T>, s: seq<T>, t: seq<T>)
    requires l1 == h + m && l == h + s && s == m + t
    ensures l == l1 + t
  {
  }

  /** An appending step extends the description by its values. */
  lemma DescribedAppend(steps: seq<Step>, n: nat)
    requires 0 < n <= |steps| && steps[n - 1].Append?
    ensures Described(steps, n) == Described(steps, n - 1) + steps[n - 1].values
  {
    var vs := steps[n - 1].values;
    assert Appended(steps, 0, n) == Appended(steps, 0, n - 1) + vs;
    match LastReplace(steps, n - 1)
    case None =>
    case Some(k) =>
      assert Appended(steps, k + 1, n) == Appended(steps, k + 1, n - 1) + vs;
      Reassociate(Described(steps, n), Described(steps, n - 1), steps[k].values,
                  Appended(steps, k + 1, n - 1), Appended(steps, k + 1, n), vs);
  }

  /** `reduce(collection, [])` agrees with its description, for every prefix
      of the steps. */
  lemma {:induction false} ReduceDescribed(steps: seq<Step>, n: nat)
    requires n <= |steps|
    ensures Reduce(steps, n) == Described(steps, n)
  {
    if n > 0 {
      if steps[n - 1].Replace? {
        assert Described(steps, n) == steps[n - 1].values + [];
      } else {
        ReduceDescribed(steps, n - 1);
        DescribedAppend(steps, n);
      }
    }
  }

  /** `obj.reduce(collection, [])` is the records of the last object entry
      (what came before it is discarded), followed by the matches of every
      later string entry in order; with no object entry, the matches of all
      the string entries. */
  lemma CollectLastObjectThenStrings(cfg: Config, items: seq<Item>, root: seq<Element>)
    requires forall i :: 0 <= i < |items| ==> ItemOk(items[i])
    ensures Resolve(cfg, Many(items), root) == List(Described(Steps(cfg, items, root), |items|))
  {
    ReduceDescribed(Steps(cfg, items, root), |items|);
  }

  // ---------------------------------------------------------------------
  // Keeping the truthy candidates

  /** An entry is kept exactly when it is a candidate with a truthy value. */
  lemma {:induction false} KeepTruthyMembers(ps: seq<(string, Value)>, e: (string, Value))
    ensures e in KeepTruthy(ps) <==> e in ps && Truthy(e.1)
    decreases |ps|
  {
    if |ps| > 0 {
      KeepTruthyMembers(ps[1..], e);
      assert ps == [ps[0]] + ps[1..];
    }
  }

  /** The kept entries keep their order: they are a subsequence of the
      candidates. */
  lemma {:induction false} KeepTruthyOrder(ps: seq<(string, Value)>)
    ensures Subseq(KeepTruthy(ps), ps)
    decreases |ps|
  {
    if |ps| > 0 {
      KeepTruthyOrder(ps[1..]);
      assert [ps[0]] + ps[1..] == ps;
      if Truthy(ps[0].1) {
        SubseqKeep(ps[0], KeepTruthy(ps[1..]), ps[1..]);
      } else {
        SubseqSkip(ps[0], KeepTruthy(ps[1..]), ps[1..]);
      }
    }
  }

  /** With every value truthy nothing is dropped. */
  lemma {:induction false} KeepTruthyAll(ps: seq<(string, Value)>)
    requires forall j :: 0 <= j < |ps| ==> Truthy(ps[j].1)
    ensures KeepTruthy(ps) == ps
    decreases |ps|
  {
    if |ps| > 0 {
      KeepTruthyAll(ps[1..]);
      assert [ps[0]] + ps[1..] == ps;
    }
  }

  /** With no value truthy nothing is kept. */
  lemma {:induction false} KeepTruthyNone(ps: seq<(string, Value)>)
    requires forall j :: 0 <= j < |ps| ==> !Truthy(ps[j].1)
    ensures KeepTruthy(ps) == []
    decreases |ps|
  {
    if |ps| > 0 {
      KeepTruthyNone(ps[1..]);
    }
  }

  /** A key no candidate carries is absent from the kept entries. */
  lemma LookupKeepTruthyAbsent(ps: seq<(string, Value)>, k: string)
    requires forall i :: 0 <= i < |ps| ==> ps[i].0 != k
    ensures Lookup(KeepTruthy(ps), k) == None
  {
    var r := KeepTruthy(ps);
    forall j | 0 <= j < |r| ensures r[j].0 != k {
      KeepTruthyMembers(ps, r[j]);
    }
  }

  /** A key only candidate `j` carries reads back as that candidate's value
      when it is truthy, and is absent otherwise. */
  lemma {:induction false} LookupKeepTruthyUnique(ps: seq<(string, Value)>, k: string, j: nat)
    requires j < |ps| && ps[j].0 == k
    requires forall i :: 0 <= i < |ps| && i != j ==> ps[i].0 != k
    ensures Lookup(KeepTruthy(ps), k) == if Truthy(ps[j].1) then Some(ps[j].1) else None
    decreases |ps|
  {
    var tail := ps[1..];
    var rest := KeepTruthy(tail);
    if j == 0 {
      LookupKeepTruthyAbsent(tail, k);
    } else {
      LookupKeepTruthyUnique(tail, k, j - 1);
    }
    if Truthy(ps[0].1) {
      assert ([ps[0]] + rest)[1..] == rest;
    }
  }

  // ---------------------------------------------------------------------
  // Objects: `fill`

  /** The entries of `out` are, in declaration order, the keys whose found
      value is truthy, each with that value. */
  lemma FillKeysContents(cfg: Config, fs: seq<Field>, parent: seq<Element>)
    requires FieldsOk(fs)
    ensures var ps := Candidates(cfg, fs, parent);
      && Subseq(FillKeys(cfg, fs, parent), ps)
      && forall e :: e in FillKeys(cfg, fs, parent) <==> e in ps && Truthy(e.1)
  {
    var ps := Candidates(cfg, fs, parent);
    KeepTruthyOrder(ps);
    forall e ensures e in FillKeys(cfg, fs, parent) <==> e in ps && Truthy(e.1) {
      KeepTruthyMembers(ps, e);
    }
  }

  /** Key presence in a filled object: a key without a field is absent; the
      key of field `j` is present exactly when the value found for it is
      truthy, and then holds that value. */
  lemma FillKeysLookup(cfg: Config, fs: seq<Field>, parent: seq<Element>, k: string)
    requires FieldsOk(fs) && KeysDistinct(fs)
    ensures (forall j :: 0 <= j < |fs| ==> fs[j].key != k) ==>
              Lookup(FillKeys(cfg, fs, parent), k) == None
    ensures forall j :: 0 <= j < |fs| && fs[j].key == k ==>
              Lookup(FillKeys(cfg, fs, parent), k) ==
                (if Truthy(Found(cfg, fs, j, parent)) then Some(Found(cfg, fs, j, parent)) else None)
  {
    var ps := Candidates(cfg, fs, parent);
    if forall j :: 0 <= j < |fs| ==> fs[j].key != k {
      LookupKeepTruthyAbsent(ps, k);
    }
    forall j | 0 <= j < |fs| && fs[j].key == k
      ensures Lookup(FillKeys(cfg, fs, parent), k) ==
                (if Truthy(Found(cfg, fs, j, parent)) then Some(Found(cfg, fs, j, parent)) else None)
    {
      forall i | 0 <= i < |ps| && i != j ensures ps[i].0 != k {
        if i < j {
          KeysDistinctAt(fs, i, j);
        } else {
          KeysDistinctAt(fs, j, i);
        }
      }
      LookupKeepTruthyUnique(ps, k, j);
    }
  }

  /** `fill` sets key `k` exactly when the value found for `k`'s field in the
      narrowed scope is truthy (`false`, `""`, `0`, `null` and `undefined`
      are left out) and stores that value; no other key is set. */
  lemma FillKeyPresence(cfg: Config, fs: seq<Field>, root: seq<Element>, k: string)
    requires FieldsOk(fs) && KeysDistinct(fs)
    ensures var r := Fill(cfg, fs, root).entries;
      var parent := Parent(cfg, fs, root);
      && ((forall j :: 0 <= j < |fs| ==> fs[j].key != k) ==> Lookup(r, k) == None)
      && (forall j :: 0 <= j < |fs| && fs[j].key == k ==>
            Lookup(r, k) == (if Truthy(Found(cfg, fs, j, parent))
                             then Some(Found(cfg, fs, j, parent)) else None))
  {
    FillKeysLookup(cfg, fs, Parent(cfg, fs, root), k);
  }

  /** A nested object or array field is always set, to the result of
      interpreting it with the narrowed scope as root: objects and arrays are
      truthy even when empty. */
  lemma NestedFieldAlwaysSet(cfg: Config, fs: seq<Field>, root: seq<Element>, j: nat)
    requires FieldsOk(fs) && KeysDistinct(fs) && j < |fs| && !fs[j].schema.Select?
    ensures Lookup(Fill(cfg, fs, root).entries, fs[j].key)
            == Some(Resolve(cfg, fs[j].schema, Parent(cfg, fs, root)))
  {
    var parent := Parent(cfg, fs, root);
    assert SchemaOk(fs[j].schema);
    var v := Resolve(cfg, fs[j].schema, parent);
    assert Found(cfg, fs, j, parent) == v;
    assert Truthy(v);
    FillKeysLookup(cfg, fs, parent, fs[j].key);
  }

  /** `$root` is not skipped when keys are filled: it is looked up once more,
      as a selector inside the scope it narrowed, and set when that yields a
      truthy value. */
  lemma RootKeyIsFilled(cfg: Config, fs: seq<Field>, root: seq<Element>, j: nat)
    requires FieldsOk(fs) && KeysDistinct(fs)
    requires j < |fs| && fs[j].key == RootKey && fs[j].schema.Select? && |fs[j].schema.expr| > 0
    ensures var sel := fs[j].schema.expr;
      ExprOk(sel) && var v := First(FindAll(cfg, cfg.doc.find(root, sel), sel));
      Lookup(Fill(cfg, fs, root).entries, RootKey) == if Truthy(v) then Some(v) else None
  {
    var sel := fs[j].schema.expr;
    RootSelectorAt(fs, j);
    assert SchemaOk(fs[j].schema);
    var parent := Parent(cfg, fs, root);
    assert parent == cfg.doc.find(root, sel);
    assert Found(cfg, fs, j, parent) == First(FindAll(cfg, parent, sel));
    FillKeysLookup(cfg, fs, parent, RootKey);
  }

  /** Keys whose found values are all falsy leave the object empty. */
  lemma FillKeysNoneTruthy(cfg: Config, fs: seq<Field>, parent: seq<Element>)
    requires FieldsOk(fs)
    requires forall j :: 0 <= j < |fs| ==> !Truthy(Found(cfg, fs, j, parent))
    ensures FillKeys(cfg, fs, parent) == []
  {
    var ps := Candidates(cfg, fs, parent);
    KeepTruthyNone(ps);
  }

  /** When no string field matches anything in the scope, the object is
      `{}`. */
  lemma FillNothingFound(cfg: Config, fs: seq<Field>, root: seq<Element>)
    requires FieldsOk(fs)
    requires forall j :: 0 <= j < |fs| ==> fs[j].schema.Select?
    requires forall j :: 0 <= j < |fs| ==>
               SchemaOk(fs[j].schema) && Matches(cfg, Parent(cfg, fs, root), fs[j].schema.expr) == []
    ensures Fill(cfg, fs, root) == Obj([])
  {
    var parent := Parent(cfg, fs, root);
    forall j | 0 <= j < |fs| ensures !Truthy(Found(cfg, fs, j, parent)) {
      assert |FindAll(cfg, parent, fs[j].schema.expr)| == 0;
    }
    FillKeysNoneTruthy(cfg, fs, parent);
  }

  // ---------------------------------------------------------------------
  // Arrays of objects: `fillMany`

  /** An array holding one object is `fillMany` of that object. */
  lemma ManyOfOneFields(cfg: Config, fs: seq<Field>, root: seq<Element>)
    requires FieldsOk(fs)
    ensures SchemaOk(Many([ItemFields(fs)]))
    ensures Resolve(cfg, Many([ItemFields(fs)]), root) == List(FillMany(cfg, fs, root))
  {
    var items := [ItemFields(fs)];
    assert ItemOk(items[0]);
    var steps := Steps(cfg, items, root);
    assert steps[0] == Replace(FillMany(cfg, fs, root));
    assert Reduce(steps, 1) == FillMany(cfg, fs, root);
  }

  /** The first element's record comes first. */
  lemma FillRecordsCons(cfg: Config, fs: seq<Field>, els: seq<Element>)
    requires FieldsOk(fs) && |els| > 0
    ensures FillRecords(cfg, fs, els) == Record(cfg, fs, els[0]) + FillRecords(cfg, fs, els[1..])
  {
  }

  /** Records are built element by element: the records of a concatenated
      selection are the records of each part, concatenated. */
  lemma {:induction false} FillRecordsAppend(cfg: Config, fs: seq<Field>, a: seq<Element>, b: seq<Element>)
    requires FieldsOk(fs)
    ensures FillRecords(cfg, fs, a + b) == FillRecords(cfg, fs, a) + FillRecords(cfg, fs, b)
    decreases |a|
  {
    if |a| == 0 {
      assert a + b == b;
    } else {
      assert (a + b)[0] == a[0];
      assert (a + b)[1..] == a[1..] + b;
      FillRecordsAppend(cfg, fs, a[1..], b);
      FillRecordsCons(cfg, fs, a + b);
      FillRecordsCons(cfg, fs, a);
      Reassociate(FillRecords(cfg, fs, a + b), FillRecords(cfg, fs, a), Record(cfg, fs, a[0]),
                  FillRecords(cfg, fs, a[1..]), FillRecords(cfg, fs, a[1..] + b), FillRecords(cfg, fs, b));
    }
  }

  /** When every element yields at least one key, nothing is dropped: one
      record per element, in order, each filled against that element. */
  lemma {:induction false} FillRecordsAllFound(cfg: Config, fs: seq<Field>, els: seq<Element>)
    requires FieldsOk(fs)
    requires forall j :: 0 <= j < |els| ==> |FillKeys(cfg, fs, [els[j]])| > 0
    ensures var r := FillRecords(cfg, fs, els);
      |r| == |els| && forall j :: 0 <= j < |els| ==> r[j] == Obj(FillKeys(cfg, fs, [els[j]]))
    decreases |els|
  {
    if |els| > 0 {
      FillRecordsAllFound(cfg, fs, els[1..]);
      var r := FillRecords(cfg, fs, els);
      var rest := FillRecords(cfg, fs, els[1..]);
      assert r == [Obj(FillKeys(cfg, fs, [els[0]]))] + rest;
      forall j | 1 <= j < |els| ensures r[j] == Obj(FillKeys(cfg, fs, [els[j]])) {
        assert r[j] == rest[j - 1];
        assert els[1..][j - 1] == els[j];
      }
    }
  }

  /** When no element yields a key, the result is `[]`. */
  lemma {:induction false} FillRecordsNoneFound(cfg: Config, fs: seq<Field>, els: seq<Element>)
    requires FieldsOk(fs)
    requires forall j :: 0 <= j < |els| ==> FillKeys(cfg, fs, [els[j]]) == []
    ensures FillRecords(cfg, fs, els) == []
    decreases |els|
  {
    if |els| > 0 {
      assert FillKeys(cfg, fs, [els[0]]) == [];
      FillRecordsNoneFound(cfg, fs, els[1..]);
    }
  }

  /** An array of one object whose string fields match nothing under any
      scope element is `[]`. */
  lemma ManyOfFieldsNothingFound(cfg: Config, fs: seq<Field>, root: seq<Element>)
    requires FieldsOk(fs)
    requires forall j :: 0 <= j < |fs| ==> fs[j].schema.Select?
    requires forall j, el :: 0 <= j < |fs| && el in Parent(cfg, fs, root) ==>
               SchemaOk(fs[j].schema) && Matches(cfg, [el], fs[j].schema.expr) == []
    ensures Resolve(cfg, Many([ItemFields(fs)]), root) == List([])
  {
    var els := Parent(cfg, fs, root);
    forall n | 0 <= n < |els| ensures FillKeys(cfg, fs, [els[n]]) == [] {
      forall j | 0 <= j < |fs| ensures !Truthy(Found(cfg, fs, j, [els[n]])) {
        assert |FindAll(cfg, [els[n]], fs[j].schema.expr)| == 0;
      }
      FillKeysNoneTruthy(cfg, fs, [els[n]]);
    }
    FillRecordsNoneFound(cfg, fs, els);
    ManyOfOneFields(cfg, fs, root);
  }

  /** Called without a root, an array of one object without `$root` yields
      at most one record: the records are taken per element of the document
      root selection, which has one element. */
  lemma TopLevelRecordsWithoutRoot(cfg: Config, fs: seq<Field>)
    requires FieldsOk(fs) && RootSelector(fs) == None
    ensures var r := Xray(cfg, Many([ItemFields(fs)]), None);
      r.List? && |r.items| <= 1 && forall j :: 0 <= j < |r.items| ==> r.items[j] != Obj([])
  {
    var root := [cfg.doc.root];
    assert Parent(cfg, fs, root) == root;
    ManyOfOneFields(cfg, fs, root);
  }

  /** An array of one object with `$root` yields at most one record per
      `$root` match, and never an empty record. */
  lemma ManyOfFieldsWithRoot(cfg: Config, fs: seq<Field>, root: seq<Element>, j: nat)
    requires FieldsOk(fs) && KeysDistinct(fs)
    requires j < |fs| && fs[j].key == RootKey && fs[j].schema.Select? && |fs[j].schema.expr| > 0
    ensures var r := Resolve(cfg, Many([ItemFields(fs)]), root);
      && r.List?
      && |r.items| <= |cfg.doc.find(root, fs[j].schema.expr)|
      && forall i :: 0 <= i < |r.items| ==> r.items[i].Obj? && |r.items[i].entries| > 0
  {
    RootSelectorAt(fs, j);
    ManyOfOneFields(cfg, fs, root);
  }
}
