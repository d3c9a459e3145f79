/** The schema interpreter returned by `Xray(html, filters)`: `xray` and its
    helpers `collection`, `findMany`, `fill`, `fillMany`, `applyFilters` and
    `parse`, over an abstract document. */
module Interpreter {
  import opened Values
  import opened Schemas
  import Separators
  import SelectorPattern
  import Filters

  /** An element of the loaded document, identified by its node number. */
  type Element = nat

  /** The four document operations the interpreter uses, supplied by the
      HTML library: the document root (`$.root()`), descendant search by
      selector over a whole selection (`sel.find(s)`, in document order), an
      element's text (`$(el).text()`) and one of its attributes
      (`$(el).attr(name)`, absent when the element has no such attribute). */
  datatype Document = Document(
    root: Element,
    find: (seq<Element>, string) -> seq<Element>,
    text: Element -> string,
    attr: (Element, string) -> Option<string>)

  /** What one `Xray(html, filters)` call fixes: the loaded document, the
      filter registry, and the format tokenizer (`format-parser`). */
  datatype Config = Config(
    doc: Document,
    filters: Filters.Registry,
    tokenize: string -> seq<Filters.Token>)

  /** The result of `parse`: match groups 1 and 2 and the resolved filters. */
  datatype Parsed = Parsed(
    selector: string,
    attribute: Option<string>,
    formatters: seq<Filters.Formatter>)

  /** `parse(str)`: split off the filters, keep the registered ones, and match
      the field text against the selector pattern. */
  function Parse(cfg: Config, expr: string): (m: Parsed)
    requires ExprOk(expr)
    ensures |m.selector| > 0 && '[' !in m.selector
    ensures m.attribute.Some? ==> |m.attribute.value| > 0 && '[' !in m.attribute.value
    ensures SelectorPattern.MatchSelector(Separators.FieldText(expr))
            == Some(SelectorPattern.SelectorParts(m.selector, m.attribute))
    ensures m.formatters == Filters.Resolve(cfg.filters, cfg.tokenize(Separators.FilterText(expr)))
    ensures |m.formatters| <= |cfg.tokenize(Separators.FilterText(expr))|
    ensures forall i :: 0 <= i < |m.formatters| ==>
              m.formatters[i].name in cfg.filters
              && m.formatters[i].fn == cfg.filters[m.formatters[i].name]
  {
    var parts := SelectorPattern.MatchSelector(Separators.FieldText(expr)).value;
    var fs := Filters.Resolve(cfg.filters, cfg.tokenize(Separators.FilterText(expr)));
    Parsed(parts.selector, parts.attribute, fs)
  }

  /** The elements a selector expression matches under `scope`. */
  function Matches(cfg: Config, scope: seq<Element>, expr: string): seq<Element>
    requires ExprOk(expr)
  {
    cfg.doc.find(scope, Parse(cfg, expr).selector)
  }

  /** The raw content of one matched element: the attribute when one was
      given, its text otherwise. */
  function Content(cfg: Config, el: Element, attribute: Option<string>): Value {
    match attribute
    case Some(a) =>
      (match cfg.doc.attr(el, a)
       case None => Undef
       case Some(v) => Text(v))
    case None => Text(cfg.doc.text(el))
  }

  /** One matched element rendered and run through the filters. */
  function Render(cfg: Config, el: Element, m: Parsed): Value {
    Filters.Apply(Content(cfg, el, m.attribute), m.formatters)
  }

  /** `els.map(...)` in `findMany`: one rendered value per element, in order. */
  function RenderAll(cfg: Config, els: seq<Element>, m: Parsed): (r: seq<Value>)
    ensures |r| == |els|
    ensures forall i :: 0 <= i < |els| ==> r[i] == Render(cfg, els[i], m)
  {
    if |els| == 0 then []
    else [Render(cfg, els[0], m)] + RenderAll(cfg, els[1..], m)
  }

  /** `findMany($el, str)` for a string: render every match under `scope`. */
  function FindAll(cfg: Config, scope: seq<Element>, expr: string): (r: seq<Value>)
    requires ExprOk(expr)
    ensures |r| == |Matches(cfg, scope, expr)|
    ensures forall i :: 0 <= i < |r| ==>
              r[i] == Render(cfg, Matches(cfg, scope, expr)[i], Parse(cfg, expr))
  {
    var m := Parse(cfg, expr);
    RenderAll(cfg, cfg.doc.find(scope, m.selector), m)
  }

  /** `root.eq(0)`: the first element of a selection, or an empty selection. */
  function Eq0(scope: seq<Element>): (r: seq<Element>)
    ensures |scope| == 0 ==> r == []
    ensures |scope| > 0 ==> r == [scope[0]]
  {
    if |scope| == 0 then [] else [scope[0]]
  }

  /** `xray(obj, root)`: dispatch on the schema shape. A string yields its
      first rendered match, an object is filled, an array is folded with
      `collection` starting from `[]`. */
  function Resolve(cfg: Config, s: Schema, root: seq<Element>): (r: Value)
    requires SchemaOk(s)
    ensures s.Fields? ==> r.Obj?
    ensures s.Many? ==> r.List?
    decreases s, 0
  {
    match s
    case Select(e) => First(FindAll(cfg, root, e))
    case Fields(fs) => Fill(cfg, fs, root)
    case Many(items) => List(Collect(cfg, items, root))
  }

  /** `findMany($el, v)`: every rendered match for a string, and the single
      value of a recursive `xray(v, $el)` for anything else. */
  function FindMany(cfg: Config, scope: seq<Element>, s: Schema): (r: seq<Value>)
    requires SchemaOk(s)
    ensures !s.Select? ==> |r| == 1
    decreases s, 1
  {
    match s
    case Select(e) => FindAll(cfg, scope, e)
    case _ => [Resolve(cfg, s, scope)]
  }

  /** What one array entry does to the accumulator of `collection`: a string
      entry appends its matches, an object entry replaces everything
      collected so far with its records. */
  datatype Step = Append(values: seq<Value>) | Replace(values: seq<Value>)

  /** `collection(arr, v)` once the entry `v` has been interpreted. */
  function Collection(acc: seq<Value>, st: Step): (r: seq<Value>)
    ensures st.Append? ==> |r| == |acc| + |st.values| && acc <= r && r[|acc|..] == st.values
    ensures st.Replace? ==> r == st.values
  {
    match st
    case Append(vs) => acc + vs
    case Replace(vs) => vs
  }

  /** `reduce(collection, [])` over the first `n` steps. */
  function Reduce(steps: seq<Step>, n: nat): seq<Value>
    requires n <= |steps|
  {
    if n == 0 then [] else Collection(Reduce(steps, n - 1), steps[n - 1])
  }

  /** The effect of one array entry: the matches of a string under the first
      scope element, or `fillMany` of an object. */
  function ItemStep(cfg: Config, it: Item, root: seq<Element>): (r: Step)
    requires ItemOk(it)
    ensures it.ItemSelect? <==> r.Append?
    decreases it, 0
  {
    match it
    case ItemSelect(e) => Append(FindAll(cfg, Eq0(root), e))
    case ItemFields(fs) => Replace(FillMany(cfg, fs, root))
  }

  /** The effect of every entry, in array order. */
  function Steps(cfg: Config, items: seq<Item>, root: seq<Element>): (r: seq<Step>)
    requires forall i :: 0 <= i < |items| ==> ItemOk(items[i])
    ensures |r| == |items|
    ensures forall i :: 0 <= i < |items| ==> r[i] == ItemStep(cfg, items[i], root)
    decreases items, 0
  {
    seq(|items|, i requires 0 <= i < |items| => ItemStep(cfg, items[i], root))
  }

  /** `obj.reduce(collection, [])`: the entries' effects folded from `[]`. */
  function Collect(cfg: Config, items: seq<Item>, root: seq<Element>): seq<Value>
    requires forall i :: 0 <= i < |items| ==> ItemOk(items[i])
    decreases items, 1
  {
    Reduce(Steps(cfg, items, root), |items|)
  }

  /** The scope an object's keys are resolved against:
      `obj.$root ? root.find(obj.$root) : root`. */
  function Parent(cfg: Config, fs: seq<Field>, root: seq<Element>): seq<Element> {
    match RootSelector(fs)
    case Some(sel) => cfg.doc.find(root, sel)
    case None => root
  }

  /** The value `findMany(parent, v)[0]` found for field `i`. */
  function Found(cfg: Config, fs: seq<Field>, i: nat, parent: seq<Element>): Value
    requires FieldsOk(fs) && i < |fs|
    decreases fs, 0, 0
  {
    First(FindMany(cfg, parent, fs[i].schema))
  }

  /** Each key paired with the value found for it, in `keys(obj)` order.
      `$root` is not skipped. */
  function Candidates(cfg: Config, fs: seq<Field>, parent: seq<Element>)
    : (r: seq<(string, Value)>)
    requires FieldsOk(fs)
    ensures |r| == |fs|
    ensures forall j :: 0 <= j < |fs| ==> r[j] == (fs[j].key, Found(cfg, fs, j, parent))
    decreases fs, 0, 1
  {
    seq(|fs|, j requires 0 <= j < |fs| => (fs[j].key, Found(cfg, fs, j, parent)))
  }

  /** `if (found) out[k] = found`, over a list of candidate entries: the
      entries with a truthy value, in order. */
  function KeepTruthy(ps: seq<(string, Value)>): (r: seq<(string, Value)>)
    ensures |r| <= |ps|
    ensures forall j :: 0 <= j < |r| ==> Truthy(r[j].1)
  {
    if |ps| == 0 then []
    else if Truthy(ps[0].1) then [ps[0]] + KeepTruthy(ps[1..])
    else KeepTruthy(ps[1..])
  }

  /** The `forEach` over `keys(obj)` that builds `out` against `parent`. */
  function FillKeys(cfg: Config, fs: seq<Field>, parent: seq<Element>): (r: seq<(string, Value)>)
    requires FieldsOk(fs)
    ensures |r| <= |fs|
    ensures forall j :: 0 <= j < |r| ==> Truthy(r[j].1)
    decreases fs, 1
  {
    KeepTruthy(Candidates(cfg, fs, parent))
  }

  /** `fill(obj)`: one object over the (possibly narrowed) scope. */
  function Fill(cfg: Config, fs: seq<Field>, root: seq<Element>): (r: Value)
    requires FieldsOk(fs)
    ensures r.Obj? && |r.entries| <= |fs|
    ensures forall j :: 0 <= j < |r.entries| ==> Truthy(r.entries[j].1)
    decreases fs, 2
  {
    Obj(FillKeys(cfg, fs, Parent(cfg, fs, root)))
  }

  /** One element's contribution to `fillMany`: its record, filled against
      that element alone, or nothing when the record has no key. */
  function Record(cfg: Config, fs: seq<Field>, el: Element): (r: seq<Value>)
    requires FieldsOk(fs)
    ensures |r| <= 1
    ensures forall j :: 0 <= j < |r| ==> r[j].Obj? && |r[j].entries| > 0
    decreases fs, 2, 0
  {
    var rec := FillKeys(cfg, fs, [el]);
    if |rec| > 0 then [Obj(rec)] else []
  }

  /** The `map` and `filter` of `fillMany`: one record per element, each
      filled against that element alone, records without keys dropped. */
  function FillRecords(cfg: Config, fs: seq<Field>, els: seq<Element>): (r: seq<Value>)
    requires FieldsOk(fs)
    ensures |r| <= |els|
    ensures forall j :: 0 <= j < |r| ==> r[j].Obj? && |r[j].entries| > 0
    decreases fs, 2, |els| + 1
  {
    if |els| == 0 then [] else Record(cfg, fs, els[0]) + FillRecords(cfg, fs, els[1..])
  }

  /** `fillMany(obj)`: one record per element of the (possibly narrowed)
      scope, never an empty one. */
  function FillMany(cfg: Config, fs: seq<Field>, root: seq<Element>): (r: seq<Value>)
    requires FieldsOk(fs)
    ensures |r| <= |Parent(cfg, fs, root)|
    ensures forall j :: 0 <= j < |r| ==> r[j].Obj? && |r[j].entries| > 0
    decreases fs, 3
  {
    FillRecords(cfg, fs, Parent(cfg, fs, root))
  }

  /** `xray(obj, root)` as called by a user: without a root, the scope is the
      document root. */
  function Xray(cfg: Config, s: Schema, root: Option<seq<Element>>): Value
    requires SchemaOk(s)
  {
    Resolve(cfg, s, match root case None => [cfg.doc.root] case Some(r) => r)
  }
}
