/** Formatters: resolving the tokenized filter invocations against the
    caller's registry, and the left fold that applies them to a rendered
    value. */
module Filters {
  import opened Values

  /** A filter function, called as `fn(value, ...args)`; it may return any
      value. */
  type FilterFn = (Value, seq<Value>) -> Value

  /** The caller's filter registry, name to function. */
  type Registry = map<string, FilterFn>

  /** One filter invocation as the format tokenizer returns it. */
  datatype Token = Token(name: string, args: seq<Value>)

  /** A token whose name the registry knows, with the function attached. */
  datatype Formatter = Formatter(name: string, args: seq<Value>, fn: FilterFn)

  /** The formatter a registered token becomes. */
  function Attach(reg: Registry, t: Token): Formatter
    requires t.name in reg
  {
    Formatter(t.name, t.args, reg[t.name])
  }

  /** Keep the tokens whose name the registry holds, in order, and attach the
      registered function to each; the others are dropped silently. */
  function Resolve(reg: Registry, toks: seq<Token>): (r: seq<Formatter>)
    ensures |r| <= |toks|
    ensures forall i :: 0 <= i < |r| ==> r[i].name in reg && r[i].fn == reg[r[i].name]
    ensures (forall i :: 0 <= i < |toks| ==> toks[i].name in reg) ==>
              |r| == |toks| && forall i :: 0 <= i < |toks| ==> r[i] == Attach(reg, toks[i])
    ensures (forall i :: 0 <= i < |toks| ==> toks[i].name !in reg) ==> r == []
  {
    if |toks| == 0 then []
    else
      var rest := Resolve(reg, toks[1..]);
      if toks[0].name in reg then [Attach(reg, toks[0])] + rest else rest
  }

  /** `formatters.reduce((out, f) => f.fn(out, ...f.args), v)`. */
  function Apply(v: Value, fs: seq<Formatter>): Value
    decreases |fs|
  {
    if |fs| == 0 then v else Apply(fs[0].fn(v, fs[0].args), fs[1..])
  }

  /** Resolving distributes over concatenation of the token list: what is
      kept from each part, and its order, does not depend on the rest. */
  lemma {:induction false} ResolveAppend(reg: Registry, a: seq<Token>, b: seq<Token>)
    ensures Resolve(reg, a + b) == Resolve(reg, a) + Resolve(reg, b)
    decreases |a|
  {
    if |a| > 0 {
      assert (a + b)[1..] == a[1..] + b;
      ResolveAppend(reg, a[1..], b);
    } else {
      assert a + b == b;
    }
  }

  /** Appending a token appends its formatter when its name is registered,
      and changes nothing otherwise. */
  lemma ResolveSnoc(reg: Registry, toks: seq<Token>, t: Token)
    ensures t.name in reg ==> Resolve(reg, toks + [t]) == Resolve(reg, toks) + [Attach(reg, t)]
    ensures t.name !in reg ==> Resolve(reg, toks + [t]) == Resolve(reg, toks)
  {
    ResolveAppend(reg, toks, [t]);
  }

  /** Running `a` then `b` is running `a + b`. */
  lemma {:induction false} ApplyAppend(v: Value, a: seq<Formatter>, b: seq<Formatter>)
    ensures Apply(v, a + b) == Apply(Apply(v, a), b)
    decreases |a|
  {
    if |a| > 0 {
      assert (a + b)[1..] == a[1..] + b;
      ApplyAppend(a[0].fn(v, a[0].args), a[1..], b);
    } else {
      assert a + b == b;
    }
  }

  /** With no formatters the value passes through unchanged; the last
      formatter written is applied last, to the output of all the ones before
      it, so filters run in written order. */
  lemma ApplySnoc(v: Value, fs: seq<Formatter>, f: Formatter)
    ensures Apply(v, []) == v
    ensures Apply(v, fs + [f]) == f.fn(Apply(v, fs), f.args)
  {
    ApplyAppend(v, fs, [f]);
    assert [f][1..] == [];
  }
}
