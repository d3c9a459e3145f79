/** The filter separator `\s*\|\s*` and the way a selector expression is cut
    into its field text and its filter text (`String.prototype.split` with that
    pattern, then re-joining the tail with `|`). */
module Separators {

  /** The characters JavaScript's `\s` class matches: WhiteSpace and
      LineTerminator of section 11.2 and 11.3 of ECMA-262. */
  predicate IsSpace(c: char) {
    var n := c as int;
    n == 0x09 || n == 0x0A || n == 0x0B || n == 0x0C || n == 0x0D || n == 0x20
    || n == 0xA0 || n == 0x1680 || (0x2000 <= n <= 0x200A)
    || n == 0x2028 || n == 0x2029 || n == 0x202F || n == 0x205F
    || n == 0x3000 || n == 0xFEFF
  }

  /** Index of the first occurrence of `c` in `s`. */
  function IndexOf(s: string, c: char): (r: nat)
    ensures r <= |s|
    ensures forall i :: 0 <= i < r ==> s[i] != c
    ensures r < |s| ==> s[r] == c
  {
    if |s| == 0 || s[0] == c then 0 else 1 + IndexOf(s[1..], c)
  }

  /** Length of the longest suffix of `s` made of whitespace. */
  function TrailingSpaces(s: string): (r: nat)
    ensures r <= |s|
    ensures forall i :: |s| - r <= i < |s| ==> IsSpace(s[i])
    ensures r < |s| ==> !IsSpace(s[|s| - r - 1])
  {
    if |s| == 0 || !IsSpace(s[|s| - 1]) then 0 else 1 + TrailingSpaces(s[..|s| - 1])
  }

  /** `s` without its trailing whitespace. */
  function TrimEnd(s: string): (t: string)
    ensures |t| <= |s| && s[..|t|] == t
    ensures |t| == 0 || !IsSpace(t[|t| - 1])
    ensures forall i :: |t| <= i < |s| ==> IsSpace(s[i])
  {
    s[..|s| - TrailingSpaces(s)]
  }

  /** `s` without its leading whitespace. */
  function TrimStart(s: string): (t: string)
    ensures |t| <= |s| && s[|s| - |t|..] == t
    ensures |t| == 0 || !IsSpace(t[0])
    ensures forall i :: 0 <= i < |s| - |t| ==> IsSpace(s[i])
  {
    if |s| == 0 || !IsSpace(s[0]) then s else TrimStart(s[1..])
  }

  /** `s.split(/\s*\|\s*\/)`. The leftmost match of the pattern starts at the
      whitespace run just before the first `|` and ends after the whitespace
      run that follows it; splitting then continues after that match. */
  function Split(s: string): (parts: seq<string>)
    ensures |parts| >= 1
    ensures forall i :: 0 <= i < |parts| ==> '|' !in parts[i]
    decreases |s|
  {
    var q := IndexOf(s, '|');
    if q == |s| then [s]
    else [TrimEnd(s[..q])] + Split(TrimStart(s[q + 1..]))
  }

  /** `parts.join('|')`. */
  function Join(parts: seq<string>): string {
    if |parts| == 0 then ""
    else if |parts| == 1 then parts[0]
    else parts[0] + "|" + Join(parts[1..])
  }

  /** The field text of a selector expression: the first piece of the split. */
  function FieldText(s: string): string {
    Split(s)[0]
  }

  /** The filter text handed to the format tokenizer: the remaining pieces
      joined back with a bare `|`. */
  function FilterText(s: string): string {
    Join(Split(s)[1..])
  }

  /** If position `i` holds a `|`, no whitespace stands directly next to it. */
  ghost predicate TightAt(s: string, i: nat)
    requires i < |s|
  {
    s[i] == '|' ==> (i == 0 || !IsSpace(s[i - 1])) && (i + 1 == |s| || !IsSpace(s[i + 1]))
  }

  /** No whitespace stands directly next to a `|`. */
  ghost predicate TightBars(s: string) {
    forall i :: 0 <= i < |s| ==> TightAt(s, i)
  }

  /** Without a `|` the whole expression is the field text and there is no
      filter text. */
  lemma NoBarIsAllField(s: string)
    requires '|' !in s
    ensures FieldText(s) == s
    ensures FilterText(s) == ""
  {
    assert IndexOf(s, '|') == |s|;
  }

  /** The field text is everything before the first `|`, minus the whitespace
      that belongs to the separator: the expression starts with the field
      text, then whitespace, then that first `|`. */
  lemma FieldTextBeforeFirstBar(s: string)
    requires '|' in s
    ensures var f := FieldText(s);
      && '|' !in f
      && (|f| == 0 || !IsSpace(f[|f| - 1]))
      && |f| < |s|
      && s[..|f|] == f
      && var q := IndexOf(s, '|');
         |f| <= q < |s| && s[q] == '|'
         && (forall i :: |f| <= i < q ==> IsSpace(s[i]))
  {
    var q := IndexOf(s, '|');
    var f := TrimEnd(s[..q]);
    SplitStep(s, q, f, TrimStart(s[q + 1..]));
    assert FieldText(s) == f;
    HeadBeforeBar(s, q, f);
  }

  /** The trimmed text before the first `|` is a prefix of the expression
      without `|`, followed only by whitespace up to that `|`. */
  lemma HeadBeforeBar(s: string, q: nat, f: string)
    requires q == IndexOf(s, '|') && q < |s|
    requires f == TrimEnd(s[..q])
    ensures '|' !in f && |f| <= q && s[..|f|] == f
    ensures forall i :: |f| <= i < q ==> IsSpace(s[i])
  {
    var head := s[..q];
    assert forall i :: |f| <= i < q ==> s[i] == head[i];
    assert s[..|f|] == head[..|f|];
    assert forall i :: 0 <= i < |f| ==> f[i] == s[i];
  }

  /** A suffix that starts right after a `|` keeps the bars tight. */
  lemma TightBarsAfter(s: string, q: nat)
    requires TightBars(s)
    requires q < |s| && s[q] == '|'
    ensures TightBars(s[q + 1..])
  {
    var rest := s[q + 1..];
    forall i | 0 <= i < |rest|
      ensures TightAt(rest, i)
    {
      assert rest[i] == s[q + 1 + i];
      assert TightAt(s, q + 1 + i);
      if i > 0 {
        assert rest[i - 1] == s[q + i];
      }
      if i + 1 < |rest| {
        assert rest[i + 1] == s[q + 2 + i];
      }
    }
  }

  /** One step of the split at a first `|` with no whitespace on either side. */
  lemma SplitAtTightBar(s: string, q: nat)
    requires q == IndexOf(s, '|') && q < |s|
    requires q == 0 || !IsSpace(s[q - 1])
    requires q + 1 == |s| || !IsSpace(s[q + 1])
    ensures Split(s) == [s[..q]] + Split(s[q + 1..])
  {
    NoSpaceAtStart(s[q + 1..]);
    NoSpaceAtEnd(s[..q]);
    SplitStep(s, q, s[..q], s[q + 1..]);
  }

  /** A string that does not start with whitespace has none to skip. */
  lemma NoSpaceAtStart(s: string)
    requires |s| == 0 || !IsSpace(s[0])
    ensures TrimStart(s) == s
  {
  }

  /** A string that does not end with whitespace is its own trimmed form. */
  lemma NoSpaceAtEnd(s: string)
    requires |s| == 0 || !IsSpace(s[|s| - 1])
    ensures TrimEnd(s) == s
  {
    assert s[..|s|] == s;
  }

  /** Whitespace after a text that does not end in whitespace is exactly what
      trimming removes. */
  lemma TrimEndSpaces(f: string, w: string)
    requires |f| == 0 || !IsSpace(f[|f| - 1])
    requires forall i :: 0 <= i < |w| ==> IsSpace(w[i])
    ensures TrimEnd(f + w) == f
  {
    assert (f + w)[..|f|] == f;
  }

  /** Whitespace before a text that does not start with whitespace is exactly
      what the separator swallows. */
  lemma {:induction false} TrimStartSpaces(w: string, r: string)
    requires forall i :: 0 <= i < |w| ==> IsSpace(w[i])
    requires |r| == 0 || !IsSpace(r[0])
    ensures TrimStart(w + r) == r
    decreases |w|
  {
    if |w| == 0 {
      assert w + r == r;
    } else {
      assert (w + r)[0] == w[0];
      assert (w + r)[1..] == w[1..] + r;
      TrimStartSpaces(w[1..], r);
    }
  }

  /** Whitespace after a text without `|` adds no `|`. */
  lemma NoBarBeforeSpaces(f: string, w: string)
    requires '|' !in f
    requires forall i :: 0 <= i < |w| ==> IsSpace(w[i])
    ensures '|' !in f + w
  {
    forall i | 0 <= i < |f + w| ensures (f + w)[i] != '|' {
      if i < |f| {
        assert (f + w)[i] == f[i];
      } else {
        assert (f + w)[i] == w[i - |f|];
      }
    }
  }

  /** The first `|` of `h + "|" + r` is the one after `h` when `h` holds
      none. */
  lemma FirstBarAt(h: string, r: string)
    requires '|' !in h
    ensures IndexOf(h + "|" + r, '|') == |h|
  {
    var s := h + "|" + r;
    assert s[|h|] == '|';
    assert forall i :: 0 <= i < |h| ==> s[i] == h[i];
  }

  /** One step of the split at its first `|`. */
  lemma SplitStep(s: string, q: nat, first: string, tail: string)
    requires q == IndexOf(s, '|') && q < |s|
    requires first == TrimEnd(s[..q]) && tail == TrimStart(s[q + 1..])
    ensures Split(s) == [first] + Split(tail)
  {
  }

  /** One step of the split at a first `|` with whitespace around it, as in
      `sel | filter`: the whitespace on both sides belongs to the separator,
      and splitting goes on with the text after it. */
  lemma SplitAtSpacedBar(f: string, w1: string, w2: string, rest: string)
    requires '|' !in f && (|f| == 0 || !IsSpace(f[|f| - 1]))
    requires forall i :: 0 <= i < |w1| ==> IsSpace(w1[i])
    requires forall i :: 0 <= i < |w2| ==> IsSpace(w2[i])
    requires |rest| == 0 || !IsSpace(rest[0])
    ensures Split(f + w1 + "|" + w2 + rest) == [f] + Split(rest)
  {
    var s := f + w1 + "|" + w2 + rest;
    var q := |f| + |w1|;
    SpacedBarParts(f, w1, w2, rest, s, q);
    SplitStep(s, q, f, rest);
  }

  /** Where the first `|` of a spaced separator sits, and what lies on
      either side of it once the whitespace is trimmed. */
  lemma SpacedBarParts(f: string, w1: string, w2: string, rest: string, s: string, q: nat)
    requires '|' !in f && (|f| == 0 || !IsSpace(f[|f| - 1]))
    requires forall i :: 0 <= i < |w1| ==> IsSpace(w1[i])
    requires forall i :: 0 <= i < |w2| ==> IsSpace(w2[i])
    requires |rest| == 0 || !IsSpace(rest[0])
    requires s == f + w1 + "|" + w2 + rest && q == |f| + |w1|
    ensures IndexOf(s, '|') == q && q < |s|
    ensures TrimEnd(s[..q]) == f
    ensures TrimStart(s[q + 1..]) == rest
  {
    var h := f + w1;
    var r := w2 + rest;
    AppendAssoc(h + "|", w2, rest);
    NoBarBeforeSpaces(f, w1);
    FirstBarAt(h, r);
    assert s[..|h|] == h;
    TrimEndSpaces(f, w1);
    assert s[|h| + 1..] == r;
    TrimStartSpaces(w2, rest);
  }

  /** Appending is associative. */
  lemma AppendAssoc(a: string, b: string, c: string)
    ensures a + b + c == a + (b + c)
  {
  }

  /** The spaced form the library's own examples use: in
      `.Header a[href] | href` the field text is `.Header a[href]` and the
      tokenizer receives `href`. */
  lemma SpacedFilter()
    ensures FieldText(".Header a[href] | href") == ".Header a[href]"
    ensures FilterText(".Header a[href] | href") == "href"
  {
    assert ".Header a[href] | href" == ".Header a[href]" + " " + "|" + " " + "href";
    SplitAtSpacedBar(".Header a[href]", " ", " ", "href");
    NoBarIsAllField("href");
  }

  /** Two spaced separators: `f | g | h` splits into its three pieces, and
      the tokenizer receives `g|h` with the bar bare. */
  lemma TwoSpacedBars(f: string, g: string, h: string, s: string)
    requires '|' !in f && '|' !in g && '|' !in h
    requires |f| == 0 || !IsSpace(f[|f| - 1])
    requires |g| > 0 && !IsSpace(g[0]) && !IsSpace(g[|g| - 1])
    requires |h| == 0 || !IsSpace(h[0])
    requires s == f + " " + "|" + " " + (g + " " + "|" + " " + h)
    ensures FieldText(s) == f && FilterText(s) == g + "|" + h
  {
    var tail := g + " " + "|" + " " + h;
    SplitAtSpacedBar(f, " ", " ", tail);
    SplitAtSpacedBar(g, " ", " ", h);
    NoBarIsAllField(h);
    JoinTwo(Split(s), f, g, h);
  }

  /** Three pieces join back as the last two around a bare bar. */
  lemma JoinTwo(parts: seq<string>, f: string, g: string, h: string)
    requires parts == [f] + ([g] + [h])
    ensures parts[0] == f && Join(parts[1..]) == g + "|" + h
  {
    assert parts[1..] == [g, h];
    assert parts[1..][1..] == [h];
  }

  /** Splitting and re-joining is the identity when no whitespace surrounds a
      `|`: the pieces are exactly the text between the bars. */
  lemma {:induction false} JoinSplit(s: string)
    requires TightBars(s)
    ensures Join(Split(s)) == s
    decreases |s|
  {
    var q := IndexOf(s, '|');
    if q < |s| {
      var rest := s[q + 1..];
      assert TightAt(s, q);
      SplitAtTightBar(s, q);
      TightBarsAfter(s, q);
      JoinSplit(rest);
      JoinCons(s[..q], Split(rest));
      AroundBar(s, q);
    }
  }

  /** A string is its text before position `q`, the `|` there, and the rest. */
  lemma AroundBar(s: string, q: nat)
    requires q < |s| && s[q] == '|'
    ensures s == s[..q] + "|" + s[q + 1..]
  {
  }

  /** Joining a piece in front of a non-empty list puts one bare `|` after it. */
  lemma JoinCons(x: string, tail: seq<string>)
    requires |tail| >= 1
    ensures Join([x] + tail) == x + "|" + Join(tail)
  {
    assert ([x] + tail)[1..] == tail;
  }
}
