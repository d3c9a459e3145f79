/** The selector/attribute pattern `([^\[]+)(?:\[([^\[]+)\])?` applied with
    `String.prototype.match`: group 1 is the selector, group 2 the optional
    bracketed attribute name. The pattern is not anchored. */
module SelectorPattern {
  import opened Values
  import Separators

  /** What a successful match yields: group 1 and, when it took part, group 2. */
  datatype SelectorParts = SelectorParts(selector: string, attribute: Option<string>)

  /** Number of `[` characters at the start of `t`. No match can start on a
      `[`, so the leftmost match starts right after them. */
  function LeadingOpens(t: string): (r: nat)
    ensures r <= |t|
    ensures forall i :: 0 <= i < r ==> t[i] == '['
    ensures r < |t| ==> t[r] != '['
  {
    if |t| == 0 || t[0] != '[' then 0 else 1 + LeadingOpens(t[1..])
  }

  /** The largest `j >= 1` with `r[j] == ']'`: how far the greedy, non-empty
      group 2 reaches once backtracking has found its closing `]`. */
  function LastClose(r: string): (j: Option<nat>)
    ensures j.Some? ==> 1 <= j.value < |r| && r[j.value] == ']'
    ensures j.Some? ==> forall i :: j.value < i < |r| ==> r[i] != ']'
    ensures j.None? ==> forall i :: 1 <= i < |r| ==> r[i] != ']'
  {
    if |r| <= 1 then None
    else if r[|r| - 1] == ']' then Some(|r| - 1)
    else LastClose(r[..|r| - 1])
  }

  /** The text a selector and attribute are written as: `sel` or `sel[attr]`. */
  function SelectorText(sel: string, attribute: Option<string>): string {
    match attribute
    case None => sel
    case Some(a) => sel + "[" + a + "]"
  }

  /** Group 2 of a match whose group 1 stopped at a `[`: `rest` is the text
      after that `[`. The group takes part exactly when a `]` stands after the
      first character and before the next `[`; it then reaches the last such
      `]`, and whatever follows that `]` is not part of the match. */
  function AttributeGroup(rest: string): (a: Option<string>)
    ensures a.None? <==>
      forall i :: 1 <= i < Separators.IndexOf(rest, '[') ==> rest[i] != ']'
    ensures a.Some? ==>
      && |a.value| > 0 && '[' !in a.value
      && |a.value| < Separators.IndexOf(rest, '[')
      && |a.value| + 1 <= |rest| && rest[..|a.value| + 1] == a.value + "]"
      && forall i :: |a.value| < i < Separators.IndexOf(rest, '[') ==> rest[i] != ']'
  {
    var run := rest[..Separators.IndexOf(rest, '[')];
    match LastClose(run)
    case None => None
    case Some(j) =>
      assert rest[..j + 1] == run[..j] + "]";
      Some(run[..j])
  }

  /** The match at a position that does not hold a `[`: group 1 is the run up
      to the next `[`, group 2 whatever follows it. */
  function MatchAt(u: string): (r: SelectorParts)
    requires |u| > 0 && u[0] != '['
    ensures |r.selector| > 0 && '[' !in r.selector
    ensures r.attribute.Some? ==> |r.attribute.value| > 0 && '[' !in r.attribute.value
    ensures var w := SelectorText(r.selector, r.attribute); |w| <= |u| && u[..|w|] == w
    ensures |r.selector| == |u| || u[|r.selector|] == '['
    ensures |r.selector| == |u| ==> r.attribute.None?
    ensures |r.selector| < |u| ==> r.attribute == AttributeGroup(u[|r.selector| + 1..])
  {
    var k := Separators.IndexOf(u, '[');
    if k == |u| then
      assert u[..|u|] == u;
      SelectorParts(u, None)
    else
      var a := AttributeGroup(u[k + 1..]);
      assert a.Some? ==> u[..k + 1 + |a.value| + 1] == u[..k] + "[" + a.value + "]" by {
        if a.Some? {
          assert u[k + 1..][..|a.value| + 1] == a.value + "]";
        }
      }
      SelectorParts(u[..k], a)
  }

  /** `t.match(rselector)`, `None` standing for `null`. Group 1 is the longest
      run free of `[` at the leftmost position that is not a `[`; group 2,
      when it takes part, is the text after the following `[` up to the last
      `]` that comes before any further `[`. */
  function MatchSelector(t: string): (r: Option<SelectorParts>)
    ensures r.None? <==> forall i :: 0 <= i < |t| ==> t[i] == '['
    ensures r.Some? ==>
      && |r.value.selector| > 0
      && '[' !in r.value.selector
      && (r.value.attribute.Some? ==>
            |r.value.attribute.value| > 0 && '[' !in r.value.attribute.value)
  {
    var p := LeadingOpens(t);
    if p == |t| then None else Some(MatchAt(t[p..]))
  }

  /** What holds at the start of `t[p..]` holds at position `p` of `t`. */
  lemma ShiftedPrefix(t: string, p: nat, r: SelectorParts)
    requires p <= |t|
    requires var w := SelectorText(r.selector, r.attribute);
      |w| <= |t| - p && t[p..][..|w|] == w
    requires |r.selector| == |t| - p || t[p..][|r.selector|] == '['
    ensures var w := SelectorText(r.selector, r.attribute);
      && p + |w| <= |t| && t[p..p + |w|] == w
      && (p + |r.selector| == |t| || t[p + |r.selector|] == '[')
  {
    var w := SelectorText(r.selector, r.attribute);
    assert t[p..p + |w|] == t[p..][..|w|];
    if |r.selector| < |t| - p {
      assert t[p..][|r.selector|] == t[p + |r.selector|];
    }
  }

  /** A match is read where it is written: right after the leading `[`, the
      text holds the selector, then the bracketed attribute when there is one;
      and the selector stops at the end of the text or at a `[`. */
  lemma MatchSelectorWritten(t: string, p: nat)
    requires p == LeadingOpens(t) && p < |t|
    ensures MatchSelector(t).Some?
    ensures var r := MatchSelector(t).value;
      var w := SelectorText(r.selector, r.attribute);
      && p + |w| <= |t| && t[p..p + |w|] == w
      && (p + |r.selector| == |t| || t[p + |r.selector|] == '[')
    ensures var r := MatchSelector(t).value;
      && (p + |r.selector| == |t| ==> r.attribute.None?)
      && (p + |r.selector| < |t| ==> r.attribute == AttributeGroup(t[p + |r.selector| + 1..]))
  {
    var r := MatchAt(t[p..]);
    ShiftedPrefix(t, p, r);
    if p + |r.selector| < |t| {
      assert t[p..][|r.selector| + 1..] == t[p + |r.selector| + 1..];
    }
    assert MatchSelector(t) == Some(r);
  }

  /** Without a closing `]` group 2 does not take part: `a[b` is the
      selector `a` alone. */
  lemma UnclosedAttribute()
    ensures MatchSelector("a[b") == Some(SelectorParts("a", None))
  {
    var t := "a[b";
    assert LeadingOpens(t) == 0;
    assert t[0..] == t;
    assert Separators.IndexOf(t, '[') == 1;
    assert t[2..] == "b";
    assert Separators.IndexOf("b", '[') == 1;
    assert AttributeGroup("b") == None;
    assert t[..1] == "a";
    assert MatchAt(t) == SelectorParts("a", None);
  }

  /** Group 2 is greedy: it runs to the last `]` before the next `[`, so
      `a[b]c]` has the attribute `b]c`. */
  lemma GreedyAttribute()
    ensures MatchSelector("a[b]c]") == Some(SelectorParts("a", Some("b]c")))
  {
    var t := "a[b]c]";
    assert LeadingOpens(t) == 0;
    assert t[0..] == t;
    assert Separators.IndexOf(t, '[') == 1;
    var rest := t[2..];
    assert rest == "b]c]";
    assert Separators.IndexOf(rest, '[') == 4;
    assert rest[..4] == rest;
    assert LastClose(rest) == Some(3);
    assert rest[..3] == "b]c";
    assert AttributeGroup(rest) == Some("b]c");
    assert t[..1] == "a";
    assert MatchAt(t) == SelectorParts("a", Some("b]c"));
  }

  /** Text after the closing `]` is not part of the match: `a[b]x` has the
      attribute `b` and the `x` is dropped. */
  lemma TrailingTextDropped()
    ensures MatchSelector("a[b]x") == Some(SelectorParts("a", Some("b")))
  {
    var t := "a[b]x";
    assert LeadingOpens(t) == 0;
    assert t[0..] == t;
    assert Separators.IndexOf(t, '[') == 1;
    var rest := t[2..];
    assert rest == "b]x";
    assert Separators.IndexOf(rest, '[') == 3;
    assert rest[..3] == rest;
    assert LastClose("b]") == Some(1);
    assert LastClose(rest) == Some(1);
    assert rest[..1] == "b";
    assert AttributeGroup(rest) == Some("b");
    assert t[..1] == "a";
    assert MatchAt(t) == SelectorParts("a", Some("b"));
  }

  /** A bracket-free field text is all selector, with no attribute. */
  lemma PlainSelector(sel: string)
    requires |sel| > 0 && '[' !in sel
    ensures MatchSelector(sel) == Some(SelectorParts(sel, None))
  {
    assert sel[0] != '[';
    assert sel[0..] == sel;
  }

  /** `sel[attr]` gives back `sel` and `attr`, for any non-empty selector and
      attribute name free of `[` (the attribute may itself hold a `]`). */
  lemma SelectorWithAttribute(sel: string, a: string)
    requires |sel| > 0 && '[' !in sel
    requires |a| > 0 && '[' !in a
    ensures MatchSelector(sel + "[" + a + "]") == Some(SelectorParts(sel, Some(a)))
  {
    var t := sel + "[" + a + "]";
    assert t[0] == sel[0];
    assert LeadingOpens(t) == 0;
    assert t[0..] == t;
    assert t[|sel|] == '[';
    assert Separators.IndexOf(t, '[') == |sel|;
    var rest := t[|sel| + 1..];
    assert rest == a + "]";
    assert Separators.IndexOf(rest, '[') == |rest|;
    assert rest[..|rest|] == rest;
    assert LastClose(rest) == Some(|a|);
    assert AttributeGroup(rest) == Some(a) by {
      assert rest[..|a|] == a;
    }
    assert t[..|sel|] == sel;
  }

  /** Matching inverts writing: reading back the text of a well-formed
      selector and attribute yields them unchanged. */
  lemma MatchSelectorText(sel: string, attribute: Option<string>)
    requires |sel| > 0 && '[' !in sel
    requires attribute.Some? ==> |attribute.value| > 0 && '[' !in attribute.value
    ensures MatchSelector(SelectorText(sel, attribute)) == Some(SelectorParts(sel, attribute))
  {
    match attribute
    case None => PlainSelector(sel);
    case Some(a) => SelectorWithAttribute(sel, a);
  }

  /** A field text that starts with `[` is not an attribute read off the
      scope: the pattern skips the `[` and `[class]` becomes the selector
      `class]` with no attribute. */
  lemma LeadingBracketIsSkipped()
    ensures MatchSelector("[class]") == Some(SelectorParts("class]", None))
  {
    var t := "[class]";
    assert LeadingOpens(t) == 1;
    assert t[1..] == "class]";
    assert Separators.IndexOf("class]", '[') == 6;
  }
}
