# x-ray-select: the schema interpreter

`Xray(html, filters)` loads a document and returns `xray(obj, root)`, an
interpreter that walks a plain-data schema and returns a value of the same
shape:

- A **string** is a selector expression such as `a[href] | trim | upper`.
  It yields the first match, rendered (the attribute when one is given in
  brackets, the text otherwise) and run through the named filters.
- An **object** yields an object. Each key is resolved in the scope that
  `$root` narrows, and is kept only when its value is truthy.
- An **array** folds its entries with `collection`:
  - a string entry appends every match under the first scope element;
  - an object entry replaces the accumulator with `fillMany` of that object: at most one record per element of the scope that `$root` narrows, and none for an element where no key is truthy.

The model is written in Dafny, in seven modules:

| module | what it holds |
|---|---|
| `Values` | JavaScript values as the interpreter sees them, truthiness, `xs[0]`, `o[k]` |
| `Separators` | `split(/\s*\|\s*/)` written out exactly; the field text and the filter text of an expression |
| `SelectorPattern` | the unanchored match of `([^\[]+)(?:\[([^\[]+)\])?` |
| `Filters` | the filter registry, keeping the registered filters, and the left fold that applies them |
| `Schemas` | the closed schema datatype and what makes a schema runnable |
| `Interpreter` | `parse`, `findMany`, `xray`, `collection`, `fill`, `fillMany` over an abstract document |
| `Laws` | properties that relate calls to each other or to an independent description |

The document is abstract: elements are node numbers. The HTML library supplies four operations as function values:

- `root`;
- `find` over a selection;
- `text`;
- `attr`.

The filter tokenizer (`format-parser`) is another function value: `Config.tokenize`.

A few points follow the code where its own tests or other documentation of
the library say otherwise:

- **`[attr]` on the scope element.** `[class]` is not read off the scope element. The pattern is unanchored, so it skips the leading `[`, and the selector becomes `class]` with no attribute.
- **Arrays of objects without `$root`.** These are not zipped position by position. `fillMany` makes one record per scope element, so at top level there is at most one record.
- **Falsy values.** A falsy value is never kept as an object key, whatever a filter returns.
- **`$root` as a key.** `$root` is itself iterated as a key: it is looked up again as a selector inside the scope it narrowed.

## Model

| member | source | states |
|---|---|---|
| `Separators.Split` | index.js:109 | splitting on `\s*\|\s*` always gives at least one piece, and no piece holds a `\|` |
| `Separators.FieldTextBeforeFirstBar` | index.js:109-110 | the field text is the text before the first `\|` minus the whitespace of the separator; it ends in no whitespace and holds no `\|` |
| `Separators.NoBarIsAllField` | index.js:109-112 | with no `\|` the whole expression is the field text and the filter text is empty |
| `Separators.SplitAtSpacedBar` | index.js:109 | when the text before the first `\|` ends in whitespace that follows a piece not ending in whitespace, and only whitespace stands between that `\|` and the rest, the first piece is that text without the whitespace, and splitting goes on with the rest |
| `Separators.SpacedFilter` | index.js:109-112 | `.Header a[href] \| href` has the field text `.Header a[href]` and hands `href` to the tokenizer |
| `Separators.TwoSpacedBars` | index.js:109-112 | for pieces free of `\|` and of whitespace next to the bars, `f \| g \| h` has the field text `f` and hands `g\|h` to the tokenizer, with a bare bar |
| `Separators.JoinSplit` | index.js:109-112 | when no whitespace touches a `\|`, re-joining the pieces with `\|` gives back the expression, so the filter text is exactly what follows the first `\|` |
| `SelectorPattern.LeadingOpens` | index.js:21 | the match starts after the run of leading `[`, since group 1 cannot start on a `[` |
| `SelectorPattern.LastClose` | index.js:21 | group 2 ends at the last `]` before the next `[`, as greedy backtracking leaves it; it is never empty |
| `SelectorPattern.AttributeGroup` | index.js:21 | group 2 takes part exactly when a `]` stands after the first character and before the next `[`; it then runs to the last such `]`, is non-empty, holds no `[`, and is followed by that `]` |
| `SelectorPattern.MatchAt` | index.js:21 | group 1 is the longest run without `[`; the text starts with the selector followed by the bracketed attribute; with no `[` after the selector there is no attribute, and otherwise the attribute is group 2 read after that `[` |
| `SelectorPattern.MatchSelector` | index.js:121 | `match` is `null` exactly when the text is all `[`; otherwise it reads a non-empty selector and an optional non-empty attribute, both free of `[` |
| `SelectorPattern.MatchSelectorWritten` | index.js:121 | the match is read where it is written: right after the leading `[`, the text holds the selector, then the bracketed attribute; the selector stops at the end, where there is no attribute, or at a `[`, after which the attribute is group 2 |
| `SelectorPattern.UnclosedAttribute` | index.js:21 | `a[b` has no closing `]`, so group 2 does not take part: selector `a`, no attribute |
| `SelectorPattern.GreedyAttribute` | index.js:21 | group 2 is greedy: `a[b]c]` has the attribute `b]c` |
| `SelectorPattern.TrailingTextDropped` | index.js:21 | text after the closing `]` is not part of the match: `a[b]x` has the attribute `b` |
| `SelectorPattern.PlainSelector` | index.js:121 | a field text without `[` is all selector, with no attribute |
| `SelectorPattern.SelectorWithAttribute` | index.js:121 | `s[a]` reads back as selector `s` and attribute `a` |
| `SelectorPattern.MatchSelectorText` | index.js:121 | matching inverts writing a selector with an optional attribute |
| `SelectorPattern.LeadingBracketIsSkipped` | index.js:121 | `[class]` gives selector `class]` and no attribute |
| `Filters.Resolve` | index.js:114-119 | only registered tokens are kept, each with its registry function attached; all kept when all are registered, none when none are |
| `Filters.ResolveAppend` | index.js:114-119 | which tokens are kept, and their order, does not depend on the neighbouring tokens |
| `Filters.ResolveSnoc` | index.js:114-119 | a trailing registered token adds its formatter at the end; an unregistered one changes nothing |
| `Filters.ApplyAppend` | index.js:102-106 | running the filters `a + b` runs `a`, then `b` on its output |
| `Filters.ApplySnoc` | index.js:102-106 | with no filters the value is unchanged; the last filter runs last, on the output of all the earlier ones |
| `Schemas.FieldLookup` | index.js:75 | `obj[k]` is absent exactly when no field has key `k`, and otherwise is the schema of a field with key `k` |
| `Schemas.RootSelectorAt` | index.js:71 | with distinct keys, `obj.$root` reads the `$root` field, so that field alone decides whether and how the scope narrows |
| `Interpreter.Parse` | index.js:108-124 | the parsed selector is non-empty and free of `[`, and it and the attribute are what `match` reads from the field text; the formatters are exactly the registered tokens of the filter text, in order, each with its registry function attached |
| `Interpreter.RenderAll` | index.js:63-66 | one rendered value per element, in order |
| `Interpreter.FindAll` | index.js:59-67 | a string yields one value per matched element, in document order, each rendered and filtered |
| `Interpreter.Resolve` | index.js:44-48 | an object schema yields an object, an array schema an array |
| `Interpreter.FindMany` | index.js:59-60 | a non-string schema yields exactly one value |
| `Interpreter.ItemStep` | index.js:52-55 | a string entry appends and an object entry replaces, and nothing else |
| `Interpreter.KeepTruthy` | index.js:77 | at most one entry per candidate, and every kept value is truthy |
| `Interpreter.FillKeys` | index.js:74-78 | the key loop adds at most one entry per field, and every stored value is truthy |
| `Interpreter.Fill` | index.js:70-81 | `fill` yields an object with no more entries than the schema has fields, all with truthy values |
| `Interpreter.Record` | index.js:89-98 | one element contributes at most one record, and never an empty one |
| `Interpreter.FillRecords` | index.js:89-99 | at most one record per element, and none of them empty |
| `Interpreter.FillMany` | index.js:84-100 | at most one record per element of the scope, and never `{}` |
| `Laws.ParseSelectorText` | index.js:108-124 | an expression with no filters written as `sel` or `sel[attr]` parses back to that selector and attribute |
| `Laws.SelectFirstMatch` | index.js:46 | a string schema yields the first rendered match, and `undefined` when nothing matches |
| `Laws.ManyOfSelect` | index.js:53 | `[str]` yields one value per element matched under the first scope element, in order, none dropped, so `[]` when nothing matches |
| `Laws.DescribedAppend` | index.js:53 | a string entry extends the description of the fold by its matches, just as `concat` extends the accumulator |
| `Laws.ReduceDescribed` | index.js:45-56 | folding `collection` from `[]` gives the values of the last replacing step followed by those of every later appending step, and with no replacing step the values of all of them |
| `Laws.CollectLastObjectThenStrings` | index.js:45-56 | the array fold is the records of the last object entry, followed by the matches of every later string entry; with no object entry, the matches of all string entries |
| `Laws.KeepTruthyMembers` | index.js:76-77 | an entry is kept exactly when it is a candidate whose value is truthy |
| `Laws.KeepTruthyOrder` | index.js:74-77 | the kept entries keep the order of the candidates |
| `Laws.KeepTruthyAll` | index.js:77 | nothing is dropped when every value is truthy |
| `Laws.KeepTruthyNone` | index.js:77 | nothing is kept when no value is truthy |
| `Laws.LookupKeepTruthyAbsent` | index.js:74-78 | a key no candidate carries is never set |
| `Laws.LookupKeepTruthyUnique` | index.js:77 | a key only one candidate carries is set, to that candidate's value, exactly when the value is truthy |
| `Laws.FillKeysContents` | index.js:74-78 | the entries of `out` are, in declaration order, exactly the fields whose found value is truthy, each with that value |
| `Laws.FillKeysLookup` | index.js:74-78 | key `k` is present exactly when the value found for its field is truthy, and then holds that value |
| `Laws.FillKeyPresence` | index.js:70-81 | `fill` sets a key exactly when its found value in the narrowed scope is truthy, and sets no key outside the schema |
| `Laws.NestedFieldAlwaysSet` | index.js:60-77 | `findMany` of a nested object or array is the one value of a recursive `xray` with the narrowed scope as root, and that field is always set to it |
| `Laws.RootKeyIsFilled` | index.js:71-77 | `$root` is set when matching it again inside the scope it narrowed yields a truthy value |
| `Laws.FillKeysNoneTruthy` | index.js:77 | when no found value is truthy, no key is set |
| `Laws.FillNothingFound` | index.js:70-81 | an object whose selectors match nothing is `{}` |
| `Laws.ManyOfOneFields` | index.js:54 | `[obj]` is `fillMany(obj)` |
| `Laws.FillRecordsAppend` | index.js:89-99 | records are made element by element: the records of a joined selection are the records of each part, joined |
| `Laws.FillRecordsAllFound` | index.js:89-99 | when every element yields a key, there is one record per element, in order, each filled against that element |
| `Laws.FillRecordsNoneFound` | index.js:97-99 | when no element yields a key, there are no records |
| `Laws.ManyOfFieldsNothingFound` | index.js:84-100 | an array of one object that finds nothing is `[]` |
| `Laws.TopLevelRecordsWithoutRoot` | index.js:85-86 | without `$root` and without a root argument, an array of one object yields at most one record, never `{}` |
| `Laws.ManyOfFieldsWithRoot` | index.js:85-99 | with `$root`, at most one non-empty record per `$root` match |

## Left out

- Loading and matching documents is left out (`cheerio.load`, `$.root()`, CSS matching, text and attribute extraction). These belong to the HTML library, so the document is a record of function values over node numbers.
- `formatParser` is left out. It is an outside tokenizer and is taken as the parameter `Config.tokenize`.
- Runtime type dispatch with `component-type` is replaced by the closed `Schema` datatype. Array entries other than strings and objects, and schema values such as numbers, cannot be written.
- Numbers are integers: floating point and `NaN` are not modelled.
- Registry lookups that reach names inherited from `Object.prototype` are left out. The registry is a map from names to functions, so every entry in it is truthy.
- Interpreter.FillMany: it asks that every selector in the object be parseable even when the scope is empty. In that case the source never parses the keys, so it cannot crash there. Elsewhere `SchemaOk` stands for the crash of `parse` on a field text that `match` rejects.
- SelectorPattern.MatchSelector: its own contract leaves out when group 2 takes part and where it ends. `SelectorPattern.MatchSelectorWritten` states both about `MatchSelector(t)`, and `SelectorPattern.AttributeGroup` pins group 2 itself.
- Schemas.FieldsOk: it asks that `$root`, when present, be a selector string. The source would hand any other value to `find`, which is outside the model.
- Laws.FillKeyPresence: asks for distinct keys, which a JavaScript object has anyway. The same holds for `Laws.FillKeysLookup`, `Laws.NestedFieldAlwaysSet`, `Laws.RootKeyIsFilled`, `Laws.ManyOfFieldsWithRoot` and `Schemas.RootSelectorAt`.
- Options objects, custom separators and patterns, and handler hooks are left out: `index.js` does not implement them. So are the `@attr` and `[html]` syntaxes, reading `[attr]` off the scope element, positional grouping of records without `$root`, and keeping falsy filter results.
- `examples/nested.js` is left out: it fetches over the network and logs.
