# accent-js highlighting engine, in Dafny

accent-js decorates source code shown in a web page with `<span class=…>` markup so that a stylesheet
can colour it. A language is an ordered table of rules. Each rule is a global regular expression and
what each match becomes: a `$n` template, or a function of the match. Highlighting a block of code
runs JavaScript's `String.prototype.replace` once per rule, in table order. Each rule sees the text the
rules before it produced. The library exists in two versions, and both are modelled.

* `accent.js`, the current version:
  * The rules are a `<` escape, then eight rules that wrap their match by a `$n` template, then two
    "reclaim" rules, for strings and comments. Reclaim is `_highlightIgnoreRest`: it replaces each `acc-js` wrapper
    inside the match by its content, then wraps the whole match in one span. Only wrappers whose open
    and close tags lie on one line are stripped, and each open tag is paired with the nearest close tag
    after it, so on nested wrappers the inner open tag survives.
  * The entry point `accent(identifier, lang, theme)` checks its arguments first. It then formats
    each selected node (wraps it in a `<pre>` of class `acc-<theme>`) and parses it (runs the rules).
* `highlight.js`, the older version:
  * It has eleven plain template rules and no escaping.
  * The entry point `highlight(_class, _lang)` only parses.

Modules:

* `Wrappers`: `Option`, `Result` and `Outcome`.
* `Matching`: what a regular expression contributes to `replace`.
  * A `Matcher` answers whether its pattern matches at one position of the buffer, and how. It is
    given the text before the position as context, for `\b`.
  * Concrete matchers cover `<` and `(\d)`, which look at one character, and `q(.*?)q` and
    `(".*?"|'.*?')`, which are built on `FindOnLine`, the lazy `.*?w` that does not cross a line terminator.
    The span-strip pattern of `accent.js` is matched by `Accent.SpanPrefix`, also built on `FindOnLine`.
  * Every other pattern is matched by a `RegexEngine` parameter, which gives a matcher for a regex source.
* `Replace`: `replace` with the global flag.
  * `Scan` splits the buffer into copied characters and leftmost non-overlapping matches.
  * `Output` expands the matches, and `GlobalReplace` is `Output` after `Scan`.
  * `Substitute` is the template language: `$1`…`$9` up to the number of groups, and `$$`.
* `Engine`: a `Rule`, `ByFeature` (one rule), `Apply` (the rule fold), and the `Parse` method. `Parse`
  is the `_parse` loop; it is the same in both versions.
* `Dom`: the host environment, as far as the entry points see it.
  * `Value` is an argument: a string primitive, a `String` object, or anything else.
  * `Element` is a node, with its markup and the classes of the `<pre>` containers around it.
  * `Document` keeps a ghost trace of the format and parse steps run on its nodes.
* `Accent` and `Highlight`: the two versions.
  * Each has its rule table, the lemmas about its concrete rules, its argument checks and its entry
    point as a method.
  * The entry point is proved against the fold: each node's new markup is `Apply` of the language to
    its old markup.
  * The entry point is also proved against the trace: nodes are visited once each, in index order, with
    format before parse.

The argument checks differ between the versions:

* `accent.js` accepts any `String` for the identifier and the language, including the empty string and
  `String` objects. Otherwise it throws an `Error` with the message `Accent.IllegalArgumentsError`. It
  then accepts only `dark` or `light`, compared with `===`, for the theme. Otherwise it throws an `Error`
  with the message `Accent.UnknownThemeError`.
* `highlight.js` accepts only non-empty string primitives for its two arguments. Otherwise it throws an
  `Error` with its own message, `Highlight.IllegalArgumentsError`. It takes no theme and has no theme
  error.

## Model

| member | source | states |
|---|---|---|
| Matching.FindOnLine | accent.js:31 | the lazy `.*?w` result is the first occurrence of w reachable without crossing a line terminator; None exactly when no occurrence is reachable |
| Matching.FindOnLineAt | accent.js:31 | the lazy scan returns any occurrence that is reachable with no earlier occurrence in between |
| Matching.FindOnLineAfter | accent.js:31 | after a stretch on one line that does not contain the first character of w, the lazy scan stops at the w that follows |
| Matching.FindOnLineSkip | accent.js:31 | after a stretch on one line in which no occurrence of w starts, the lazy scan stops at the w that follows |
| Matching.FindOnLineNone | accent.js:31 | when the lazy scan finds nothing, every later occurrence of w lies beyond a line terminator |
| Matching.SkipSpaces | accent.js:31 | the greedy `\s*` ends at the first non-whitespace character and consumes only whitespace |
| Matching.LessThanPrefix | accent.js:46 | `/</` matches exactly at a `<`, one character long |
| Matching.DigitPrefix | highlight.js:57 | `(\d)` matches exactly at a decimal digit, one character long, capturing it |
| Matching.QuotedPrefix | highlight.js:33 | `q(.*?)q` matches from an opening q to the nearest q on the same line, capturing what lies between; with no reachable closing q it does not match |
| Matching.QuotedPrefixOn | highlight.js:36 | a quoted run on one line with no inner quote is matched whole, with its content as group 1 |
| Matching.EitherQuotedPrefix | accent.js:101 | `(".*?"\|'.*?')` matches a double- or single-quoted run on one line and captures it whole |
| Matching.EitherQuotedPrefixOn | accent.js:101 | a quoted literal on one line with no inner quote is matched whole and captured whole |
| Replace.Scan | accent.js:142 | the segments of the scan tile the buffer: matches do not overlap and no character is skipped |
| Replace.ScanUnmatched | accent.js:142 | where the pattern matches at no position, the global replace copies every character |
| Replace.GlobalReplace | accent.js:142 | a pattern that matches nowhere in the text leaves it unchanged |
| Replace.ScanForward | accent.js:142 | for a pattern that does not look behind, the text before the scanned part does not change the scan |
| Replace.ReplaceLeadingMatch | accent.js:142 | a match at the start of the buffer becomes its replacement, and the scan resumes right after it |
| Replace.ReplaceLeadingPlain | accent.js:142 | a prefix at none of whose positions the pattern matches is copied unchanged ahead of the rest |
| Replace.Substitute | accent.js:53 | a template without `$` stands for itself |
| Replace.SubstituteLiteral | accent.js:53 | template text without `$` stands for itself, ahead of the rest of the template |
| Replace.SubstituteGroup | accent.js:53 | `$n` for a group the match has stands for that group |
| Replace.WrapTemplate | accent.js:89 | a template of the form text, `$n`, text expands to group n between the two texts |
| Engine.Apply | accent.js:152-156 | the fold of the rules over the text, each rule on the output of the ones before it; its properties are the lemmas below |
| Engine.ApplyFirst | accent.js:152-156 | the first rule runs on the original text and the remaining rules on its output |
| Engine.ApplyConcat | accent.js:152-156 | running two rule sequences in turn is running their concatenation, so order is strict |
| Engine.ByFeature | accent.js:141-143 | a rule whose pattern matches nowhere in the buffer leaves it unchanged |
| Engine.ApplyNoMatch | highlight.js:74-76 | a language none of whose patterns matches anywhere in the text leaves it unchanged |
| Engine.ApplyEmptyText | highlight.js:69-79 | every language maps the empty text to the empty text |
| Engine.Parse | accent.js:147-160 | the node's new markup is the fold of the rules over its old markup, in declared order; its containers are kept and one parse step is recorded (highlight.js:69-79 is the same loop) |
| Dom.FormatThenParseAt | accent.js:210-216 | in the trace, node k is formatted at step 2k and parsed at step 2k+1, and there are no other steps |
| Dom.ParseEachAt | highlight.js:119-129 | in the trace, node k is parsed at step k, and there are no other steps |
| Accent.SpanPrefix | accent.js:31 | the strip pattern matches exactly when some `>` after `<span\s+class=acc-js` and some `</span>` after it are reachable on one line; it then takes the earliest `>` and the earliest `</span>`, ends after that close tag and captures the text between, in which no `</span>` and no line terminator starts |
| Accent.SpanMatchUnique | accent.js:31 | the strip pattern has at most one match at a position: the earliest way to match is unique |
| Accent.EscapeWith | accent.js:36-40 | the replacement function ignores the match and its groups and always gives the replacement text |
| Accent.EscapeRuleEscapes | accent.js:36-48 | the escape rule equals the reference `EscapeLessThan`: each `<` becomes `&lt;`, every other character is kept in order |
| Accent.EscapedHasNoLessThan | accent.js:45-48 | after escaping, no `<` is left |
| Accent.EscapeWithoutLessThan | accent.js:45-48 | text without `<` is not changed by escaping |
| Accent.EscapeAround | accent.js:45-48 | escaping works piece by piece around each `<` |
| Accent.Javascript | accent.js:42-110 | the table has eleven rules: the escape first, then eight template rules, then the string rule and the comment reclaim rule |
| Accent.Language | accent.js:193 | exactly the name `javascript` has rules, and they are the javascript table |
| Accent.EscapingPrecedesTagging | accent.js:42-48 | the escape rule is first, so the other rules see the escaped text, which contains no `<` |
| Accent.StripSpans | accent.js:31 | a match with no `<span` in it is not changed by the strip |
| Accent.StripWithoutLessThan | accent.js:31 | a match with no `<` is not changed by the strip |
| Accent.SpanPrefixOnWrapper | accent.js:31 | the strip pattern matches a whole accent wrapper and captures exactly its content |
| Accent.NoSpanInPlain | accent.js:31 | the strip pattern matches at no position of a stretch without `<` |
| Accent.StripOneWrapper | accent.js:31 | the strip is one left-to-right pass: plain text before a wrapper is kept, the wrapper becomes its content, and the pass continues after it |
| Accent.StripBeforeClose | accent.js:31 | a close tag with no open tag before it is not stripped |
| Accent.StripNested | accent.js:31 | on nested wrappers the strip pairs the outer open tag with the inner close tag: `<span class=acc-js-a>x<span class=acc-js-b>y</span>z</span>` becomes `x<span class=acc-js-b>yz</span>` |
| Accent.HighlightIgnoreRest | accent.js:29-34 | whatever the match, reclaim's output starts with `<span class=` + class + `>`, ends with `</span>`, and holds the stripped match in between |
| Accent.IgnoreRestWithoutSpans | accent.js:29-34 | a match in which no `<span` starts is wrapped in the reclaiming class unchanged |
| Accent.IgnoreRestReclaims | accent.js:29-34 | a keyword an earlier rule wrapped inside the match loses its wrapper, and the whole match is wrapped in the reclaiming class |
| Accent.StringRuleOnLiteral | accent.js:100-103 | a quoted literal on one line is one match of the string rule, wrapped whole after its inner wrappers are stripped, and the rule goes on after the closing quote |
| Accent.StripLiteral | accent.js:31 | stripping a literal in which an earlier rule wrapped a keyword leaves the literal with the bare keyword |
| Accent.StringRuleReclaims | accent.js:100-103 | a double-quoted literal in which an earlier rule wrapped a keyword becomes one string span with no keyword span inside |
| Accent.FilterPresets | accent.js:200-202 | the filter keeps exactly the presets strictly equal to the theme |
| Accent.SelectTheme | accent.js:200-206 | a theme is selected if and only if it is a string primitive among the presets, and it is that theme |
| Accent.Configure | accent.js:188-206 | identifier and language must be strings, checked first, with the illegal-arguments error; then the theme must be a preset, with the unknown-theme error; on success the configuration carries the language's text and the selected theme |
| Accent.IsString | accent.js:177-180 | `_is(obj, 'String')`: the class tag is `String`; its cases are the next row |
| Accent.IsStringCases | accent.js:177-180 | every string primitive, the empty one included, and every `String` object passes the check; no other value does |
| Accent.FormatAndParse | accent.js:212-215 | one turn of the entry loop: the node's markup becomes the fold of the rules over its old markup, it gains the theme's container, and the trace gains a format step and then a parse step for it |
| Accent.Format | accent.js:126-134 | the node gains an innermost container of class `acc-` + theme, its markup is kept, and one format step is recorded |
| Accent.FormatAndParseEach | accent.js:210-216 | every node's markup becomes the fold of the rules over its old markup, every node gains the theme's container, and the trace records format then parse for each node in index order |
| Accent.Accent | accent.js:186-217 | on a failed check, the error is thrown and no node or trace is touched; otherwise every node is formatted and then parsed with the language's rules, in order, and an unknown language leaves every node's markup unchanged |
| Highlight.Javascript | highlight.js:19-59 | the table has eleven rules, each a template rule, and the number rule is last |
| Highlight.Language | highlight.js:111 | exactly the name `javascript` has rules, and they are the javascript table |
| Highlight.NumbersLast | highlight.js:57 | the number rule is the last rule, so every digit of the output of the other rules is wrapped |
| Highlight.WrapFirstGroup | highlight.js:57 | a `$1` template between two `$`-free texts expands to group 1 between them |
| Highlight.DoubleStrWraps | highlight.js:33 | the double-quoted rule keeps both quotes and the content inside `<span class=js-double-str>`, and scanning goes on after the closing quote |
| Highlight.SingleStrWraps | highlight.js:36 | the single-quoted rule keeps both quotes and the content inside `<span class=js-single-str>`, and scanning goes on after the closing quote |
| Highlight.DoubleStrWithoutQuotes | highlight.js:33 | text without a double quote is not changed by the double-quoted rule |
| Highlight.NumberLiteralOnDigit | highlight.js:57 | a leading digit is wrapped in a numeric span, and the scan goes on after it |
| Highlight.NumberLiteralOnOther | highlight.js:57 | a leading non-digit is kept, and the scan goes on after it |
| Highlight.NumberLiteralWrapsDigits | highlight.js:57 | the number rule equals the reference `WrapDigits`: each digit individually in `<span class=js-numeric>`, every other character kept in order |
| Highlight.WrapDigitsWithoutDigits | highlight.js:57 | text without digits is not changed by the number rule |
| Highlight.WrapDigitsConcat | highlight.js:57 | the number rule works piece by piece |
| Highlight.IsNonEmptyString | highlight.js:101-107 | `_cl && typeof _cl === 'string'`; its cases are the next row |
| Highlight.IsNonEmptyStringCases | highlight.js:101-107 | the empty string and every `String` object fail the check, every non-empty string primitive passes, and no other value does |
| Highlight.Configure | highlight.js:101-114 | the check succeeds if and only if both arguments are non-empty string primitives; otherwise it fails with the illegal-arguments error |
| Highlight.ParseEachNode | highlight.js:119-129 | every node's markup becomes the fold of the rules over its old markup, containers are kept, and the trace records one parse per node in index order |
| Highlight.Highlight | highlight.js:95-130 | on a failed check, the error is thrown and no node or trace is touched; otherwise every node is parsed with the language's rules, in order, nothing is wrapped, and an unknown language leaves every node's markup unchanged |

## Left out

- Every pattern of both tables other than the escape, digit, quoted-string and span-strip patterns is not modelled: in `accent.js` the `regExp`, `operation`, `declaration`, `specials`, `global`, `types`, `number` and `inlineCom` patterns; in `highlight.js` the `regExp`, `inlineCom`, `multiLineCom`, `basicOps`, `assignment`, `global`, `empty` and `types` patterns. They use `\b`, lookaheads and backtracking. They are matched by the `RegexEngine` parameter, and only their source text is kept.
- Empty matches are not modelled. A `Matcher` always consumes at least one character. None of the modelled patterns can match empty, and JavaScript's step-past-empty-match rule is not modelled.
- Template references `$&`, `` $` ``, `$'` and `$<name>` are not modelled; they stand for themselves here. No template in either rule table uses them.
- Two-digit `$nn` references are not modelled. With fewer than ten groups they differ from `$n` followed by a digit only for `$0n`, which JavaScript reads as group n and the model keeps as literal text; no template in either table uses `$0`. A `$n` beyond the group count stands for itself, as in JavaScript.
- Replacement functions receive the match and its groups. They do not receive the offset and the whole string, which no function in the source reads.
- The DOM is left out: `getElementsByClassName`, `createElement`, `replaceChild`, `appendChild`, `parentNode`, and the browser's serialisation of `innerHTML`.
  - The selected nodes are passed in as a sequence of distinct elements.
  - Wrapping in a `<pre>` is recorded as a class name added to the element's containers.
  - The live collection that `getElementsByClassName` returns is treated as fixed during the loop. In the source it is not: when the identifier names the theme's class, as in `accent('acc-dark', 'javascript', 'dark')`, each pass adds a `<pre class=acc-dark>` ahead of the current node (accent.js:132), the collection grows by one, and the loop at accent.js:210-216 visits the same node again without end. The model visits each given node once.
  - The selected nodes are treated as disjoint. When one selected node lies inside another, writing the outer node's `innerHTML` (accent.js:159, highlight.js:78) replaces the inner node by a fresh copy that is already highlighted, and the loop then highlights that copy a second time. The model makes each node's new markup the fold of the rules over its own old markup, independently of the other nodes.
- `_is` in `accent.js` reads the tag from `Object.prototype.toString`. An object that fakes the `String` tag through `Symbol.toStringTag` is modelled as not a string.
- A `lang` that names an inherited property of the language object, such as `constructor`, is modelled as having no rules. In JavaScript it also selects an object with no enumerable rules, so the markup stays unchanged in both models.
- Object key order in the rule tables is modelled as the declared order.
- `highlight.js` computes `isNodePreformatted` on each node's parent and never uses it. The model omits it. Every selected node has a parent, so the read cannot throw.
- The `window.accent` and `window.highlight` exports are not modelled.
- JavaScript strings are sequences of UTF-16 code units; the model's `string` is a sequence of Unicode scalar values. A lone surrogate cannot be represented, and a character outside the Basic Multilingual Plane takes one position here instead of two. The modelled patterns compare surrogates with nothing but `.`, which crosses a surrogate pair as it crosses any other character, so the matched text is the same and only positions and lengths differ.
