/**
 * accent.js: the current version of the library. The `javascript` language, the two replacement
 * constructors it is built from, the format and parse steps, and the `accent` entry point.
 */
module Accent {
  import opened Wrappers
  import opened Matching
  import opened Replace
  import opened Engine
  import opened Dom

  // ---------------------------------------------------------------------------------------------
  // Replacement constructors

  /** `_escapeWith(replacement)`: a replacement function that ignores the match. */
  function EscapeWith(replacement: string): (r: Replacement)
    ensures forall matched, groups :: Expand(r, matched, groups) == replacement
  {
    Function((matched: string, groups: seq<string>) => replacement)
  }

  /** The start of the open tag: `<span`, whitespace, then `class=acc-js`. */
  predicate SpanOpens(t: string)
  {
    StartsAt(t, 0, "<span") && SkipSpaces(t, 5) > 5 && StartsAt(t, SkipSpaces(t, 5), "class=acc-js")
  }

  /**
   * The span pattern can match at the start of t with the open tag's `>` at gt and the close tag at e:
   * both come after `class=acc-js`, and no line terminator lies between there and the close tag.
   */
  predicate SpanAt(t: string, gt: nat, e: nat)
  {
    SpanOpens(t) && SkipSpaces(t, 5) + 12 <= gt < e && StartsAt(t, gt, ">") && StartsAt(t, e, "</span>") &&
    NoBreak(t, SkipSpaces(t, 5) + 12, e)
  }

  /** (gt, e) is the earliest way the span pattern can match: the earliest `>`, then the earliest `</span>`. */
  ghost predicate EarliestSpan(t: string, gt: nat, e: nat)
  {
    SpanAt(t, gt, e) && forall gt2: nat, e2: nat :: SpanAt(t, gt2, e2) ==> gt < gt2 || (gt == gt2 && e <= e2)
  }

  /** The span pattern cannot match at the start of t. */
  ghost predicate NoSpan(t: string)
  {
    forall gt: nat, e: nat :: !SpanAt(t, gt, e)
  }

  /** Without its open tag's start, the span pattern cannot match. */
  lemma NoSpanWithoutOpen(t: string)
    ensures !SpanOpens(t) ==> NoSpan(t)
  {
  }

  /**
   * m is the match the span pattern makes at the start of t: it runs to the end of the close tag of the
   * earliest way to match, and captures the text between the open tag's `>` and that close tag, in which
   * no `</span>` and no line terminator starts.
   */
  ghost predicate SpanMatch(t: string, m: Match)
  {
    |m.groups| == 1 && |m.groups[0]| + 8 <= m.len &&
    var e := m.len - 7;
    var gt := e - |m.groups[0]| - 1;
    EarliestSpan(t, gt, e) && m.groups[0] == t[gt + 1..e] && Clear(t, gt + 1, e, "</span>")
  }

  /** The first reachable `>`, and the first reachable `</span>` after it, are the earliest way to match. */
  lemma EarliestFirst(t: string, gt: nat, e: nat)
    requires SpanOpens(t)
    requires FindOnLine(t, SkipSpaces(t, 5) + 12, ">") == Some(gt) && FindOnLine(t, gt + 1, "</span>") == Some(e)
    ensures EarliestSpan(t, gt, e) && Clear(t, gt + 1, e, "</span>")
  {
    var k := SkipSpaces(t, 5) + 12;
    StartsAtHead(t, gt, ">");
    assert NoBreak(t, k, e) by {
      forall x | k <= x < e && x < |t| ensures !IsLineTerminator(t[x]) {
        if x < gt {
          assert Clear(t, k, gt, ">");
        } else if gt < x {
          assert Clear(t, gt + 1, e, "</span>");
        }
      }
    }
    assert SpanAt(t, gt, e);
    assert Clear(t, k, gt, ">") && Clear(t, gt + 1, e, "</span>");
    forall gt2: nat, e2: nat | SpanAt(t, gt2, e2) ensures gt < gt2 || (gt == gt2 && e <= e2) {
    }
  }

  /** The earliest way to match, with nothing to stop it inside, gives the match that ends after its close tag. */
  lemma SpanMatchOf(t: string, gt: nat, e: nat)
    requires EarliestSpan(t, gt, e) && Clear(t, gt + 1, e, "</span>")
    ensures e + 7 <= |t| && SpanMatch(t, Match(e + 7, [t[gt + 1..e]])) && !NoSpan(t)
  {
    var m := Match(e + 7, [t[gt + 1..e]]);
    assert m.len - 7 == e && m.len - 7 - |m.groups[0]| - 1 == gt;
  }

  /** The match that runs to the end of the earliest close tag and captures what lies before it. */
  lemma SpanAtFirst(t: string, gt: nat, e: nat)
    requires SpanOpens(t)
    requires FindOnLine(t, SkipSpaces(t, 5) + 12, ">") == Some(gt) && FindOnLine(t, gt + 1, "</span>") == Some(e)
    ensures e + 7 <= |t| && SpanMatch(t, Match(e + 7, [t[gt + 1..e]])) && !NoSpan(t)
  {
    EarliestFirst(t, gt, e);
    SpanMatchOf(t, gt, e);
  }

  /** Without a reachable `>` after `class=acc-js`, the span pattern cannot match. */
  lemma NoSpanAtWithoutTagEnd(t: string)
    ensures SpanOpens(t) && FindOnLine(t, SkipSpaces(t, 5) + 12, ">").None? ==> NoSpan(t)
  {
    var k := SkipSpaces(t, 5) + 12;
    forall gt: nat, e: nat ensures SpanOpens(t) && FindOnLine(t, k, ">").None? ==> !SpanAt(t, gt, e) {
      FindOnLineNone(t, k, gt, ">");
    }
  }

  /** Without a reachable `</span>` after the first reachable `>`, the span pattern cannot match. */
  lemma NoSpanAtWithoutClose(t: string, gt: nat)
    ensures SpanOpens(t) && FindOnLine(t, SkipSpaces(t, 5) + 12, ">") == Some(gt) && FindOnLine(t, gt + 1, "</span>").None? ==>
      NoSpan(t)
  {
    var k := SkipSpaces(t, 5) + 12;
    forall gt2: nat, e2: nat
      ensures SpanOpens(t) && FindOnLine(t, k, ">") == Some(gt) && FindOnLine(t, gt + 1, "</span>").None? ==>
        !SpanAt(t, gt2, e2)
    {
      FindOnLineNone(t, gt + 1, e2, "</span>");
    }
  }

  /**
   * `\<span\s+class=acc-js.*?>(.*?)<\/span>` at the start of t: the open tag up to its first `>`, then
   * the text up to the nearest `</span>`, captured, all on one line. Backtracking to a later `>` cannot
   * help: the nearest `</span>` after it would lie on the same line after the first one. So the pattern
   * matches exactly when some `>` and `</span>` can be reached, and then takes the earliest such pair.
   */
  function SpanPrefix(t: string): (r: Option<Match>)
    ensures Fits(r, t)
    ensures r.None? <==> NoSpan(t)
    ensures r.Some? ==> SpanMatch(t, r.value)
  {
    NoSpanWithoutOpen(t);
    if !StartsAt(t, 0, "<span") then None
    else
      var k := SkipSpaces(t, 5);
      if k == 5 || !StartsAt(t, k, "class=acc-js") then None
      else
        match FindOnLine(t, k + 12, ">")
        case None =>
          NoSpanAtWithoutTagEnd(t);
          None
        case Some(gt) =>
          match FindOnLine(t, gt + 1, "</span>")
          case None =>
            NoSpanAtWithoutClose(t, gt);
            None
          case Some(e) =>
            SpanAtFirst(t, gt, e);
            Some(Match(e + 7, [t[gt + 1..e]]))
  }

  /** The markup of earlier rules, as `_highlightIgnoreRest` finds it. */
  const SpanTag: Pattern := Forward(@"/\<span\s+class=acc-js.*?>(.*?)<\/span>/g", SpanPrefix)

  /** Where no `<span` starts, the span pattern matches nowhere. */
  lemma SpanTagNowhere(m: string)
    ensures (forall j :: 0 <= j < |m| ==> !StartsAt(m, j, "<span")) ==> MatchesNowhere(SpanTag, m)
  {
    forall i | 0 <= i < |m| ensures !StartsAt(m, i, "<span") ==> SpanTag.at(m[..i], m[i..]).None? {
      assert SpanTag.at(m[..i], m[i..]) == SpanPrefix(m[i..]);
      StartsAtSuffix(m, i, 0, "<span");
    }
  }

  /**
   * `match.replace(SpanTag, '$1')`: each earlier rule's wrapper in the match replaced by what it wraps.
   * Where no `<span` starts, there is nothing to strip.
   */
  function StripSpans(matched: string): (r: string)
    ensures (forall j :: 0 <= j < |matched| ==> !StartsAt(matched, j, "<span")) ==> r == matched
  {
    SpanTagNowhere(matched);
    GlobalReplace(matched, SpanTag, Template("$1"))
  }

  /** open + inner + `</span>` opens with open and ends with the close tag. */
  lemma OneSpan(open: string, inner: string)
    ensures var r := open + inner + "</span>";
      |open| + 7 <= |r| && r[..|open|] == open && r[|r| - 7..] == "</span>" && r[|open|..|r| - 7] == inner
  {
    var r := open + inner + "</span>";
    assert r[..|open|] == open;
    assert r[|r| - 7..] == "</span>";
    assert r[|open|..|r| - 7] == inner;
  }

  /**
   * `_highlightIgnoreRest(syntaxClass)`: a replacement function that strips the wrappers found in the
   * match and wraps the result in a span of the given class. Whatever the match, the replacement is
   * one span of that class: it opens with the class's tag, ends with `</span>`, and holds the stripped
   * match in between.
   */
  function HighlightIgnoreRest(syntaxClass: string): (r: Replacement)
    ensures forall matched, groups :: var open := "<span class=" + syntaxClass + ">";
      var x := Expand(r, matched, groups);
      |open| + 7 <= |x| && x[..|open|] == open && x[|x| - 7..] == "</span>" &&
      x[|open|..|x| - 7] == StripSpans(matched)
  {
    var open := "<span class=" + syntaxClass + ">";
    assert forall matched: string :: var x := open + StripSpans(matched) + "</span>";
      |open| + 7 <= |x| && x[..|open|] == open && x[|x| - 7..] == "</span>" &&
      x[|open|..|x| - 7] == StripSpans(matched)
    by {
      forall matched: string { OneSpan(open, StripSpans(matched)); }
    }
    Function((matched: string, groups: seq<string>) => open + StripSpans(matched) + "</span>")
  }

  // ---------------------------------------------------------------------------------------------
  // The javascript language

  const EscapeHtmlOpen: Rule := Rule("escapeHTMLOpen", Forward("/</g", LessThanPrefix), EscapeWith("&lt;"))

  const StringClass: string := "acc-js-string"

  const StringRule: Rule :=
    Rule("string", Forward(@"/("".*?""|'.*?')/g", EitherQuotedPrefix), HighlightIgnoreRest(StringClass))

  // The sources of the patterns the host's engine matches, and their templates.

  const RegExpSource: string := @"/(\/.+?\/(\s|,|\]|;|\/|g|i|m|y))/g"
  const RegExpTemplate: string := "<span class=acc-js-regexp>$1</span>"

  const OperationSource: string := @"/\b(if|else|continue|switch|case|default|break|return|for|try|catch|throw)(?=[^\w])/g"
  const OperationTemplate: string := "<span class=acc-js-operation>$1</span>"

  const DeclarationSource: string := @"/(\bfunction|var|const|in|new|this|prototype)(?=[^\w])/g"
  const DeclarationTemplate: string := "<span class=acc-js-declaration>$1</span>"

  const SpecialsSource: string := @"/(\.\bgetElementById|getElementsBy(ClassName|TagName|Name)|(type|instance)of|hasOwnProperty)/g"
  const SpecialsTemplate: string := "<span class=acc-js-special>$1</span>"

  const DomMethodsSource: string := @"/(\.\binnerHTML|createElement|parentNode|innerHTML|(append|replace)Child)(?=[^\w])/g"
  const DomMethodsTemplate: string := "<span class=acc-js-dom>$1</span>"

  const GlobalSource: string := @"/\b(window|console|document)/g"
  const GlobalTemplate: string := "<span class=acc-js-global>$1</span>"

  const TypesSource: string := @"/([^\w])\b(Array|String|Function|Object|Number|Date|Boolean|Error|RegExp|Math|null|undefined|true|false)(?=[^\w])/g"
  const TypesTemplate: string := "$1<span class=acc-js-type>$2</span>"

  const NumberSource: string := @"/(-{0,1}\d+\.{0,1}\d+|-{0,1}0x\w+)(?=[^\w])/g"
  const NumberTemplate: string := "<span class=acc-js-numeric>$1</span>"

  const InlineCommentSource: string := @"/(\/{2}.*?\n+|\/\*(.|[\r\n])*\*\/)/g"

  /**
   * `_language['javascript']`, in the order its features are declared. Patterns other than the escape
   * and string patterns are matched by the host's engine. The escape comes first, then eight rules that
   * wrap their match by a template, then the two reclaim rules, strings before comments.
   */
  function Javascript(engine: RegexEngine): (r: seq<Rule>)
    ensures |r| == 11 && r[0] == EscapeHtmlOpen
    ensures forall k :: 1 <= k <= 8 ==> r[k].replacement.Template?
    ensures r[9] == StringRule && r[10].replacement == HighlightIgnoreRest("acc-js-comment")
  {
    [ EscapeHtmlOpen,
      Rule("regExp", Host(engine, RegExpSource), Template(RegExpTemplate)),
      Rule("operation", Host(engine, OperationSource), Template(OperationTemplate)),
      Rule("declaration", Host(engine, DeclarationSource), Template(DeclarationTemplate)),
      Rule("specials", Host(engine, SpecialsSource), Template(SpecialsTemplate)),
      Rule("dom methods", Host(engine, DomMethodsSource), Template(DomMethodsTemplate)),
      Rule("global", Host(engine, GlobalSource), Template(GlobalTemplate)),
      Rule("types", Host(engine, TypesSource), Template(TypesTemplate)),
      Rule("number", Host(engine, NumberSource), Template(NumberTemplate)),
      StringRule,
      Rule("inlineCom", Host(engine, InlineCommentSource), HighlightIgnoreRest("acc-js-comment"))
    ]
  }

  /** `language[lang]`: the rules registered under a name; a name with no language has no rules. */
  function Language(engine: RegexEngine, name: string): (r: seq<Rule>)
    ensures r == [] <==> name != "javascript"
    ensures name == "javascript" ==> r == Javascript(engine)
  {
    if name == "javascript" then Javascript(engine) else []
  }

  // ---------------------------------------------------------------------------------------------
  // The escape rule

  /** Every `<` replaced by `&lt;`, every other character kept in place. */
  function EscapeLessThan(s: string): string
  {
    if s == [] then ""
    else (if s[0] == '<' then "&lt;" else [s[0]]) + EscapeLessThan(s[1..])
  }

  /** The escape rule is EscapeLessThan. */
  lemma {:induction false} EscapeRuleEscapes(s: string)
    ensures ByFeature(s, EscapeHtmlOpen) == EscapeLessThan(s)
  {
    if s != [] {
      var rule := EscapeHtmlOpen;
      assert s == s[..1] + s[1..];
      if s[0] == '<' {
        ReplaceLeadingMatch(s[..1], s[1..], rule.pattern.source, LessThanPrefix, rule.replacement, Match(1, []));
      } else {
        ReplaceLeadingPlain(s[..1], s[1..], rule.pattern.source, LessThanPrefix, rule.replacement);
      }
      EscapeRuleEscapes(s[1..]);
    }
  }

  /** After escaping, no `<` is left. */
  lemma {:induction false} EscapedHasNoLessThan(s: string)
    ensures '<' !in EscapeLessThan(s)
  {
    if s != [] {
      EscapedHasNoLessThan(s[1..]);
    }
  }

  /** Text without `<` is not changed by escaping. */
  lemma {:induction false} EscapeWithoutLessThan(s: string)
    requires '<' !in s
    ensures EscapeLessThan(s) == s
  {
    if s != [] {
      assert s[1..] == s[|s[..1]|..];
      EscapeWithoutLessThan(s[1..]);
      assert s == [s[0]] + s[1..];
    }
  }

  /** Escaping works piece by piece: text around a `<` is escaped on its own. */
  lemma {:induction false} EscapeAround(a: string, b: string)
    ensures EscapeLessThan(a + "<" + b) == EscapeLessThan(a) + "&lt;" + EscapeLessThan(b)
  {
    if a == [] {
      assert a + "<" + b == "<" + b;
      assert ("<" + b)[1..] == b;
    } else {
      assert (a + "<" + b)[0] == a[0] && (a + "<" + b)[1..] == a[1..] + "<" + b;
      EscapeAround(a[1..], b);
    }
  }

  /**
   * Escaping comes first: every rule after it sees the text with each `<` of the source escaped,
   * so that only markup the rules insert contains `<`.
   */
  lemma EscapingPrecedesTagging(engine: RegexEngine, text: string)
    ensures Javascript(engine)[0] == EscapeHtmlOpen
    ensures Apply(Javascript(engine), text) == Apply(Javascript(engine)[1..], EscapeLessThan(text))
    ensures '<' !in EscapeLessThan(text)
  {
    var rules := Javascript(engine);
    assert rules == [rules[0]] + rules[1..];
    ApplyFirst(rules[0], rules[1..], text);
    EscapeRuleEscapes(text);
    EscapedHasNoLessThan(text);
  }

  // ---------------------------------------------------------------------------------------------
  // The reclaim replacement

  /** The open tag the accent templates produce, for a class `acc-js` + suffix. */
  function OpenTag(suffix: string): string
  {
    "<span class=acc-js" + suffix + ">"
  }

  /** The wrapper an accent template puts around a highlighted token. */
  function Wrapper(suffix: string, inner: string): string
  {
    OpenTag(suffix) + inner + "</span>"
  }

  /** Text without `<` has nothing to strip. */
  lemma StripWithoutLessThan(m: string)
    requires '<' !in m
    ensures StripSpans(m) == m
  {
    forall j | 0 <= j < |m| ensures !StartsAt(m, j, "<span") {
      StartsAtHead(m, j, "<span");
    }
  }

  /** Text without `<`, then a close tag, has nothing to strip: the close tag does not open a span. */
  lemma StripBeforeClose(z: string)
    requires '<' !in z
    ensures StripSpans(z + "</span>") == z + "</span>"
  {
    var tail := "/span>";
    var m := z + "</span>";
    assert m == z + "<" + tail;
    assert '<' !in tail;
    forall j | 0 <= j < |m| ensures !StartsAt(m, j, "<span") {
      StartsAtHead(m, j, "<span");
      StartsAtIndex(m, j, "<span", 1);
      if j < |z| {
        assert m[j] == z[j];
      } else if j == |z| {
        assert m[j + 1] == tail[0] == '/';
      } else {
        assert m[j] == tail[j - |z| - 1];
      }
    }
  }

  /** The open tag passes the part of the pattern before `.*?>`. */
  lemma OpenTagStart(suffix: string, rest: string)
    ensures var t := OpenTag(suffix) + rest;
      StartsAt(t, 0, "<span") && SkipSpaces(t, 5) == 6 && StartsAt(t, 6, "class=acc-js")
  {
    var t := OpenTag(suffix) + rest;
    var head := "<span class=acc-js";
    assert t == head + (suffix + ">" + rest);
    assert t[..5] == head[..5] == "<span";
    assert t[5] == ' ' && t[6] == 'c';
    assert t[6..18] == head[6..18] == "class=acc-js";
  }

  /** The span pattern's match is unique: there is one earliest way to match. */
  lemma SpanMatchUnique(t: string, m1: Match, m2: Match)
    requires SpanMatch(t, m1) && SpanMatch(t, m2)
    ensures m1 == m2
  {
    assert m1.groups == [m1.groups[0]] && m2.groups == [m2.groups[0]];
  }

  /** SpanPrefix matches once its pieces are found: the open tag up to `>` at gt, the close tag at e. */
  lemma SpanPrefixFound(t: string, gt: nat, e: nat)
    requires StartsAt(t, 0, "<span") && SkipSpaces(t, 5) == 6 && StartsAt(t, 6, "class=acc-js")
    requires FindOnLine(t, 18, ">") == Some(gt) && FindOnLine(t, gt + 1, "</span>") == Some(e)
    ensures SpanPrefix(t) == Some(Match(e + 7, [t[gt + 1..e]]))
  {
    SpanAtFirst(t, gt, e);
    SpanMatchUnique(t, SpanPrefix(t).value, Match(e + 7, [t[gt + 1..e]]));
  }

  /** No `</span>` starts inside inner, not even one running on into a close tag that follows it. */
  predicate CloseFree(inner: string)
  {
    forall x :: 0 <= x < |inner| ==> !StartsAt(inner + "</span>", x, "</span>")
  }

  /** Text without `<` holds no close tag. */
  lemma CloseFreeWithoutLessThan(inner: string)
    requires '<' !in inner
    ensures CloseFree(inner)
  {
    forall x | 0 <= x < |inner| ensures !StartsAt(inner + "</span>", x, "</span>") {
      StartsAtHead(inner + "</span>", x, "</span>");
      assert (inner + "</span>")[x] == inner[x];
    }
  }

  /** An open tag between texts without `<` holds no close tag: its `<` is followed by `s`, not `/`. */
  lemma CloseFreeAroundTag(x: string, b: string, y: string)
    requires '<' !in x && '<' !in b && '<' !in y
    ensures CloseFree(x + OpenTag(b) + y)
  {
    var inner := x + OpenTag(b) + y;
    var tail := "span class=acc-js" + b + ">";
    var t := inner + "</span>";
    assert t == x + "<" + tail + y + "</span>";
    assert '<' !in tail;
    forall p | 0 <= p < |inner| ensures !StartsAt(t, p, "</span>") {
      StartsAtHead(t, p, "</span>");
      StartsAtIndex(t, p, "</span>", 1);
      if p < |x| {
        assert t[p] == x[p];
      } else if p == |x| {
        assert t[p + 1] == tail[0] == 's';
      } else if p <= |x| + |tail| {
        assert t[p] == tail[p - |x| - 1];
      } else {
        assert t[p] == y[p - |x| - 1 - |tail|];
      }
    }
  }

  /** SpanPrefix on a wrapper an accent template produced: it matches the whole wrapper and captures its content. */
  lemma SpanPrefixOnWrapper(suffix: string, inner: string, v: string)
    requires '>' !in suffix && OnOneLine(suffix)
    requires CloseFree(inner) && OnOneLine(inner)
    ensures SpanPrefix(Wrapper(suffix, inner) + v) == Some(Match(|Wrapper(suffix, inner)|, [inner]))
  {
    var head := "<span class=acc-js";
    var t := Wrapper(suffix, inner) + v;
    var gt := 18 + |suffix|;
    var e := gt + 1 + |inner|;
    assert |Wrapper(suffix, inner)| == e + 7;
    OpenTagStart(suffix, inner + "</span>" + v);
    assert t == OpenTag(suffix) + (inner + "</span>" + v);
    assert t == head + suffix + ">" + (inner + "</span>" + v);
    FindOnLineAfter(head, suffix, ">", inner + "</span>" + v);
    assert t == OpenTag(suffix) + inner + "</span>" + v;
    FindOnLineSkip(OpenTag(suffix), inner, "</span>", v);
    assert t[gt + 1..e] == inner;
    SpanPrefixFound(t, gt, e);
    assert Match(e + 7, [t[gt + 1..e]]) == Match(|Wrapper(suffix, inner)|, [inner]);
  }

  /** SpanPrefix matches at no position of a stretch without `<`. */
  lemma NoSpanInPlain(u: string, rest: string)
    requires '<' !in u
    ensures forall j :: 0 <= j < |u| ==> SpanPrefix((u + rest)[j..]).None?
  {
    var t := u + rest;
    forall j | 0 <= j < |u| ensures SpanPrefix(t[j..]).None? {
      StartsAtSuffix(t, j, 0, "<span");
      StartsAtHead(t, j, "<span");
      assert t[j] == u[j];
    }
  }

  /** The strip's template `$1` stands for the wrapped text. */
  lemma FirstGroupTemplate(inner: string)
    ensures Substitute("$1", [inner]) == inner
  {
    WrapTemplate("", '1', "", [inner]);
    assert "" + ['$', '1'] + "" == "$1";
    assert "" + inner + "" == inner;
  }

  /**
   * The strip is one left-to-right pass: text before the first `<` is kept, and a wrapper an accent
   * template produced is replaced by what it wraps; the pass then goes on after the wrapper.
   */
  lemma StripOneWrapper(u: string, suffix: string, inner: string, v: string)
    requires '<' !in u
    requires '>' !in suffix && OnOneLine(suffix)
    requires CloseFree(inner) && OnOneLine(inner)
    ensures StripSpans(u + Wrapper(suffix, inner) + v) == u + inner + StripSpans(v)
  {
    var x := Wrapper(suffix, inner);
    var rep := Template("$1");
    assert u + x + v == u + (x + v);
    NoSpanInPlain(u, x + v);
    ReplaceLeadingPlain(u, x + v, SpanTag.source, SpanPrefix, rep);
    SpanPrefixOnWrapper(suffix, inner, v);
    ReplaceLeadingMatch(x, v, SpanTag.source, SpanPrefix, rep, Match(|x|, [inner]));
    FirstGroupTemplate(inner);
    Associative(u, inner, StripSpans(v));
  }

  /**
   * Nested wrappers: the strip pairs the outer open tag with the nearest `</span>`, which closes the inner
   * wrapper. So the inner open tag survives, the inner close tag goes, and the outer close tag is kept
   * after the text that follows the inner wrapper.
   */
  lemma StripNested(a: string, x: string, b: string, y: string, z: string)
    requires '>' !in a && OnOneLine(a)
    requires '<' !in x && '<' !in b && '<' !in y && '<' !in z
    requires OnOneLine(x) && OnOneLine(b) && OnOneLine(y)
    ensures StripSpans(Wrapper(a, x + Wrapper(b, y) + z)) == x + OpenTag(b) + y + z + "</span>"
  {
    var inner := x + OpenTag(b) + y;
    NestedRegroup(a, x, b, y, z);
    CloseFreeAroundTag(x, b, y);
    OpenTagOnOneLine(x, b, y);
    StripOneWrapper("", a, inner, z + "</span>");
    StripBeforeClose(z);
  }

  /** The nested wrapper read as one outer wrapper around the inner open tag, then the rest. */
  lemma NestedRegroup(a: string, x: string, b: string, y: string, z: string)
    ensures Wrapper(a, x + Wrapper(b, y) + z) == "" + Wrapper(a, x + OpenTag(b) + y) + (z + "</span>")
    ensures "" + (x + OpenTag(b) + y) + (z + "</span>") == x + OpenTag(b) + y + z + "</span>"
  {
  }

  /** Text on one line around an open tag on one line is on one line. */
  lemma OpenTagOnOneLine(x: string, b: string, y: string)
    requires OnOneLine(x) && OnOneLine(b) && OnOneLine(y)
    ensures OnOneLine(x + OpenTag(b) + y)
  {
    assert OnOneLine(OpenTag(b));
  }

  /** A match in which no `<span` starts is wrapped unchanged. */
  lemma IgnoreRestWithoutSpans(syntaxClass: string, matched: string, groups: seq<string>)
    ensures (forall j :: 0 <= j < |matched| ==> !StartsAt(matched, j, "<span")) ==>
      Expand(HighlightIgnoreRest(syntaxClass), matched, groups) == "<span class=" + syntaxClass + ">" + matched + "</span>"
  {
  }

  /**
   * Reclaim erases a nested false positive: a keyword an earlier rule wrapped inside the match loses its
   * wrapper, and the match is wrapped whole in the reclaiming class.
   */
  lemma IgnoreRestReclaims(syntaxClass: string, u: string, suffix: string, keyword: string, v: string, groups: seq<string>)
    requires '<' !in u && '<' !in keyword && '<' !in v
    requires '>' !in suffix && OnOneLine(suffix) && OnOneLine(keyword)
    ensures Expand(HighlightIgnoreRest(syntaxClass), u + Wrapper(suffix, keyword) + v, groups)
         == "<span class=" + syntaxClass + ">" + (u + keyword + v) + "</span>"
  {
    CloseFreeWithoutLessThan(keyword);
    StripOneWrapper(u, suffix, keyword, v);
    StripWithoutLessThan(v);
  }

  /** No character of s is a double quote, a `<` or a line terminator. */
  predicate PlainInString(s: string)
  {
    '"' !in s && '<' !in s && OnOneLine(s)
  }

  /**
   * A string literal on one line is one match of the string rule, wrapped whole after its inner wrappers
   * are stripped; the rule then goes on after the closing quote.
   */
  lemma StringRuleOnLiteral(q: char, body: string, v: string)
    requires q == '"' || q == '\''
    requires q !in body && OnOneLine(body)
    ensures ByFeature([q] + body + [q] + v, StringRule)
         == "<span class=" + StringClass + ">" + StripSpans([q] + body + [q]) + "</span>" + ByFeature(v, StringRule)
  {
    var t := [q] + body + [q];
    EitherQuotedPrefixOn(q, body, v);
    ReplaceLeadingMatch(t, v, StringRule.pattern.source, EitherQuotedPrefix, StringRule.replacement, Match(|t|, [t]));
  }

  /** A text that is one string literal on one line becomes one string span. */
  lemma StringRuleOnWholeLiteral(q: char, body: string)
    requires q == '"' || q == '\''
    requires q !in body && OnOneLine(body)
    ensures ByFeature([q] + body + [q], StringRule)
         == "<span class=" + StringClass + ">" + StripSpans([q] + body + [q]) + "</span>"
  {
    var t := [q] + body + [q];
    StringRuleOnLiteral(q, body, "");
    assert t + "" == t;
    EmptyStaysEmpty(StringRule.pattern, StringRule.replacement);
    var w := "<span class=" + StringClass + ">" + StripSpans(t) + "</span>";
    assert w + "" == w;
  }

  /** The parts of a literal that `PlainInString` and the wrapper's own text keep free of quotes and line ends. */
  lemma LiteralBodyPlain(u: string, suffix: string, keyword: string, v: string)
    requires PlainInString(u) && PlainInString(keyword) && PlainInString(v)
    requires '"' !in suffix && OnOneLine(suffix)
    ensures var body := u + Wrapper(suffix, keyword) + v; '"' !in body && OnOneLine(body)
  {
    assert '"' !in Wrapper(suffix, keyword);
    assert OnOneLine(Wrapper(suffix, keyword));
  }

  /**
   * The string rule on a double-quoted literal in which an earlier rule wrapped a keyword: one string
   * span around the whole literal, and no keyword span inside it.
   */
  lemma StringRuleReclaims(u: string, suffix: string, keyword: string, v: string)
    requires PlainInString(u) && PlainInString(keyword) && PlainInString(v)
    requires '>' !in suffix && '"' !in suffix && OnOneLine(suffix)
    ensures ByFeature("\"" + u + Wrapper(suffix, keyword) + v + "\"", StringRule)
         == "<span class=" + StringClass + ">" + ("\"" + u + keyword + v + "\"") + "</span>"
  {
    var body := u + Wrapper(suffix, keyword) + v;
    LiteralBodyPlain(u, suffix, keyword, v);
    LiteralRegroup(u, Wrapper(suffix, keyword), v);
    StringRuleOnWholeLiteral('"', body);
    StripLiteral(u, suffix, keyword, v);
  }

  /** The literal read as quote, body, quote. */
  lemma LiteralRegroup(u: string, w: string, v: string)
    ensures "\"" + u + w + v + "\"" == ['"'] + (u + w + v) + ['"']
  {
  }

  /** Stripping a literal in which an earlier rule wrapped a keyword leaves the literal with the bare keyword. */
  lemma StripLiteral(u: string, suffix: string, keyword: string, v: string)
    requires PlainInString(u) && PlainInString(keyword) && PlainInString(v)
    requires '>' !in suffix && OnOneLine(suffix)
    ensures StripSpans("\"" + u + Wrapper(suffix, keyword) + v + "\"") == "\"" + u + keyword + v + "\""
  {
    assert "\"" + u + Wrapper(suffix, keyword) + v + "\"" == ("\"" + u) + Wrapper(suffix, keyword) + (v + "\"");
    CloseFreeWithoutLessThan(keyword);
    StripOneWrapper("\"" + u, suffix, keyword, v + "\"");
    StripWithoutLessThan(v + "\"");
    assert ("\"" + u) + keyword + (v + "\"") == "\"" + u + keyword + v + "\"";
  }

  // ---------------------------------------------------------------------------------------------
  // Argument validation

  const DefaultTheme: seq<string> := ["dark", "light"]

  /** `Array.prototype.join` with a separator, as string concatenation renders an array. */
  function Join(xs: seq<string>, sep: string): string
  {
    if xs == [] then "" else if |xs| == 1 then xs[0] else xs[0] + sep + Join(xs[1..], sep)
  }

  const IllegalArgumentsError: string := "both identifier and language parameters must be strings"

  const UnknownThemeError: string := "theme must be a known preset" + " [" + Join(DefaultTheme, ",") + "]"

  /** `_is(obj, 'String')`: the class tag of obj is `String`, for string primitives and `String` objects alike. */
  predicate IsString(v: Value)
  {
    v.Primitive? || v.StringObject?
  }

  /** Every string primitive, the empty one included, and every `String` object passes the check; nothing else does. */
  lemma IsStringCases(s: string, v: Value)
    ensures IsString(Primitive(s)) && IsString(StringObject(s))
    ensures v.NonString? ==> !IsString(v)
  {
  }

  /** `presets.filter(preset => preset === theme)`: strict equality, so only a string primitive can be selected. */
  function FilterPresets(presets: seq<string>, theme: Value): (r: seq<string>)
    ensures forall k :: 0 <= k < |r| ==> r[k] in presets && theme == Primitive(r[k])
    ensures forall p :: p in presets && theme == Primitive(p) ==> p in r
  {
    if presets == [] then []
    else (if theme == Primitive(presets[0]) then [presets[0]] else []) + FilterPresets(presets[1..], theme)
  }

  /** `_defaultTheme.filter(...)[0]`: the selected theme, or undefined. */
  function SelectTheme(presets: seq<string>, theme: Value): (r: Option<string>)
    ensures r.Some? <==> theme.Primitive? && theme.s in presets
    ensures r.Some? ==> r.value == theme.s
  {
    var selected := FilterPresets(presets, theme);
    if selected == [] then None else Some(selected[0])
  }

  /**
   * What the entry point keeps of its arguments once they pass the checks: the language and the theme.
   * The identifier only selects the nodes, which the entry point is given here.
   */
  datatype Config = Config(lang: string, theme: string)

  /**
   * The entry point's checks, in their order: identifier and language must be strings, then the theme
   * must be one of the presets; each failure is the error the entry point throws.
   */
  function Configure(identifier: Value, lang: Value, theme: Value): (r: Result<Config, string>)
    ensures !(IsString(identifier) && IsString(lang)) ==> r == Failure(IllegalArgumentsError)
    ensures IsString(identifier) && IsString(lang) ==>
      (r.Success? <==> theme.Primitive? && theme.s in DefaultTheme)
    ensures IsString(identifier) && IsString(lang) && r.Failure? ==> r.error == UnknownThemeError
    ensures r.Success? ==> r.value == Config(lang.s, theme.s)
  {
    if !(IsString(identifier) && IsString(lang)) then Failure(IllegalArgumentsError)
    else
      match SelectTheme(DefaultTheme, theme)
      case None => Failure(UnknownThemeError)
      case Some(preset) => Success(Config(lang.s, preset))
  }

  // ---------------------------------------------------------------------------------------------
  // Format, parse and the entry point

  /** `_format(domNode, theme)`: wraps the node in a `<pre>` whose class is `acc-` + theme. */
  method Format(doc: Document, domNode: Element, theme: string)
    modifies doc, domNode
    ensures domNode.containers == old(domNode.containers) + ["acc-" + theme]
    ensures domNode.innerHTML == old(domNode.innerHTML)
    ensures doc.trace == old(doc.trace) + [Formatted(domNode, theme)]
  {
    domNode.containers := domNode.containers + ["acc-" + theme];
    doc.trace := doc.trace + [Formatted(domNode, theme)];
  }

  /** One turn of the entry point's loop: format the node, then parse it. */
  method FormatAndParse(doc: Document, domNode: Element, theme: string, rules: seq<Rule>)
    modifies doc, domNode
    ensures domNode.innerHTML == Apply(rules, old(domNode.innerHTML))
    ensures domNode.containers == old(domNode.containers) + ["acc-" + theme]
    ensures doc.trace == old(doc.trace) + [Formatted(domNode, theme), Parsed(domNode)]
  {
    Format(doc, domNode, theme);
    Parse(doc, domNode, rules);
  }

  /** The loop of the entry point: format and then parse each selected node, in order. */
  method FormatAndParseEach(doc: Document, elems: seq<Element>, theme: string, rules: seq<Rule>)
    requires forall i, j :: 0 <= i < j < |elems| ==> elems[i] != elems[j]
    modifies doc, elems
    ensures doc.trace == old(doc.trace) + FormatThenParse(elems, theme)
    ensures forall k :: 0 <= k < |elems| ==>
      elems[k].innerHTML == Apply(rules, old(elems[k].innerHTML)) &&
      elems[k].containers == old(elems[k].containers) + ["acc-" + theme]
  {
    var ith := 0;
    while ith < |elems|
      invariant 0 <= ith <= |elems|
      invariant doc.trace == old(doc.trace) + FormatThenParse(elems[..ith], theme)
      invariant forall k :: 0 <= k < ith ==>
        elems[k].innerHTML == Apply(rules, old(elems[k].innerHTML)) &&
        elems[k].containers == old(elems[k].containers) + ["acc-" + theme]
      invariant forall k :: ith <= k < |elems| ==>
        elems[k].innerHTML == old(elems[k].innerHTML) && elems[k].containers == old(elems[k].containers)
    {
      FormatAndParse(doc, elems[ith], theme, rules);
      assert elems[..ith + 1][..ith] == elems[..ith];
      ith := ith + 1;
    }
    assert elems[..|elems|] == elems;
  }

  /**
   * `accent(identifier, lang, theme)` over the nodes `document.getElementsByClassName(identifier)` returns.
   * A failed check throws before any node is touched; otherwise each node, in order, is formatted and
   * then parsed with the rules of the language, none if no language has that name.
   */
  method Accent(doc: Document, identifier: Value, lang: Value, theme: Value, elems: seq<Element>, engine: RegexEngine)
    returns (r: Outcome<string>)
    requires forall i, j :: 0 <= i < j < |elems| ==> elems[i] != elems[j]
    modifies doc, elems
    ensures Configure(identifier, lang, theme).Failure? ==>
      r == Fail(Configure(identifier, lang, theme).error) &&
      doc.trace == old(doc.trace) &&
      forall e :: e in elems ==> e.innerHTML == old(e.innerHTML) && e.containers == old(e.containers)
    ensures Configure(identifier, lang, theme).Success? ==>
      var config := Configure(identifier, lang, theme).value;
      r == Pass &&
      doc.trace == old(doc.trace) + FormatThenParse(elems, config.theme) &&
      (forall k :: 0 <= k < |elems| ==>
        elems[k].innerHTML == Apply(Language(engine, config.lang), old(elems[k].innerHTML)) &&
        elems[k].containers == old(elems[k].containers) + ["acc-" + config.theme]) &&
      (config.lang != "javascript" ==> forall e :: e in elems ==> e.innerHTML == old(e.innerHTML))
  {
    var checked := Configure(identifier, lang, theme);
    if checked.Failure? {
      return Fail(checked.error);
    }
    var config := checked.value;
    FormatAndParseEach(doc, elems, config.theme, Language(engine, config.lang));
    r := Pass;
  }
}
