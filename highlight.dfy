/**
 * highlight.js: the earlier version of the library. Its `javascript` language escapes nothing and has no
 * reclaim step; its entry point checks two arguments and parses the selected nodes without formatting them.
 */
module Highlight {
  import opened Wrappers
  import opened Matching
  import opened Replace
  import opened Engine
  import opened Dom

  // ---------------------------------------------------------------------------------------------
  // The javascript language

  const DoubleStrOpen: string := "<span class=js-double-str>\""
  const DoubleStrClose: string := "\"</span>"
  const SingleStrOpen: string := "<span class=js-single-str>'"
  const SingleStrClose: string := "'</span>"
  const NumericOpen: string := "<span class=js-numeric>"
  const NumericClose: string := "</span>"

  /** `"(.*?)"`, named so that it can be passed as a matcher. */
  function DoubleQuoted(t: string): (r: Option<Match>)
    ensures Fits(r, t)
  {
    QuotedPrefix('"', t)
  }

  /** `'(.*?)'`, named so that it can be passed as a matcher. */
  function SingleQuoted(t: string): (r: Option<Match>)
    ensures Fits(r, t)
  {
    QuotedPrefix('\'', t)
  }

  /** `/"(.*?)"/g`: a double-quoted run on one line, its content re-quoted inside a span. */
  const DoubleStr: Rule :=
    Rule("doubleStr", Forward(@"/""(.*?)""/g", DoubleQuoted),
      Template(DoubleStrOpen + "$1" + DoubleStrClose))

  /** `/'(.*?)'/g`: a single-quoted run on one line, its content re-quoted inside a span. */
  const SingleStr: Rule :=
    Rule("singleStr", Forward(@"/'(.*?)'/g", SingleQuoted),
      Template(SingleStrOpen + "$1" + SingleStrClose))

  /** `/(\d)/g`: every decimal digit, one at a time, in a span. */
  const NumberLiteral: Rule :=
    Rule("numberLiteral", Forward(@"/(\d)/g", DigitPrefix), Template(NumericOpen + "$1" + NumericClose))

  // The sources of the patterns the host's engine matches, and their templates.

  const RegExpSource: string := @"/(\/.*\/(\w+))(?=[^\s])/g"
  const RegExpTemplate: string := "<span class=js-regexp>$1</span>"

  const InlineComSource: string := @"/(\/{2}.*?\n+)/g"
  const InlineComTemplate: string := "<span class=js-comment-il>$1</span>"

  const MultiLineComSource: string := @"/(\/\*(.|[\r\n])*\*\/)/g"
  const MultiLineComTemplate: string := "<span class=js-comment-ml>$1</span>"

  const BasicOpsSource: string := @"/\b(if|else|continue|switch|case|default|break|return|for)(?=[^\w])/g"
  const BasicOpsTemplate: string := "<span class=js-basic>$1</span>"

  const AssignmentSource: string := @"/\b(function|var|const|in|new)(?=[^\w])/g"
  const AssignmentTemplate: string := "<span class=js-assignment>$1</span>"

  const GlobalSource: string := @"/\b(console|document|location|history|localStorage|Math|window)/g"
  const GlobalTemplate: string := "<span class=js-global>$1</span>"

  const EmptySource: string := @"/\b(null|undefined)/g"
  const EmptyTemplate: string := "<span class=js-empty>$1</span>"

  const TypesSource: string := @"/\b(Array|String|Function|Object|Number|Date|Error|typeof|instanceof)/g"
  const TypesTemplate: string := "<span class=js-types>$1</span>"

  /**
   * `_language['javascript']`, in the order its features are declared. Every rule wraps its match by a
   * template, and the number rule comes last.
   */
  function Javascript(engine: RegexEngine): (r: seq<Rule>)
    ensures |r| == 11 && r[10] == NumberLiteral
    ensures forall k :: 0 <= k < |r| ==> r[k].replacement.Template?
  {
    [ Rule("regExp", Host(engine, RegExpSource), Template(RegExpTemplate)),
      Rule("inlineCom", Host(engine, InlineComSource), Template(InlineComTemplate)),
      Rule("multiLineCom", Host(engine, MultiLineComSource), Template(MultiLineComTemplate)),
      DoubleStr,
      SingleStr,
      Rule("basicOps", Host(engine, BasicOpsSource), Template(BasicOpsTemplate)),
      Rule("assignment", Host(engine, AssignmentSource), Template(AssignmentTemplate)),
      Rule("global", Host(engine, GlobalSource), Template(GlobalTemplate)),
      Rule("empty", Host(engine, EmptySource), Template(EmptyTemplate)),
      Rule("types", Host(engine, TypesSource), Template(TypesTemplate)),
      NumberLiteral
    ]
  }

  /** `language[_lang]`: the rules registered under a name; a name with no language has no rules. */
  function Language(engine: RegexEngine, name: string): (r: seq<Rule>)
    ensures r == [] <==> name != "javascript"
    ensures name == "javascript" ==> r == Javascript(engine)
  {
    if name == "javascript" then Javascript(engine) else []
  }

  /** The number rule comes last: it sees the output of every other rule. */
  lemma NumbersLast(engine: RegexEngine, text: string)
    ensures Javascript(engine)[|Javascript(engine)| - 1] == NumberLiteral
    ensures Apply(Javascript(engine), text) == WrapDigits(Apply(Javascript(engine)[..10], text))
  {
    NumberLiteralWrapsDigits(Apply(Javascript(engine)[..10], text));
  }

  // ---------------------------------------------------------------------------------------------
  // The quoted-string rules

  /** The open and close texts of the templates hold no `$`. */
  lemma TemplatesLiteral()
    ensures '$' !in DoubleStrOpen && '$' !in DoubleStrClose
    ensures '$' !in SingleStrOpen && '$' !in SingleStrClose
    ensures '$' !in NumericOpen && '$' !in NumericClose
  {
  }

  /** The wrapping template expands to its group between the open and the close text. */
  lemma WrapFirstGroup(open: string, close: string, g: string)
    requires '$' !in open && '$' !in close
    ensures Substitute(open + "$1" + close, [g]) == open + g + close
  {
    assert open + "$1" + close == open + ['$', '1'] + close;
    WrapTemplate(open, '1', close, [g]);
  }

  /**
   * The double-quoted rule on one literal: the content is kept between quotes inside the span, and the
   * rest of the text is scanned on after the closing quote.
   */
  lemma DoubleStrWraps(body: string, v: string)
    requires '"' !in body && OnOneLine(body)
    ensures ByFeature("\"" + body + "\"" + v, DoubleStr) == DoubleStrOpen + body + DoubleStrClose + ByFeature(v, DoubleStr)
  {
    var x := "\"" + body + "\"";
    QuotedPrefixOn('"', body, v);
    assert x + v == ['"'] + body + ['"'] + v;
    ReplaceLeadingMatch(x, v, DoubleStr.pattern.source, DoubleQuoted, DoubleStr.replacement, Match(|x|, [body]));
    TemplatesLiteral();
    WrapFirstGroup(DoubleStrOpen, DoubleStrClose, body);
  }

  /** The single-quoted rule on one literal, like the double-quoted one. */
  lemma SingleStrWraps(body: string, v: string)
    requires '\'' !in body && OnOneLine(body)
    ensures ByFeature("'" + body + "'" + v, SingleStr) == SingleStrOpen + body + SingleStrClose + ByFeature(v, SingleStr)
  {
    var x := "'" + body + "'";
    QuotedPrefixOn('\'', body, v);
    assert x + v == ['\''] + body + ['\''] + v;
    ReplaceLeadingMatch(x, v, SingleStr.pattern.source, SingleQuoted, SingleStr.replacement, Match(|x|, [body]));
    TemplatesLiteral();
    WrapFirstGroup(SingleStrOpen, SingleStrClose, body);
  }

  /** Text without a double quote is not changed by the double-quoted rule. */
  lemma DoubleStrWithoutQuotes(s: string)
    requires '"' !in s
    ensures ByFeature(s, DoubleStr) == s
  {
    forall i | 0 <= i < |s| ensures DoubleStr.pattern.at(s[..i], s[i..]).None? {
      assert DoubleStr.pattern.at(s[..i], s[i..]) == DoubleQuoted(s[i..]);
      assert s[i..][0] == s[i];
    }
  }

  // ---------------------------------------------------------------------------------------------
  // The number rule

  /** Every decimal digit in its own numeric span, every other character kept in place. */
  function WrapDigits(s: string): string
  {
    if s == [] then ""
    else (if IsDigit(s[0]) then NumericOpen + [s[0]] + NumericClose else [s[0]]) + WrapDigits(s[1..])
  }

  /** A leading digit is wrapped, and the scan goes on after it. */
  lemma NumberLiteralOnDigit(s: string)
    requires s != [] && IsDigit(s[0])
    ensures ByFeature(s, NumberLiteral) == NumericOpen + [s[0]] + NumericClose + ByFeature(s[1..], NumberLiteral)
  {
    var rule := NumberLiteral;
    assert s == s[..1] + s[1..] && s[..1] == [s[0]];
    ReplaceLeadingMatch(s[..1], s[1..], rule.pattern.source, DigitPrefix, rule.replacement, Match(1, [s[..1]]));
    TemplatesLiteral();
    WrapFirstGroup(NumericOpen, NumericClose, s[..1]);
  }

  /** A leading character that is not a digit is kept, and the scan goes on after it. */
  lemma NumberLiteralOnOther(s: string)
    requires s != [] && !IsDigit(s[0])
    ensures ByFeature(s, NumberLiteral) == [s[0]] + ByFeature(s[1..], NumberLiteral)
  {
    assert s == s[..1] + s[1..] && s[..1] == [s[0]];
    assert (s[..1] + s[1..])[0..] == s;
    ReplaceLeadingPlain(s[..1], s[1..], NumberLiteral.pattern.source, DigitPrefix, NumberLiteral.replacement);
  }

  /** The number rule is WrapDigits. */
  lemma {:induction false} NumberLiteralWrapsDigits(s: string)
    ensures ByFeature(s, NumberLiteral) == WrapDigits(s)
  {
    if s != [] {
      if IsDigit(s[0]) {
        NumberLiteralOnDigit(s);
      } else {
        NumberLiteralOnOther(s);
      }
      NumberLiteralWrapsDigits(s[1..]);
    }
  }

  /** Text without digits is not changed by the number rule. */
  lemma {:induction false} WrapDigitsWithoutDigits(s: string)
    requires forall i :: 0 <= i < |s| ==> !IsDigit(s[i])
    ensures WrapDigits(s) == s
  {
    if s != [] {
      WrapDigitsWithoutDigits(s[1..]);
      assert s == [s[0]] + s[1..];
    }
  }

  /** Wrapping digits works piece by piece. */
  lemma {:induction false} WrapDigitsConcat(a: string, b: string)
    ensures WrapDigits(a + b) == WrapDigits(a) + WrapDigits(b)
  {
    if a == [] {
      assert a + b == b;
    } else {
      assert (a + b)[0] == a[0] && (a + b)[1..] == a[1..] + b;
      WrapDigitsConcat(a[1..], b);
    }
  }

  // ---------------------------------------------------------------------------------------------
  // Argument validation and the entry point

  const IllegalArgumentsError: string := "both class and language parameters must be strings"

  /** `_cl && typeof _cl === 'string'`: a string primitive, and not the empty one, which is falsy. */
  predicate IsNonEmptyString(v: Value)
  {
    v.Primitive? && v.s != ""
  }

  /**
   * The empty string is falsy and a `String` object's `typeof` is `object`, so both fail the check,
   * unlike in `accent.js`; every other string primitive passes.
   */
  lemma IsNonEmptyStringCases(s: string, v: Value)
    ensures !IsNonEmptyString(Primitive("")) && !IsNonEmptyString(StringObject(s))
    ensures s != "" ==> IsNonEmptyString(Primitive(s))
    ensures v.NonString? ==> !IsNonEmptyString(v)
  {
  }

  /** The `config` the entry point builds from its arguments. */
  datatype Config = Config(className: string, lang: string)

  /** The entry point's check: both arguments must be non-empty string primitives. */
  function Configure(className: Value, lang: Value): (r: Result<Config, string>)
    ensures r.Success? <==> IsNonEmptyString(className) && IsNonEmptyString(lang)
    ensures r.Failure? ==> r.error == IllegalArgumentsError
    ensures r.Success? ==> r.value == Config(className.s, lang.s)
  {
    if IsNonEmptyString(className) && IsNonEmptyString(lang) then Success(Config(className.s, lang.s))
    else Failure(IllegalArgumentsError)
  }

  /** The loop of the entry point: parse each selected node, in order. */
  method ParseEachNode(doc: Document, elems: seq<Element>, rules: seq<Rule>)
    requires forall i, j :: 0 <= i < j < |elems| ==> elems[i] != elems[j]
    modifies doc, elems
    ensures doc.trace == old(doc.trace) + ParseEach(elems)
    ensures forall k :: 0 <= k < |elems| ==>
      elems[k].innerHTML == Apply(rules, old(elems[k].innerHTML)) && elems[k].containers == old(elems[k].containers)
  {
    var ith := 0;
    while ith < |elems|
      invariant 0 <= ith <= |elems|
      invariant doc.trace == old(doc.trace) + ParseEach(elems[..ith])
      invariant forall k :: 0 <= k < ith ==>
        elems[k].innerHTML == Apply(rules, old(elems[k].innerHTML)) && elems[k].containers == old(elems[k].containers)
      invariant forall k :: ith <= k < |elems| ==>
        elems[k].innerHTML == old(elems[k].innerHTML) && elems[k].containers == old(elems[k].containers)
    {
      var current := elems[ith];
      Parse(doc, current, rules);
      assert elems[..ith + 1][..ith] == elems[..ith];
      ith := ith + 1;
    }
    assert elems[..|elems|] == elems;
  }

  /**
   * `highlight(_class, _lang)` over the nodes `document.getElementsByClassName(_class)` returns. A failed
   * check throws before any node is touched; otherwise each node, in order, is parsed with the rules of
   * the language, none if no language has that name. No node is wrapped.
   */
  method Highlight(doc: Document, className: Value, lang: Value, elems: seq<Element>, engine: RegexEngine)
    returns (r: Outcome<string>)
    requires forall i, j :: 0 <= i < j < |elems| ==> elems[i] != elems[j]
    modifies doc, elems
    ensures Configure(className, lang).Failure? ==>
      r == Fail(IllegalArgumentsError) &&
      doc.trace == old(doc.trace) &&
      forall e :: e in elems ==> e.innerHTML == old(e.innerHTML) && e.containers == old(e.containers)
    ensures Configure(className, lang).Success? ==>
      r == Pass &&
      doc.trace == old(doc.trace) + ParseEach(elems) &&
      (forall k :: 0 <= k < |elems| ==>
        elems[k].innerHTML == Apply(Language(engine, lang.s), old(elems[k].innerHTML)) &&
        elems[k].containers == old(elems[k].containers)) &&
      (lang.s != "javascript" ==> forall e :: e in elems ==> e.innerHTML == old(e.innerHTML))
  {
    var checked := Configure(className, lang);
    if checked.Failure? {
      return Fail(checked.error);
    }
    var config := checked.value;
    ParseEachNode(doc, elems, Language(engine, config.lang));
    r := Pass;
  }
}
