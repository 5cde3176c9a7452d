/**
 * The highlighting engine shared by both versions of the library: a language is an ordered sequence of
 * rules, and highlighting threads the text through the rules' global replacements in order.
 */
module Engine {
  import opened Matching
  import opened Replace
  import opened Dom

  /** One feature of a language: its name, its pattern and what each match becomes. */
  datatype Rule = Rule(feature: string, pattern: Pattern, replacement: Replacement)

  /** `_byFeature`: one rule's global replacement over the text; a rule whose pattern matches nowhere changes nothing. */
  function ByFeature(textBody: string, rule: Rule): (r: string)
    ensures MatchesNowhere(rule.pattern, textBody) ==> r == textBody
  {
    GlobalReplace(textBody, rule.pattern, rule.replacement)
  }

  /**
   * The text after the rules ran in order, each on the output of the ones before it: the value of
   * `textBody` after the rule loop of `_parse`.
   */
  function Apply(rules: seq<Rule>, text: string): string
    decreases |rules|
  {
    if rules == [] then text
    else ByFeature(Apply(rules[..|rules| - 1], text), rules[|rules| - 1])
  }

  /** The first rule runs on the original text, and the others on its output. */
  lemma {:induction false} ApplyFirst(rule: Rule, rules: seq<Rule>, text: string)
    ensures Apply([rule] + rules, text) == Apply(rules, ByFeature(text, rule))
    decreases |rules|
  {
    if rules == [] {
      assert ([rule] + rules)[..0] == [];
    } else {
      var all := [rule] + rules;
      assert all[..|all| - 1] == [rule] + rules[..|rules| - 1];
      ApplyFirst(rule, rules[..|rules| - 1], text);
    }
  }

  /** Dropping the last rule of a concatenation drops it from the second part. */
  lemma DropLast(first: seq<Rule>, second: seq<Rule>)
    requires second != []
    ensures (first + second)[..|first + second| - 1] == first + second[..|second| - 1]
    ensures (first + second)[|first + second| - 1] == second[|second| - 1]
  {
  }

  /** Running two rule sequences one after the other is running their concatenation. */
  lemma {:induction false} ApplyConcat(first: seq<Rule>, second: seq<Rule>, text: string)
    ensures Apply(first + second, text) == Apply(second, Apply(first, text))
    decreases |second|
  {
    if second == [] {
      assert first + second == first;
    } else {
      DropLast(first, second);
      ApplyConcat(first, second[..|second| - 1], text);
    }
  }

  /** Rules none of which matches anywhere in the text leave it unchanged. */
  lemma {:induction false} ApplyNoMatch(rules: seq<Rule>, text: string)
    requires forall k :: 0 <= k < |rules| ==> MatchesNowhere(rules[k].pattern, text)
    ensures Apply(rules, text) == text
    decreases |rules|
  {
    if rules != [] {
      ApplyNoMatch(rules[..|rules| - 1], text);
    }
  }

  /** Every language maps the empty text to the empty text. */
  lemma {:induction false} ApplyEmptyText(rules: seq<Rule>)
    ensures Apply(rules, "") == ""
    decreases |rules|
  {
    if rules != [] {
      ApplyEmptyText(rules[..|rules| - 1]);
      EmptyStaysEmpty(rules[|rules| - 1].pattern, rules[|rules| - 1].replacement);
    }
  }

  /**
   * `_parse(domNode, lang)`: reads the node's markup, runs the rules over it in order, each on the output
   * of the ones before it, and writes the result back.
   */
  method Parse(doc: Document, domNode: Element, lang: seq<Rule>)
    modifies doc, domNode
    ensures domNode.innerHTML == Apply(lang, old(domNode.innerHTML))
    ensures domNode.containers == old(domNode.containers)
    ensures doc.trace == old(doc.trace) + [Parsed(domNode)]
  {
    var textBody := domNode.innerHTML;
    for k := 0 to |lang|
      invariant textBody == Apply(lang[..k], old(domNode.innerHTML))
    {
      assert lang[..k + 1][..k] == lang[..k];
      textBody := ByFeature(textBody, lang[k]);
    }
    assert lang[..|lang|] == lang;
    domNode.innerHTML := textBody;
    doc.trace := doc.trace + [Parsed(domNode)];
  }
}
