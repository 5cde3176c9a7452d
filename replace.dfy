/**
 * `String.prototype.replace` with a global regular expression: scan the buffer left to right, replace
 * each leftmost non-overlapping match by its replacement, copy everything else untouched.
 */
module Replace {
  import opened Wrappers
  import opened Matching

  /**
   * The second argument of `replace`: a template string in which `$n` stands for capture group n,
   * or a function called with the matched text and the capture groups.
   */
  datatype Replacement =
    | Template(text: string)
    | Function(f: (string, seq<string>) -> string)

  /** The value of a decimal digit character. */
  function DigitValue(c: char): nat
    requires IsDigit(c)
  {
    c as int - '0' as int
  }

  /** Does the template start with `$n` for a group n that the match has? */
  predicate GroupReference(template: string, groups: seq<string>)
  {
    2 <= |template| && template[0] == '$' && IsDigit(template[1]) && 1 <= DigitValue(template[1]) <= |groups|
  }

  /** Does the template start with the escape `$$`? */
  predicate DollarEscape(template: string)
  {
    2 <= |template| && template[0] == '$' && template[1] == '$'
  }

  /** How many template characters the first token of a non-empty template takes. */
  function TokenLength(template: string, groups: seq<string>): (n: nat)
    requires template != []
    ensures 0 < n <= |template|
  {
    if DollarEscape(template) || GroupReference(template, groups) then 2 else 1
  }

  /** What the first token of a non-empty template stands for. */
  function TokenText(template: string, groups: seq<string>): string
    requires template != []
  {
    if DollarEscape(template) then "$"
    else if GroupReference(template, groups) then groups[DigitValue(template[1]) - 1]
    else [template[0]]
  }

  /**
   * Expands a template: `$$` gives `$`, `$n` for a digit n from 1 to the number of groups gives group n,
   * and every other character, including a `$` that starts neither, stands for itself.
   */
  function Substitute(template: string, groups: seq<string>): (r: string)
    decreases |template|
    ensures '$' !in template ==> r == template
  {
    if template == [] then ""
    else TokenText(template, groups) + Substitute(template[TokenLength(template, groups)..], groups)
  }

  /** What one match is replaced by. */
  function Expand(rep: Replacement, matched: string, groups: seq<string>): string
  {
    match rep
    case Template(text) => Substitute(text, groups)
    case Function(f) => f(matched, groups)
  }

  /** One piece of the scanned buffer: a character no match covers, or a match with its capture groups. */
  datatype Segment = Copy(c: char) | Hit(matched: string, groups: seq<string>)

  /** How far the scan moves on at the start of rest: past the match, or past one character. */
  function Advance(rest: string, r: Option<Match>): (n: nat)
    requires rest != [] && Fits(r, rest)
    ensures 0 < n <= |rest|
  {
    if r.None? then 1 else r.value.len
  }

  /** The segment the scan takes at the start of rest. */
  function Take(rest: string, r: Option<Match>): Segment
    requires rest != [] && Fits(r, rest)
  {
    if r.None? then Copy(rest[0]) else Hit(rest[..r.value.len], r.value.groups)
  }

  /**
   * The left-to-right scan of rest, the part of the buffer after before: at each position either the
   * pattern matches, and the scan resumes after the match, or one character is copied.
   */
  function Scan(p: Pattern, before: string, rest: string): (gs: seq<Segment>)
    decreases |rest|
    ensures Text(gs) == rest
  {
    if rest == [] then []
    else
      var r := p.at(before, rest);
      var n := Advance(rest, r);
      var tail := Scan(p, before + rest[..n], rest[n..]);
      assert Covered(Take(rest, r)) == rest[..n] && rest == rest[..n] + rest[n..];
      assert ([Take(rest, r)] + tail)[1..] == tail;
      [Take(rest, r)] + tail
  }

  /** The characters a segment covers in the buffer. */
  function Covered(g: Segment): string
  {
    match g
    case Copy(c) => [c]
    case Hit(matched, _) => matched
  }

  /** What a segment becomes in the output. */
  function Emit(g: Segment, rep: Replacement): string
  {
    match g
    case Copy(c) => [c]
    case Hit(matched, groups) => Expand(rep, matched, groups)
  }

  /** The buffer given by a sequence of segments. */
  function Text(gs: seq<Segment>): string
  {
    if gs == [] then "" else Covered(gs[0]) + Text(gs[1..])
  }

  /** The output of a sequence of segments. */
  function Output(gs: seq<Segment>, rep: Replacement): string
  {
    if gs == [] then "" else Emit(gs[0], rep) + Output(gs[1..], rep)
  }

  /** `s.replace(p, rep)` for a pattern p with the global flag; a pattern that matches nowhere leaves s as it is. */
  function GlobalReplace(s: string, p: Pattern, rep: Replacement): (r: string)
    ensures MatchesNowhere(p, s) ==> r == s
  {
    ScanNowhere(p, s, rep);
    Output(Scan(p, "", s), rep)
  }

  /** The pattern matches at no position of s. */
  ghost predicate MatchesNowhere(p: Pattern, s: string)
  {
    forall i :: 0 <= i < |s| ==> p.at(s[..i], s[i..]).None?
  }

  /**
   * Concatenation regrouped. Dafny knows this; called as a lemma it gives the solver the one instance a
   * proof needs, which costs far less than asserting the equation.
   */
  lemma Associative(a: string, b: string, c: string)
    ensures a + (b + c) == (a + b) + c
  {
  }

  /** Where the pattern matches nowhere, the scan copies every character. */
  lemma {:induction false} ScanUnmatched(p: Pattern, before: string, rest: string, rep: Replacement)
    requires forall j :: 0 <= j < |rest| ==> p.at(before + rest[..j], rest[j..]).None?
    ensures Output(Scan(p, before, rest), rep) == rest
    decreases |rest|
  {
    if rest != [] {
      assert before + rest[..0] == before && rest[0..] == rest;
      var b := before + rest[..1];
      forall j | 0 <= j < |rest[1..]|
        ensures p.at(b + rest[1..][..j], rest[1..][j..]).None?
      {
        assert b + rest[1..][..j] == before + rest[..j + 1];
        assert rest[1..][j..] == rest[j + 1..];
      }
      ScanUnmatched(p, b, rest[1..], rep);
      assert rest == [rest[0]] + rest[1..];
    }
  }

  /** A pattern that matches nowhere in the buffer makes the scan copy all of it. */
  lemma ScanNowhere(p: Pattern, s: string, rep: Replacement)
    ensures MatchesNowhere(p, s) ==> Output(Scan(p, "", s), rep) == s
  {
    if MatchesNowhere(p, s) {
      forall j | 0 <= j < |s| ensures p.at("" + s[..j], s[j..]).None? {
        assert "" + s[..j] == s[..j];
      }
      ScanUnmatched(p, "", s, rep);
    }
  }

  /** An empty buffer stays empty, whatever the pattern. */
  lemma EmptyStaysEmpty(p: Pattern, rep: Replacement)
    ensures GlobalReplace("", p, rep) == ""
  {
  }

  /** For a pattern that looks only forward, what precedes the scanned part does not change the scan. */
  lemma {:induction false} ScanForward(source: string, m: PrefixMatcher, b1: string, b2: string, rest: string)
    ensures Scan(Forward(source, m), b1, rest) == Scan(Forward(source, m), b2, rest)
    decreases |rest|
  {
    if rest != [] {
      var n := Advance(rest, m(rest));
      ScanForward(source, m, b1 + rest[..n], b2 + rest[..n], rest[n..]);
    }
  }

  /** A match at the start of the buffer is replaced, and the scan resumes right after it. */
  lemma ReplaceLeadingMatch(x: string, y: string, source: string, m: PrefixMatcher, rep: Replacement, r: Match)
    requires m(x + y) == Some(r) && r.len == |x|
    ensures GlobalReplace(x + y, Forward(source, m), rep) == Expand(rep, x, r.groups) + GlobalReplace(y, Forward(source, m), rep)
  {
    var p := Forward(source, m);
    assert (x + y)[..|x|] == x && (x + y)[|x|..] == y;
    ScanForward(source, m, "" + x, "", y);
    var gs := Scan(p, "", x + y);
    assert gs == [Hit(x, r.groups)] + Scan(p, "", y);
    assert gs[0] == Hit(x, r.groups) && gs[1..] == Scan(p, "", y);
  }

  /** A prefix at none of whose positions the pattern matches is copied unchanged. */
  lemma {:induction false} ReplaceLeadingPlain(u: string, y: string, source: string, m: PrefixMatcher, rep: Replacement)
    requires forall j :: 0 <= j < |u| ==> m((u + y)[j..]).None?
    ensures GlobalReplace(u + y, Forward(source, m), rep) == u + GlobalReplace(y, Forward(source, m), rep)
    decreases |u|
  {
    var p := Forward(source, m);
    if u == [] {
      assert u + y == y;
    } else {
      var t := u + y;
      assert t[0..] == t;
      assert t[..1] == [u[0]] && t[1..] == u[1..] + y;
      forall j | 0 <= j < |u[1..]| ensures m((u[1..] + y)[j..]).None? {
        assert (u[1..] + y)[j..] == t[j + 1..];
      }
      ReplaceLeadingPlain(u[1..], y, source, m, rep);
      ScanForward(source, m, "" + t[..1], "", t[1..]);
      var gs := Scan(p, "", t);
      assert gs[0] == Copy(u[0]) && gs[1..] == Scan(p, "", u[1..] + y);
      Associative([u[0]], u[1..], GlobalReplace(y, p, rep));
      assert u == [u[0]] + u[1..];
    }
  }

  /** A template without `$` stands for itself. */
  lemma {:induction false} SubstituteLiteral(a: string, b: string, groups: seq<string>)
    requires '$' !in a
    ensures Substitute(a + b, groups) == a + Substitute(b, groups)
    decreases |a|
  {
    if a == [] {
      assert a + b == b;
    } else {
      assert a + b == [a[0]] + (a[1..] + b) && a[0] in a;
      SubstituteChar(a[0], a[1..] + b, groups);
      SubstituteLiteral(a[1..], b, groups);
      Associative([a[0]], a[1..], Substitute(b, groups));
      assert a == [a[0]] + a[1..];
    }
  }

  /** A character other than `$` stands for itself, ahead of the rest of the template. */
  lemma SubstituteChar(c: char, rest: string, groups: seq<string>)
    requires c != '$'
    ensures Substitute([c] + rest, groups) == [c] + Substitute(rest, groups)
  {
    var t := [c] + rest;
    assert t[0] == c && t[1..] == rest;
  }

  /** A template that starts with `$n` for a group the match has expands to group n, then the rest. */
  lemma SubstituteGroup(d: char, rest: string, groups: seq<string>)
    requires IsDigit(d) && 1 <= DigitValue(d) <= |groups|
    ensures Substitute(['$', d] + rest, groups) == groups[DigitValue(d) - 1] + Substitute(rest, groups)
  {
    var t := ['$', d] + rest;
    assert t[0] == '$' && t[1] == d && t[2..] == rest;
    assert GroupReference(t, groups) && !DollarEscape(t);
    assert TokenLength(t, groups) == 2 && TokenText(t, groups) == groups[DigitValue(d) - 1];
    assert Substitute(t, groups) == TokenText(t, groups) + Substitute(t[TokenLength(t, groups)..], groups);
  }

  /**
   * The wrapping templates: text, one `$n`, text. The expansion is the group between the two texts,
   * which are kept as they are.
   */
  lemma WrapTemplate(open: string, d: char, close: string, groups: seq<string>)
    requires '$' !in open && '$' !in close
    requires IsDigit(d) && 1 <= DigitValue(d) <= |groups|
    ensures Substitute(open + ['$', d] + close, groups) == open + groups[DigitValue(d) - 1] + close
  {
    var g := groups[DigitValue(d) - 1];
    var t := ['$', d] + close;
    assert open + ['$', d] + close == open + t;
    SubstituteLiteral(open, t, groups);
    SubstituteGroup(d, close, groups);
    SubstituteLiteral(close, "", groups);
    assert close + "" == close;
    Associative(open, g, close);
  }
}
