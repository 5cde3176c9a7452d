/**
 * Matchers: what a global JavaScript regular expression contributes to `String.prototype.replace`.
 * A matcher is asked whether its pattern matches starting exactly at one position of a buffer; the
 * left-to-right scan that turns this into "leftmost, non-overlapping, repeated" matching is in module Replace.
 */
module Matching {
  import opened Wrappers

  /** A successful match attempt: the number of characters consumed and the texts of the capture groups $1, $2, ... */
  datatype Match = Match(len: nat, groups: seq<string>)

  /** A match reported at the start of rest is non-empty and ends inside rest. */
  predicate Fits(r: Option<Match>, rest: string)
  {
    r.Some? ==> 0 < r.value.len <= |rest|
  }

  function NoMatchAt(before: string, rest: string): Option<Match>
  {
    None
  }

  function NoMatchPrefix(rest: string): Option<Match>
  {
    None
  }

  /**
   * Does the pattern match at the position that splits the buffer into before and rest, and how?
   * The text before is passed so that `\b` can look at the preceding character.
   */
  type Matcher = f: (string, string) -> Option<Match> | forall before: string, rest: string :: Fits(f(before, rest), rest)
    witness NoMatchAt

  /** Does the pattern match at the very start of rest? For patterns that never look behind their start. */
  type PrefixMatcher = f: string -> Option<Match> | forall rest: string :: Fits(f(rest), rest)
    witness NoMatchPrefix

  /** The host's regular-expression engine: the matcher of a regular expression given by its source text. */
  type RegexEngine = string -> Matcher

  /** A regular expression literal: its source text, and how it matches. */
  datatype Pattern = Pattern(source: string, at: Matcher)

  /** A pattern matched by the host's engine. */
  function Host(engine: RegexEngine, source: string): Pattern
  {
    Pattern(source, engine(source))
  }

  /** A pattern built from a prefix matcher: what precedes the position plays no part. */
  function Forward(source: string, m: PrefixMatcher): Pattern
  {
    Pattern(source, (before: string, rest: string) => m(rest))
  }

  /** `.` in a JavaScript regular expression matches any character but these four. */
  predicate IsLineTerminator(c: char)
  {
    c == '\n' || c == '\r' || c == '\U{2028}' || c == '\U{2029}'
  }

  /** `\s`: the ECMAScript WhiteSpace and LineTerminator characters. */
  predicate IsWhitespace(c: char)
  {
    c == '\t' || c == '\U{000B}' || c == '\U{000C}' || c == ' ' || c == '\U{00A0}' || c == '\U{FEFF}' ||
    c == '\U{1680}' || ('\U{2000}' <= c <= '\U{200A}') || c == '\U{202F}' || c == '\U{205F}' || c == '\U{3000}' ||
    IsLineTerminator(c)
  }

  /** `\d` */
  predicate IsDigit(c: char)
  {
    '0' <= c <= '9'
  }

  predicate StartsAt(t: string, j: nat, w: string)
  {
    j + |w| <= |t| && t[j..j + |w|] == w
  }

  /** No occurrence of w starts in t[k..j] and `.` can cross all of it. */
  predicate Clear(t: string, k: nat, j: nat, w: string)
  {
    forall x :: k <= x < j && x < |t| ==> !StartsAt(t, x, w) && !IsLineTerminator(t[x])
  }

  /**
   * The lazy `.*?w` started at k: the first occurrence of w at or after k, provided `.` can
   * reach it without crossing a line terminator.
   */
  function FindOnLine(t: string, k: nat, w: string): (r: Option<nat>)
    decreases |t| - k
    ensures r.Some? ==> k <= r.value && StartsAt(t, r.value, w) && Clear(t, k, r.value, w)
    ensures r.None? ==> forall j :: k <= j && StartsAt(t, j, w) ==> !Clear(t, k, j, w)
  {
    if StartsAt(t, k, w) then Some(k)
    else if |t| <= k || IsLineTerminator(t[k]) then None
    else FindOnLine(t, k + 1, w)
  }

  /** No character of s is a line terminator: `.` can cross all of s. */
  predicate OnOneLine(s: string)
  {
    forall c :: c in s ==> !IsLineTerminator(c)
  }

  /** An occurrence of a non-empty w starts with the first character of w. */
  lemma StartsAtHead(t: string, j: nat, w: string)
    ensures StartsAt(t, j, w) && w != [] ==> t[j] == w[0]
  {
    if StartsAt(t, j, w) && w != [] {
      assert t[j..j + |w|][0] == t[j];
    }
  }

  /** An occurrence of w holds every character of w in place. */
  lemma StartsAtIndex(t: string, j: nat, w: string, i: nat)
    ensures StartsAt(t, j, w) && i < |w| ==> t[j + i] == w[i]
  {
    if StartsAt(t, j, w) && i < |w| {
      assert t[j..j + |w|][i] == t[j + i];
    }
  }

  /** An occurrence in a suffix of t is an occurrence in t. */
  lemma StartsAtSuffix(t: string, i: nat, j: nat, w: string)
    requires i <= |t|
    ensures StartsAt(t[i..], j, w) <==> StartsAt(t, i + j, w)
  {
    if i + j + |w| <= |t| {
      assert t[i..][j..j + |w|] == t[i + j..i + j + |w|];
    }
  }

  /** w occurs in a + w + b right after a. */
  lemma StartsAtJoin(a: string, w: string, b: string)
    ensures StartsAt(a + w + b, |a|, w)
  {
    assert (a + w + b)[|a|..|a| + |w|] == w;
  }

  /** The lazy scan is determined by its result: the first reachable occurrence of w. */
  lemma {:induction false} FindOnLineAt(t: string, k: nat, j: nat, w: string)
    requires k <= j && StartsAt(t, j, w) && Clear(t, k, j, w)
    ensures FindOnLine(t, k, w) == Some(j)
    decreases j - k
  {
    if k < j {
      assert !StartsAt(t, k, w) && !IsLineTerminator(t[k]);
      FindOnLineAt(t, k + 1, j, w);
    }
  }

  /**
   * The lazy `.*?w` started right after pre, over a stretch mid on one line in which the first character
   * of w does not occur, stops at the w that follows mid.
   */
  lemma FindOnLineAfter(pre: string, mid: string, w: string, post: string)
    requires w != [] && w[0] !in mid && OnOneLine(mid)
    ensures FindOnLine(pre + mid + w + post, |pre|, w) == Some(|pre| + |mid|)
  {
    var t := pre + mid + w + post;
    assert t == (pre + mid) + w + post;
    StartsAtJoin(pre + mid, w, post);
    forall x | |pre| <= x < |pre| + |mid| && x < |t| ensures !StartsAt(t, x, w) && !IsLineTerminator(t[x]) {
      assert t[x] == mid[x - |pre|];
      StartsAtHead(t, x, w);
    }
    FindOnLineAt(t, |pre|, |pre| + |mid|, w);
  }

  /** `.` can cross every position of t[i..j]. */
  predicate NoBreak(t: string, i: nat, j: nat)
  {
    forall x :: i <= x < j && x < |t| ==> !IsLineTerminator(t[x])
  }

  /** Where the lazy scan gives up, every later occurrence of w lies beyond a line terminator. */
  lemma {:induction false} FindOnLineNone(t: string, k: nat, j: nat, w: string)
    ensures FindOnLine(t, k, w).None? && k <= j && StartsAt(t, j, w) ==> !NoBreak(t, k, j)
    decreases j - k
  {
    if FindOnLine(t, k, w).None? && k < j && k < |t| && !IsLineTerminator(t[k]) {
      FindOnLineNone(t, k + 1, j, w);
    }
  }

  /** An occurrence that ends inside a is an occurrence in a + b. */
  lemma StartsAtPrefix(a: string, b: string, j: nat, w: string)
    requires j + |w| <= |a|
    ensures StartsAt(a + b, j, w) <==> StartsAt(a, j, w)
  {
    assert (a + b)[j..j + |w|] == a[j..j + |w|];
  }

  /**
   * The lazy `.*?w` started right after pre, over a stretch mid on one line in which no occurrence of w
   * starts (not even one running on into the w that follows), stops at the w that follows mid.
   */
  lemma FindOnLineSkip(pre: string, mid: string, w: string, post: string)
    requires forall x :: 0 <= x < |mid| ==> !StartsAt(mid + w, x, w)
    requires OnOneLine(mid)
    ensures FindOnLine(pre + mid + w + post, |pre|, w) == Some(|pre| + |mid|)
  {
    var t := pre + mid + w + post;
    assert t == pre + ((mid + w) + post);
    assert t == (pre + mid) + w + post;
    StartsAtJoin(pre + mid, w, post);
    forall x | |pre| <= x < |pre| + |mid| && x < |t| ensures !StartsAt(t, x, w) && !IsLineTerminator(t[x]) {
      assert t[x] == mid[x - |pre|];
      StartsAtSuffix(t, |pre|, x - |pre|, w);
      assert t[|pre|..] == (mid + w) + post;
      StartsAtPrefix(mid + w, post, x - |pre|, w);
    }
    FindOnLineAt(t, |pre|, |pre| + |mid|, w);
  }

  /** The greedy `\s*` started at k: the first position at or after k that does not hold whitespace. */
  function SkipSpaces(t: string, k: nat): (r: nat)
    decreases |t| - k
    ensures k <= r && (r <= |t| || r == k)
    ensures forall x :: k <= x < r ==> IsWhitespace(t[x])
    ensures r < |t| ==> !IsWhitespace(t[r])
  {
    if k < |t| && IsWhitespace(t[k]) then SkipSpaces(t, k + 1) else k
  }

  /** `/</g`: one `<`. */
  function LessThanPrefix(t: string): (r: Option<Match>)
    ensures Fits(r, t)
    ensures r.Some? <==> 0 < |t| && t[0] == '<'
    ensures r.Some? ==> r.value == Match(1, [])
  {
    if 0 < |t| && t[0] == '<' then Some(Match(1, [])) else None
  }

  /** `/(\d)/g`: one decimal digit, captured. */
  function DigitPrefix(t: string): (r: Option<Match>)
    ensures Fits(r, t)
    ensures r.Some? <==> 0 < |t| && IsDigit(t[0])
    ensures r.Some? ==> r.value.len == 1 && r.value.groups == [t[..1]]
  {
    if 0 < |t| && IsDigit(t[0]) then Some(Match(1, [t[..1]])) else None
  }

  /**
   * `q(.*?)q` for a quote q: from an opening q to the nearest q on the same line,
   * the text between the quotes captured.
   */
  function QuotedPrefix(q: char, t: string): (r: Option<Match>)
    ensures Fits(r, t)
    ensures r.Some? ==> var n := r.value.len;
      2 <= n && t[0] == q && t[n - 1] == q && r.value.groups == [t[1..n - 1]] &&
      forall x :: 1 <= x < n - 1 ==> t[x] != q && !IsLineTerminator(t[x])
    ensures r.None? && 0 < |t| && t[0] == q ==> forall j :: 1 <= j < |t| && t[j] == q ==> !Clear(t, 1, j, [q])
  {
    if 0 < |t| && t[0] == q then
      match FindOnLine(t, 1, [q])
      case Some(e) =>
        assert forall x :: 1 <= x < e ==> !StartsAt(t, x, [q]);
        Some(Match(e + 1, [t[1..e]]))
      case None =>
        assert forall j :: 1 <= j < |t| && t[j] == q ==> StartsAt(t, j, [q]);
        None
    else None
  }

  /** `(".*?"|'.*?')`: a double- or single-quoted run on one line, captured whole. */
  function EitherQuotedPrefix(t: string): (r: Option<Match>)
    ensures Fits(r, t)
    ensures r.Some? ==> var n := r.value.len;
      2 <= n && (t[0] == '"' || t[0] == '\'') && t[n - 1] == t[0] && r.value.groups == [t[..n]] &&
      forall x :: 1 <= x < n - 1 ==> t[x] != t[0] && !IsLineTerminator(t[x])
    ensures r.None? && 0 < |t| && (t[0] == '"' || t[0] == '\'') ==>
      forall j :: 1 <= j < |t| && t[j] == t[0] ==> !Clear(t, 1, j, [t[0]])
  {
    if 0 < |t| && (t[0] == '"' || t[0] == '\'') then
      match QuotedPrefix(t[0], t)
      case Some(m) => Some(Match(m.len, [t[..m.len]]))
      case None => None
    else None
  }

  /** A quoted run on one line is matched whole by `q(.*?)q`, and its content is captured. */
  lemma QuotedPrefixOn(q: char, body: string, v: string)
    requires q !in body && OnOneLine(body)
    ensures QuotedPrefix(q, [q] + body + [q] + v) == Some(Match(|body| + 2, [body]))
  {
    var t := [q] + body + [q] + v;
    FindOnLineAfter([q], body, [q], v);
    assert t[1..|body| + 1] == body;
  }

  /** A double- or single-quoted run on one line is matched whole by `(".*?"|'.*?')`, and captured whole. */
  lemma EitherQuotedPrefixOn(q: char, body: string, v: string)
    requires q == '"' || q == '\''
    requires q !in body && OnOneLine(body)
    ensures EitherQuotedPrefix([q] + body + [q] + v) == Some(Match(|body| + 2, [[q] + body + [q]]))
  {
    var t := [q] + body + [q] + v;
    QuotedPrefixOn(q, body, v);
    assert t[..|body| + 2] == [q] + body + [q];
  }
}
