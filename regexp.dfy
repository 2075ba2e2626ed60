/** The fragment of ECMAScript regular expressions (ECMA-262, section 22.2
    "RegExp (Regular Expression) Objects") that the username patterns use:
    character classes, concatenation, capturing groups, bounded quantifiers,
    the `^` / `$` assertions and the `i` flag, without the `m`, `g`, `y`, `s`
    or `u` flags.

    The semantics is the set of strings a pattern accepts. For patterns without
    back-references or look-arounds, the backtracking matcher of the standard
    explores every alternative until one succeeds, so `test` holds exactly when
    some way of splitting the input fits the pattern. The one rule of the
    standard's RepeatMatcher that prunes alternatives, that an iteration beyond
    the minimum count may not match the empty string, is kept in `RepeatMatches`.
    Captures are not recorded: they never change whether a match exists. */
module RegExp {
  import opened Ascii

  /** An inclusive range `lo-hi` inside a character class. */
  datatype Range = Range(lo: char, hi: char)

  datatype Regex =
    | Empty                                     // matches only ""
    | Class(ranges: seq<Range>)                 // [a-z0-9], \w, a literal character
    | Concat(left: Regex, right: Regex)         // left right
    | Group(inner: Regex)                       // (inner)
    | Repeat(body: Regex, min: nat, max: nat)   // body{min,max}; ? is {0,1}

  /** A regular expression literal `/^?body$?/flags`. */
  datatype Pattern = Pattern(body: Regex, anchorStart: bool, anchorEnd: bool, ignoreCase: bool)

  /** The literal character `c`, which ECMAScript matches like the class `[c]`. */
  function Lit(c: char): (r: Regex)
    ensures r.Class? && forall d :: ClassHas(r.ranges, d, true) <==> SameIgnoringCase(c, d)
  {
    forall d ensures ClassHas([Range(c, c)], d, true) <==> SameIgnoringCase(c, d) {
      LiteralHas(c, d);
    }
    Class([Range(c, c)])
  }

  /** Under the `i` flag the class `[c]` takes exactly the characters that agree
      with `c` ignoring case. */
  lemma LiteralHas(c: char, d: char)
    ensures ClassHas([Range(c, c)], d, true) <==> SameIgnoringCase(c, d)
  {
    var rs := [Range(c, c)];
    assert InRanges(rs, ToLower(d)) <==> ToLower(d) == c by {
      if ToLower(d) == c { assert rs[0].lo <= ToLower(d) <= rs[0].hi; }
    }
    assert InRanges(rs, ToUpper(d)) <==> ToUpper(d) == c by {
      if ToUpper(d) == c { assert rs[0].lo <= ToUpper(d) <= rs[0].hi; }
    }
  }

  predicate InRanges(ranges: seq<Range>, c: char) {
    exists i :: 0 <= i < |ranges| && ranges[i].lo <= c <= ranges[i].hi
  }

  /** Whether the class matches `c`; under the `i` flag a class member matches
      when it agrees with `c` ignoring case. */
  predicate ClassHas(ranges: seq<Range>, c: char, ignoreCase: bool) {
    if ignoreCase then InRanges(ranges, ToLower(c)) || InRanges(ranges, ToUpper(c))
    else InRanges(ranges, c)
  }

  /** `r` matches the whole of `s`. */
  predicate Matches(r: Regex, s: string, ignoreCase: bool)
    decreases r, 0, 0
  {
    match r
    case Empty => s == []
    case Class(ranges) => |s| == 1 && ClassHas(ranges, s[0], ignoreCase)
    case Concat(left, right) =>
      exists k :: 0 <= k <= |s| && Matches(left, s[..k], ignoreCase) && Matches(right, s[k..], ignoreCase)
    case Group(inner) => Matches(inner, s, ignoreCase)
    case Repeat(body, min, max) => RepeatMatches(body, min, max, s, ignoreCase)
  }

  /** `s` splits into between `min` and `max` pieces, each matched by `body`;
      once `min` pieces are matched, a further piece may not be empty. */
  predicate RepeatMatches(body: Regex, min: nat, max: nat, s: string, ignoreCase: bool)
    decreases body, 1, max
  {
    (min == 0 && s == [])
    || (0 < max &&
        exists k :: (if min == 0 then 1 else 0) <= k <= |s|
          && Matches(body, s[..k], ignoreCase)
          && RepeatMatches(body, if min == 0 then 0 else min - 1, max - 1, s[k..], ignoreCase))
  }

  /** `RegExp.prototype.test(s)` for a pattern without the `g` or `y` flag: some
      substring matches, starting at 0 under `^` and ending at |s| under `$`.
      Without the `m` flag, `$` holds only at the very end of the input, so a
      trailing line terminator is not skipped. */
  predicate Test(p: Pattern, s: string) {
    exists i, j :: 0 <= i <= j <= |s| && (p.anchorStart ==> i == 0) && (p.anchorEnd ==> j == |s|)
      && Matches(p.body, s[i..j], p.ignoreCase)
  }

  /** The argument of `test`. JavaScript converts it with ToString before
      matching; besides strings, the values whose conversion is a fixed word
      are modelled. A call `test()` without an argument passes `undefined`. */
  datatype Argument = Str(text: string) | Undefined | Null | Bool(value: bool)

  function ArgumentToString(a: Argument): string {
    match a
    case Str(text) => text
    case Undefined => "undefined"
    case Null => "null"
    case Bool(value) => if value then "true" else "false"
  }

  /** `RegExp.prototype.test(a)` on an argument of any modelled kind. */
  predicate TestArgument(p: Pattern, a: Argument) {
    Test(p, ArgumentToString(a))
  }

  /** A pattern anchored at both ends accepts exactly the strings its body matches. */
  lemma AnchoredTest(p: Pattern, s: string)
    requires p.anchorStart && p.anchorEnd
    ensures Test(p, s) <==> Matches(p.body, s, p.ignoreCase)
  {
    assert s[0..|s|] == s;
    if Test(p, s) {
      var i, j :| 0 <= i <= j <= |s| && i == 0 && j == |s| && Matches(p.body, s[i..j], p.ignoreCase);
    }
  }

  /** A class or a group around a class matches exactly one character of the class. */
  lemma SingleClass(r: Regex, ranges: seq<Range>, s: string, ignoreCase: bool)
    requires r == Class(ranges) || r == Group(Class(ranges))
    ensures Matches(r, s, ignoreCase) <==> |s| == 1 && ClassHas(ranges, s[0], ignoreCase)
  {
  }

  /** A quantified single class accepts exactly the strings of `min` to `max`
      characters of the class. */
  lemma {:induction false} RepeatClass(r: Regex, ranges: seq<Range>, min: nat, max: nat, s: string, ignoreCase: bool)
    requires r == Class(ranges) || r == Group(Class(ranges))
    ensures RepeatMatches(r, min, max, s, ignoreCase)
        <==> min <= |s| <= max && forall i :: 0 <= i < |s| ==> ClassHas(ranges, s[i], ignoreCase)
    decreases max
  {
    var all := forall i :: 0 <= i < |s| ==> ClassHas(ranges, s[i], ignoreCase);
    var next := if min == 0 then 0 else min - 1;
    if RepeatMatches(r, min, max, s, ignoreCase) && !(min == 0 && s == []) {
      var k :| (if min == 0 then 1 else 0) <= k <= |s|
          && Matches(r, s[..k], ignoreCase)
          && RepeatMatches(r, next, max - 1, s[k..], ignoreCase);
      SingleClass(r, ranges, s[..k], ignoreCase);
      RepeatClass(r, ranges, next, max - 1, s[k..], ignoreCase);
      assert k == 1;
      forall i | 0 <= i < |s| ensures ClassHas(ranges, s[i], ignoreCase) {
        if i > 0 { assert s[i] == s[1..][i - 1]; }
      }
    }
    if min <= |s| <= max && all && |s| > 0 {
      assert 0 < max && next <= |s[1..]| <= max - 1;
      forall i | 0 <= i < |s[1..]| ensures ClassHas(ranges, s[1..][i], ignoreCase) {
        assert s[1..][i] == s[i + 1];
      }
      SingleClass(r, ranges, s[..1], ignoreCase);
      RepeatClass(r, ranges, next, max - 1, s[1..], ignoreCase);
      assert Matches(r, s[..1], ignoreCase) && RepeatMatches(r, next, max - 1, s[1..], ignoreCase);
    }
  }

  /** Under the `i` flag a class cannot tell case variants apart. */
  lemma ClassHasIgnoresCase(ranges: seq<Range>, a: char, b: char)
    requires SameIgnoringCase(a, b)
    ensures ClassHas(ranges, a, true) <==> ClassHas(ranges, b, true)
  {
    CaseForms(a, b);
  }

  /** Under the `i` flag, a regular expression that matches `s` matches every
      case variant of `s`. */
  lemma {:induction false} MatchesCaseVariant(r: Regex, s: string, t: string)
    requires CaseVariant(s, t) && Matches(r, s, true)
    ensures Matches(r, t, true)
    decreases r, 0, 0
  {
    match r
    case Empty =>
    case Class(ranges) =>
      ClassHasIgnoresCase(ranges, s[0], t[0]);
    case Concat(left, right) =>
      var k :| 0 <= k <= |s| && Matches(left, s[..k], true) && Matches(right, s[k..], true);
      CaseVariantSlice(s, t, 0, k);
      CaseVariantSlice(s, t, k, |s|);
      assert s[0..k] == s[..k] && t[0..k] == t[..k];
      assert s[k..|s|] == s[k..] && t[k..|t|] == t[k..];
      MatchesCaseVariant(left, s[..k], t[..k]);
      MatchesCaseVariant(right, s[k..], t[k..]);
    case Group(inner) =>
      MatchesCaseVariant(inner, s, t);
    case Repeat(body, min, max) =>
      RepeatCaseVariant(body, min, max, s, t);
  }

  lemma {:induction false} RepeatCaseVariant(body: Regex, min: nat, max: nat, s: string, t: string)
    requires CaseVariant(s, t) && RepeatMatches(body, min, max, s, true)
    ensures RepeatMatches(body, min, max, t, true)
    decreases body, 1, max
  {
    if !(min == 0 && s == []) {
      var next := if min == 0 then 0 else min - 1;
      var k :| (if min == 0 then 1 else 0) <= k <= |s|
          && Matches(body, s[..k], true)
          && RepeatMatches(body, next, max - 1, s[k..], true);
      CaseVariantSlice(s, t, 0, k);
      CaseVariantSlice(s, t, k, |s|);
      assert s[0..k] == s[..k] && t[0..k] == t[..k];
      assert s[k..|s|] == s[k..] && t[k..|t|] == t[k..];
      MatchesCaseVariant(body, s[..k], t[..k]);
      RepeatCaseVariant(body, next, max - 1, s[k..], t[k..]);
    }
  }

  /** A case-insensitive pattern gives the same verdict on every case variant. */
  lemma TestIgnoresCase(p: Pattern, s: string, t: string)
    requires p.ignoreCase && CaseVariant(s, t)
    ensures Test(p, s) <==> Test(p, t)
  {
    CaseVariantSymmetric(s, t);
    forall u, v, i, j | CaseVariant(u, v) && 0 <= i <= j <= |u| && Matches(p.body, u[i..j], true)
      ensures Matches(p.body, v[i..j], true)
    {
      CaseVariantSlice(u, v, i, j);
      MatchesCaseVariant(p.body, u[i..j], v[i..j]);
    }
  }
}
