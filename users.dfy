/** The two username validators of the shared GraphQL user layer:

      handleRegex       = /^@?[a-z0-9](\w){2,38}$/i   the platform username
      socialHandleRegex = /^@?([\w-]){1,39}$/i        a social-network handle

    Each is written down twice: as the regular expression literal itself, under
    the ECMAScript semantics of module RegExp, and as the rule it enforces
    (`ValidHandle`, `ValidSocialHandle`). The two are proved to accept the same
    strings, and the rules' consequences are proved as lemmas. */
module Users {
  import opened Ascii
  import opened RegExp

  /** `\w` = `[a-zA-Z0-9_]` */
  const WordRanges: seq<Range> := [Range('a', 'z'), Range('A', 'Z'), Range('0', '9'), Range('_', '_')]

  /** `[a-z0-9]` */
  const AlnumRanges: seq<Range> := [Range('a', 'z'), Range('0', '9')]

  /** `[\w-]` */
  const WordDashRanges: seq<Range> := WordRanges + [Range('-', '-')]

  /** `@?` */
  const OptionalAtRegex: Regex := Repeat(Lit('@'), 0, 1)

  /** `[a-z0-9](\w){2,38}` */
  const HandleBodyRegex: Regex := Concat(Class(AlnumRanges), Repeat(Group(Class(WordRanges)), 2, 38))

  /** `([\w-]){1,39}` */
  const SocialBodyRegex: Regex := Repeat(Group(Class(WordDashRanges)), 1, 39)

  /** `handleRegex`: `/^@?[a-z0-9](\w){2,38}$/i` */
  const HandleRegex: Pattern := Pattern(Concat(OptionalAtRegex, HandleBodyRegex), true, true, true)

  /** `socialHandleRegex`: `/^@?([\w-]){1,39}$/i` */
  const SocialHandleRegex: Pattern := Pattern(Concat(OptionalAtRegex, SocialBodyRegex), true, true, true)

  // ---------------------------------------------------------------------------
  // The rules the two patterns enforce

  /** The string with one leading `@`, if there is one, removed. */
  function StripAt(s: string): (b: string)
    ensures |b| <= |s| <= |b| + 1
    ensures |b| < |s| <==> |s| > 0 && s[0] == '@'
  {
    if |s| > 0 && s[0] == '@' then s[1..] else s
  }

  /** A platform username without its `@`: 3 to 39 characters, the first an
      ASCII letter or digit, the others ASCII letters, digits or `_`. */
  predicate HandleBody(b: string) {
    3 <= |b| <= 39 && IsAlnum(b[0]) && forall i :: 1 <= i < |b| ==> IsWordChar(b[i])
  }

  predicate ValidHandle(s: string) {
    HandleBody(StripAt(s))
  }

  /** A social handle without its `@`: 1 to 39 ASCII letters, digits, `_` or `-`. */
  predicate SocialBody(b: string) {
    1 <= |b| <= 39 && forall i :: 0 <= i < |b| ==> IsWordOrDash(b[i])
  }

  predicate ValidSocialHandle(s: string) {
    SocialBody(StripAt(s))
  }

  // ---------------------------------------------------------------------------
  // The classes of the patterns under the `i` flag

  lemma AtClass(c: char)
    ensures ClassHas([Range('@', '@')], c, true) <==> c == '@'
  {
    var r := [Range('@', '@')];
    if c == '@' {
      assert r[0].lo <= ToLower(c) <= r[0].hi;
    }
  }

  /** With the `i` flag, `[a-z0-9]` also takes the upper-case letters. */
  lemma AlnumClass(c: char)
    ensures ClassHas(AlnumRanges, c, true) <==> IsAlnum(c)
  {
    if IsLetter(c) {
      assert AlnumRanges[0].lo <= ToLower(c) <= AlnumRanges[0].hi;
    } else if IsDigit(c) {
      assert AlnumRanges[1].lo <= ToLower(c) <= AlnumRanges[1].hi;
    }
  }

  lemma WordClass(c: char)
    ensures ClassHas(WordRanges, c, true) <==> IsWordChar(c)
  {
    if IsLetter(c) {
      assert WordRanges[0].lo <= ToLower(c) <= WordRanges[0].hi;
    } else if IsDigit(c) {
      assert WordRanges[2].lo <= ToLower(c) <= WordRanges[2].hi;
    } else if c == '_' {
      assert WordRanges[3].lo <= ToLower(c) <= WordRanges[3].hi;
    }
  }

  lemma WordDashClass(c: char)
    ensures ClassHas(WordDashRanges, c, true) <==> IsWordOrDash(c)
  {
    if IsLetter(c) {
      assert WordDashRanges[0].lo <= ToLower(c) <= WordDashRanges[0].hi;
    } else if IsDigit(c) {
      assert WordDashRanges[2].lo <= ToLower(c) <= WordDashRanges[2].hi;
    } else if c == '_' {
      assert WordDashRanges[3].lo <= ToLower(c) <= WordDashRanges[3].hi;
    } else if c == '-' {
      assert WordDashRanges[4].lo <= ToLower(c) <= WordDashRanges[4].hi;
    }
  }

  // ---------------------------------------------------------------------------
  // The patterns accept exactly the strings the rules describe

  /** `@?` followed by a part that never starts with `@` accepts `s` exactly
      when that part accepts `s` with its leading `@` removed. */
  lemma OptionalAt(r: Regex, s: string)
    requires forall b :: Matches(r, b, true) ==> b != [] && b[0] != '@'
    ensures Matches(Concat(OptionalAtRegex, r), s, true) <==> Matches(r, StripAt(s), true)
  {
    forall u ensures Matches(OptionalAtRegex, u, true) <==> u == [] || u == ['@'] {
      RepeatClass(Lit('@'), [Range('@', '@')], 0, 1, u, true);
      if |u| == 1 { AtClass(u[0]); }
    }
    if Matches(Concat(OptionalAtRegex, r), s, true) {
      var k :| 0 <= k <= |s| && Matches(OptionalAtRegex, s[..k], true) && Matches(r, s[k..], true);
      if k == 0 {
        assert s[k..] == s;
      } else {
        assert s[..k] == ['@'];
      }
    }
    if Matches(r, StripAt(s), true) {
      var k := |s| - |StripAt(s)|;
      if k == 0 {
        assert s[..k] == [] && s[k..] == s;
      } else {
        assert s[..k] == ['@'];
      }
      assert Matches(OptionalAtRegex, s[..k], true) && Matches(r, s[k..], true);
    }
  }

  lemma HandleBodyMatches(b: string)
    ensures Matches(HandleBodyRegex, b, true) <==> HandleBody(b)
  {
    var rest := Group(Class(WordRanges));
    if Matches(HandleBodyRegex, b, true) {
      var k :| 0 <= k <= |b| && Matches(Class(AlnumRanges), b[..k], true) && RepeatMatches(rest, 2, 38, b[k..], true);
      assert k == 1;
      AlnumClass(b[0]);
      RepeatClass(rest, WordRanges, 2, 38, b[1..], true);
      forall i | 1 <= i < |b| ensures IsWordChar(b[i]) {
        assert b[i] == b[1..][i - 1];
        WordClass(b[i]);
      }
    }
    if HandleBody(b) {
      AlnumClass(b[0]);
      forall i | 0 <= i < |b[1..]| ensures ClassHas(WordRanges, b[1..][i], true) {
        WordClass(b[1..][i]);
      }
      RepeatClass(rest, WordRanges, 2, 38, b[1..], true);
      assert Matches(Class(AlnumRanges), b[..1], true);
    }
  }

  lemma SocialBodyMatches(b: string)
    ensures Matches(SocialBodyRegex, b, true) <==> SocialBody(b)
  {
    RepeatClass(Group(Class(WordDashRanges)), WordDashRanges, 1, 39, b, true);
    forall i | 0 <= i < |b| ensures ClassHas(WordDashRanges, b[i], true) <==> IsWordOrDash(b[i]) {
      WordDashClass(b[i]);
    }
  }

  /** `handleRegex.test(s)` holds exactly when `s` is a valid platform username. */
  lemma HandleRegexMatches(s: string)
    ensures Test(HandleRegex, s) <==> ValidHandle(s)
  {
    AnchoredTest(HandleRegex, s);
    forall b | Matches(HandleBodyRegex, b, true) ensures b != [] && b[0] != '@' {
      HandleBodyMatches(b);
    }
    OptionalAt(HandleBodyRegex, s);
    HandleBodyMatches(StripAt(s));
  }

  /** `socialHandleRegex.test(s)` holds exactly when `s` is a valid social handle. */
  lemma SocialHandleRegexMatches(s: string)
    ensures Test(SocialHandleRegex, s) <==> ValidSocialHandle(s)
  {
    AnchoredTest(SocialHandleRegex, s);
    forall b | Matches(SocialBodyRegex, b, true) ensures b != [] && b[0] != '@' {
      SocialBodyMatches(b);
    }
    OptionalAt(SocialBodyRegex, s);
    SocialBodyMatches(StripAt(s));
  }

  // ---------------------------------------------------------------------------
  // Consequences of the rules

  /** A username is an optional single `@` and a body of 3 to 39 characters: the
      whole string is 3 to 40 characters long and holds no `@` after its first
      position. */
  lemma HandleShape(s: string)
    ensures ValidHandle(s) <==> HandleBody(s) || (|s| > 0 && s[0] == '@' && HandleBody(s[1..]))
    ensures ValidHandle(s) ==> 3 <= |s| <= 40 && forall i :: 0 < i < |s| ==> s[i] != '@'
  {
    if ValidHandle(s) && |s| > 0 && s[0] == '@' {
      forall i | 0 < i < |s| ensures s[i] != '@' {
        assert s[i] == s[1..][i - 1];
      }
    }
  }

  /** A social handle is an optional single `@` and 1 to 39 characters of
      `[A-Za-z0-9_-]`. */
  lemma SocialShape(s: string)
    ensures ValidSocialHandle(s) <==> SocialBody(s) || (|s| > 0 && s[0] == '@' && SocialBody(s[1..]))
    ensures ValidSocialHandle(s) ==> 1 <= |s| <= 40 && forall i :: 0 < i < |s| ==> s[i] != '@'
  {
    if ValidSocialHandle(s) && |s| > 0 && s[0] == '@' {
      forall i | 0 < i < |s| ensures s[i] != '@' {
        assert s[i] == s[1..][i - 1];
      }
    }
  }

  /** The body of a username starts with a letter or digit: `_abc`, `@_abc` and
      `@@abc` are refused. */
  lemma HandleFirstCharacter(s: string)
    requires ValidHandle(s)
    ensures |s| > 0 && (s[0] == '@' || IsAlnum(s[0]))
    ensures s[0] == '@' ==> |s| > 1 && IsAlnum(s[1])
  {
  }

  /** Any character outside `[A-Za-z0-9_]`, other than a leading `@`, refuses a
      username: a `-`, `.`, space, non-ASCII character or interior `@`. */
  lemma HandleForeignCharacter(s: string, i: nat)
    requires i < |s| && !IsWordChar(s[i]) && !(i == 0 && s[i] == '@')
    ensures !ValidHandle(s)
  {
    if |s| > 0 && s[0] == '@' {
      assert StripAt(s)[i - 1] == s[i];
    } else {
      assert StripAt(s)[i] == s[i];
    }
  }

  /** Any character outside `[A-Za-z0-9_-]`, other than a leading `@`, refuses a
      social handle. */
  lemma SocialForeignCharacter(s: string, i: nat)
    requires i < |s| && !IsWordOrDash(s[i]) && !(i == 0 && s[i] == '@')
    ensures !ValidSocialHandle(s)
  {
    if |s| > 0 && s[0] == '@' {
      assert StripAt(s)[i - 1] == s[i];
    } else {
      assert StripAt(s)[i] == s[i];
    }
  }

  /** Both patterns carry the `i` flag: changing the case of any ASCII letters
      never changes the verdict. */
  lemma ValidatorsIgnoreCase(s: string, t: string)
    requires CaseVariant(s, t)
    ensures ValidHandle(s) <==> ValidHandle(t)
    ensures ValidSocialHandle(s) <==> ValidSocialHandle(t)
  {
    TestIgnoresCase(HandleRegex, s, t);
    HandleRegexMatches(s);
    HandleRegexMatches(t);
    TestIgnoresCase(SocialHandleRegex, s, t);
    SocialHandleRegexMatches(s);
    SocialHandleRegexMatches(t);
  }

  /** Both validators refuse the empty string, a lone `@` and anything longer
      than 40 characters. */
  lemma ValidatorsRefuseEmptyAndLong(s: string)
    requires s == [] || s == "@" || |s| > 40
    ensures !ValidHandle(s) && !ValidSocialHandle(s)
  {
  }

  /** `$` without the `m` flag: a string followed by a character outside the
      pattern's classes, such as a line feed, is refused by both validators,
      whatever precedes it. */
  lemma ValidatorsAnchoredAtEnd(s: string, c: char)
    requires !IsWordOrDash(c)
    ensures !ValidHandle(s + [c]) && !ValidSocialHandle(s + [c])
    ensures ValidHandle("abc") && ValidHandle("abcd")
  {
    var t := s + [c];
    assert t[|s|] == c;
    if |s| == 0 {
      assert t == [c];
      if c == '@' {
        assert StripAt(t) == [];
      } else {
        HandleForeignCharacter(t, 0);
        SocialForeignCharacter(t, 0);
      }
    } else {
      HandleForeignCharacter(t, |s|);
      SocialForeignCharacter(t, |s|);
    }
  }

  /** The `$` is what refuses a trailing line feed: the same pattern without it
      accepts a valid username followed by `"\n"`. */
  lemma TrailingNewlineNeedsEndAnchor(s: string)
    requires ValidHandle(s)
    ensures !Test(HandleRegex, s + "\n")
    ensures Test(HandleRegex.(anchorEnd := false), s + "\n")
  {
    assert !IsWordOrDash('\n');
    ValidatorsAnchoredAtEnd(s, '\n');
    HandleRegexMatches(s + "\n");
    HandleRegexMatches(s);
    AnchoredTest(HandleRegex, s);
    var t := s + "\n";
    assert t[0..|s|] == s;
  }

  /** `test` converts a non-string argument with ToString first, so both
      patterns accept `undefined` (and a missing argument), `null`, `true` and
      `false`, which convert to valid names. */
  lemma NonStringArguments()
    ensures TestArgument(HandleRegex, Undefined) && TestArgument(SocialHandleRegex, Undefined)
    ensures TestArgument(HandleRegex, Null) && TestArgument(SocialHandleRegex, Null)
    ensures TestArgument(HandleRegex, Bool(true)) && TestArgument(SocialHandleRegex, Bool(true))
    ensures TestArgument(HandleRegex, Bool(false)) && TestArgument(SocialHandleRegex, Bool(false))
  {
    var words := ["undefined", "null", "true", "false"];
    forall w | w in words ensures Test(HandleRegex, w) && Test(SocialHandleRegex, w) {
      HandleRegexMatches(w);
      SocialHandleRegexMatches(w);
      HandleIsSocialHandle(w);
    }
  }

  /** Every platform username is also a valid social handle; the converse fails,
      for example on `a-b`. */
  lemma HandleIsSocialHandle(s: string)
    ensures ValidHandle(s) ==> ValidSocialHandle(s)
    ensures ValidSocialHandle("a-b") && !ValidHandle("a-b")
  {
    assert "a-b"[1] == '-';
    HandleForeignCharacter("a-b", 1);
  }
}
