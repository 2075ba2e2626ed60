# Username validators of the shared GraphQL user layer

The shared package exports two regular expressions that decide which strings
are acceptable user names:

- `handleRegex`, `/^@?[a-z0-9](\w){2,38}$/i`: a platform username. An
  optional leading `@`, then 3 to 39 characters. The first is an ASCII letter
  or digit. Every later one is an ASCII letter, digit or `_`. Letter case is
  ignored.
- `socialHandleRegex`, `/^@?([\w-]){1,39}$/i`: a social-network handle. An
  optional leading `@`, then 1 to 39 ASCII letters, digits, `_` or `-`.

The model has three modules:

- `Ascii` (`ascii.dfy`): the ASCII character classes (`\w`, `[a-z0-9]`,
  `[\w-]`) and case folding. This is the folding ECMAScript uses under the `i`
  flag without the `u` flag, where a non-ASCII character never folds into
  ASCII.
- `RegExp` (`regexp.dfy`): the regular-expression fragment these literals
  use, with ECMAScript semantics. It covers character classes, concatenation,
  capturing groups, bounded quantifiers (with the standard's rule that an
  iteration past the minimum may not match the empty string), `^`, `$` without
  the `m` flag, and the `i` flag. `Test` models `RegExp.prototype.test` on a
  string for a pattern without `g`/`y`. `TestArgument` adds JavaScript's
  ToString conversion for `undefined`, `null` and booleans.
- `Users` (`users.dfy`): the two literals as values of that syntax
  (`HandleRegex`, `SocialHandleRegex`), and the rules they enforce
  (`ValidHandle`, `ValidSocialHandle`). It proves that each literal accepts
  exactly the strings its rule describes, then proves the rules' consequences.

## Model

| member | source | states |
|---|---|---|
| Users.HandleRegexMatches | packages/shared/src/graphql/users.ts:270 | `handleRegex.test(s)` is true exactly when `s` is an optional `@` followed by 3 to 39 characters, the first a letter or digit and the rest letters, digits or `_` (both directions) |
| Users.SocialHandleRegexMatches | packages/shared/src/graphql/users.ts:272 | `socialHandleRegex.test(s)` is true exactly when `s` is an optional `@` followed by 1 to 39 characters of `[A-Za-z0-9_-]` (both directions) |
| Users.HandleBodyMatches | packages/shared/src/graphql/users.ts:270 | the part `[a-z0-9](\w){2,38}` under `i` matches exactly the 3-to-39-character bodies whose first character is alphanumeric and whose others are word characters |
| Users.SocialBodyMatches | packages/shared/src/graphql/users.ts:272 | the part `([\w-]){1,39}` under `i` matches exactly the 1-to-39-character strings of `[A-Za-z0-9_-]` |
| Users.OptionalAt | packages/shared/src/graphql/users.ts:270-272 | a leading `@?` before a part that cannot start with `@` means: the part must match the string with at most one leading `@` removed |
| Users.AlnumClass | packages/shared/src/graphql/users.ts:270 | with the `i` flag, `[a-z0-9]` accepts exactly the ASCII letters of either case and the digits |
| Users.HandleShape | packages/shared/src/graphql/users.ts:270 | a valid username is a body, or `@` plus a body (iff); its length is 3 to 40 and it has no `@` after the first position |
| Users.SocialShape | packages/shared/src/graphql/users.ts:272 | a valid social handle is a social body, or `@` plus one (iff); its length is 1 to 40 and it has no `@` after the first position |
| Users.HandleFirstCharacter | packages/shared/src/graphql/users.ts:270 | in a valid username the first body character is an ASCII letter or digit, so a leading `_`, `@_` or `@@` is refused |
| Users.HandleForeignCharacter | packages/shared/src/graphql/users.ts:270 | any character outside `[A-Za-z0-9_]` except a leading `@` (such as `-`, `.`, a space, a non-ASCII character or an interior `@`) makes a username invalid |
| Users.SocialForeignCharacter | packages/shared/src/graphql/users.ts:272 | any character outside `[A-Za-z0-9_-]` except a leading `@` makes a social handle invalid |
| Users.ValidatorsIgnoreCase | packages/shared/src/graphql/users.ts:270-272 | changing the case of any ASCII letters never changes either verdict |
| Users.ValidatorsRefuseEmptyAndLong | packages/shared/src/graphql/users.ts:270-272 | both validators refuse `""`, `"@"` and every string longer than 40 characters |
| Users.ValidatorsAnchoredAtEnd | packages/shared/src/graphql/users.ts:270-272 | any string followed by a character outside `[A-Za-z0-9_-]`, such as a line feed, is refused by both validators; extra characters inside the class are not refused as such (`abc` and `abcd` are both valid) |
| Users.NonStringArguments | packages/shared/src/graphql/users.ts:270-272 | since `test` converts its argument with ToString, both patterns accept `undefined` (and a missing argument), `null`, `true` and `false` |
| Users.TrailingNewlineNeedsEndAnchor | packages/shared/src/graphql/users.ts:270 | a valid username followed by `"\n"` is refused by `handleRegex`, and would be accepted by the same pattern without `$` |
| Users.HandleIsSocialHandle | packages/shared/src/graphql/users.ts:270-272 | every valid username is a valid social handle; `a-b` shows the converse fails |
| RegExp.Lit | packages/shared/src/graphql/users.ts:270-272 | under the `i` flag the literal `@` of `@?` (any literal character) accepts exactly the characters equal to it ignoring case |
| RegExp.AnchoredTest | packages/shared/src/graphql/users.ts:270-272 | under both `^` and `$`, `test` accepts exactly the strings the whole body matches |
| RegExp.RepeatClass | packages/shared/src/graphql/users.ts:270-272 | a quantifier `{min,max}` (and `?`) over one class matches exactly the strings of `min` to `max` characters of that class |
| RegExp.TestIgnoresCase | packages/shared/src/graphql/users.ts:270-272 | a pattern with the `i` flag gives the same verdict on every ASCII case variant of a string |

## Left out

- The GraphQL query, mutation and fragment documents in `packages/shared/src/graphql/users.ts`. They are literal text sent to an external server, which does the pagination, history hiding, rank aggregation and digest subscription. The client code states no behaviour about them.
- The TypeScript `type` and `interface` declarations in the same file. They describe response shapes and have no operations.
- `packages/shared/tailwind.config.ts`: a static table of design tokens with no logic.
- The `gql` template tag and the `./fragments` imports: `./fragments` is not part of this model, and `gql` is a foreign library.
- RegExp.Test: takes a string only. JavaScript's `test` first converts any other argument with ToString. `RegExp.TestArgument` models that conversion for `undefined`, `null` and booleans. Numbers, objects and symbols, whose conversion depends on formatting rules or user code, are not modelled.
- JavaScript strings are sequences of UTF-16 code units. The model uses Dafny `char`. The difference never matters here: every character outside ASCII, surrogate halves included, is refused by both patterns.
- The `RegExp` module covers only the syntax these two literals use. It has no alternation, back-references, look-arounds, other flags or `lastIndex` state. Capture contents are not recorded because they never affect whether `test` succeeds.
- Unicode case mapping of non-ASCII characters is not modelled. Under `i` without `u`, ECMAScript never folds a non-ASCII character onto an ASCII one. So the only classes used here, which are ASCII-only, are decided by ASCII folding alone.
