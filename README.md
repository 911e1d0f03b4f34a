# Chat validation patterns: a verified model

The repository describes a multi-room chat system, but its only executable code is the
input validator `ChatClasses.Validation` in `index.ts`. It has five fixed regular-expression literals
(mail, mobile, username, first name, surname) and an `isCorrect(value, regex)` arrow function
that returns `new RegExp(regex).test(value)` as a boolean. Beside it sits the `ChatLimits`
constant table. Everything else in the file is TypeScript interfaces and type unions with no
code.

The model is pure Dafny, in five modules:

- `CharClasses` (`char_classes.dfy`): the bracketed character classes of the patterns.
  `\s` is written out as the WhiteSpace and LineTerminator characters of ECMA-262.
- `RegexLiterals` (`regex_literals.dfy`): each literal as a predicate "the pattern matches
  `s[i..j]`", built from the pattern's own pieces. `^` becomes `i == 0` and `$` becomes
  `j == |s|`, since no `m` flag is set. `[C]{m,n}` becomes `RepeatBetween`. The mail group
  `([^\s@.,]+\.)+` becomes the recursive `DomainMatch`. `RegExp.prototype.test` on a pattern
  is "some span matches" (`MailTest`, `MobileTest`, ...).
- `ValidationRules` (`validation_rules.dfy`): independent plain definitions of the accepted
  languages (`IsMobileNumber`, `HasUserNamePrefix`, `MailShape`, ...). It also holds the
  lemmas that each pattern model accepts exactly that language, and what every accepted
  mail address satisfies.
- `Validation` (`validation.dfy`): the pattern fields as constants, `new RegExp(regex)`
  (`NewRegExp`), and `IsCorrect`. The contract of `IsCorrect` states the accepted language
  pattern by pattern. Concrete example lemmas fix the quirks of the literals.
- `ChatLimits` (`chat_limits.dfy`): the four limit constants.

Behaviour the model records as the code has it:

- The username, first-name and surname patterns have no `$`. They constrain only a prefix:
  the first 6, 2 and 1 characters. The upper bounds 16 and 32 never reject anything.
  Trailing characters of any kind are ignored. The comments beside the literals
  ("from 6-16 symbols") say otherwise; the model follows the code.
- `А-Я` and `а-я` cover U+0410 to U+044F. So Ё (U+0401) and ё (U+0451) are not letters for
  these patterns.
- The mobile pattern is anchored at both ends: 8 to 12 ASCII digits, the first one 1 to 9.
- `isCorrect` consults only its `regex` argument, never the class's own fields. Without a
  pattern, `new RegExp(undefined)` is the empty pattern `/(?:)/`, which matches every value.

## Model

| member | source | states |
|---|---|---|
| CharClasses.IsWhiteSpace | index.ts:109 | `\s`: the WhiteSpace and LineTerminator characters of ECMA-262 (TAB, VT, FF, ZWNBSP, the Zs characters, LF, CR, LS, PS) |
| CharClasses.InClass | index.ts:109-113 | the bracketed classes `[1-9]`, `[0-9]`, `[a-zA-Z0-9\-\_]`, `[a-zA-ZА-Яа-я]`, `[^\s@]`, `[^\s@.,]`, case-sensitive |
| RegexLiterals.DomainMatch | index.ts:109 | `([^\s@.,]+\.)+[^\s@.,]{2,}` matches `s[i..j]`: a label and a dot, then either the same again (the group's `+`, as recursion) or a final label of two or more characters |
| RegexLiterals.MailMatch | index.ts:109 | the mail literal matches `s[i..j]`: `^` as `i == 0`, `[^\s@]+`, `@`, the domain part, `$` as `j` being the length of `s` |
| RegexLiterals.MailTest | index.ts:109 | `test` of the mail literal: some span matches |
| RegexLiterals.MobileMatch | index.ts:110 | `^[1-9]{1}[0-9]{7,11}$` matches `s[i..j]`: `i == 0`, one `[1-9]`, 7 to 11 of `[0-9]`, `j` the length of `s` |
| RegexLiterals.MobileTest | index.ts:110 | `test` of the mobile literal: some span matches |
| RegexLiterals.UserNameMatch | index.ts:111 | `^[a-zA-Z0-9\-\_]{6,16}` matches `s[i..j]`: `i == 0` and 6 to 16 class characters; no condition on `j`, as there is no `$` |
| RegexLiterals.UserNameTest | index.ts:111 | `test` of the username literal: some span matches |
| RegexLiterals.FirstNameMatch | index.ts:112 | `^[a-zA-ZА-Яа-я]{2,16}` matches `s[i..j]`: `i == 0` and 2 to 16 letters; no `$` |
| RegexLiterals.FirstNameTest | index.ts:112 | `test` of the first-name literal: some span matches |
| RegexLiterals.SurNameMatch | index.ts:113 | `^[a-zA-ZА-Яа-я]{1,32}` matches `s[i..j]`: `i == 0` and 1 to 32 letters; no `$` |
| RegexLiterals.SurNameTest | index.ts:113 | `test` of the surname literal: some span matches |
| RegexLiterals.EmptyMatch | index.ts:116 | `/(?:)/`, built by `new RegExp(undefined)`, matches exactly the empty spans |
| RegexLiterals.EmptyTest | index.ts:116 | `test` of the empty pattern: some span matches |
| Validation.Test | index.ts:116 | `RegExp.prototype.test` for each pattern: the `test` predicate of that literal |
| ValidationRules.MailExact | index.ts:109 | the mail literal accepts a string iff it is a non-empty local part without whitespace or `@`, one `@`, and a domain of dot-separated non-empty labels without whitespace, `@`, `.` or `,`, with at least one dot and a last label of two or more characters |
| ValidationRules.MailTestHasShape | index.ts:109 | every string the mail literal accepts has that shape |
| ValidationRules.MailShapeIsAccepted | index.ts:109 | every string of that shape is accepted by the mail literal |
| ValidationRules.DomainExact | index.ts:109 | the group-repetition part `([^\s@.,]+\.)+[^\s@.,]{2,}` matches a span iff the span is such a domain |
| ValidationRules.DomainMatchHasShape | index.ts:109 | a span that the domain part matches is such a domain (by induction on the repetitions of the group) |
| ValidationRules.DomainShapeMatches | index.ts:109 | such a domain is matched by the domain part, splitting at its first dot |
| ValidationRules.MailAccepted | index.ts:109 | an accepted mail address has exactly one `@` and no whitespace; after the `@` there is a dot, no empty label (no `@.`, no `..`), and no comma; its last label has two or more characters and contains neither `.` nor `,` |
| ValidationRules.MobileExact | index.ts:110 | the mobile literal accepts exactly the strings of 8 to 12 ASCII digits whose first digit is 1 to 9 |
| ValidationRules.UserNameExact | index.ts:111 | the username literal accepts a string iff its first six characters are in `[A-Za-z0-9_-]` |
| ValidationRules.FirstNameExact | index.ts:112 | the first-name literal accepts a string iff its first two characters are Latin letters or in U+0410..U+044F |
| ValidationRules.SurNameExact | index.ts:113 | the surname literal accepts a string iff its first character is a Latin letter or in U+0410..U+044F |
| ValidationRules.UserNameIgnoresSuffix | index.ts:111 | appending anything to an accepted username keeps it accepted |
| ValidationRules.FirstNameIgnoresSuffix | index.ts:112 | appending anything to an accepted first name keeps it accepted |
| ValidationRules.SurNameIgnoresSuffix | index.ts:113 | appending anything to an accepted surname keeps it accepted |
| ValidationRules.EmptyAlways | index.ts:116 | the empty pattern that `new RegExp(undefined)` builds matches every string |
| Validation.IsCorrect | index.ts:115-122 | `isCorrect` builds its pattern with `NewRegExp` (the given literal, or `/(?:)/` when `regex` is undefined) and is true without a pattern and with the empty pattern; with each of the five patterns it is true exactly on that pattern's language (mail shape, mobile number, username, first-name and surname prefixes) |
| Validation.PrefixPatternsIgnoreSuffix | index.ts:111-113 | for the three patterns without `$`, `isCorrect` stays true when anything is appended to an accepted value |
| Validation.MobileExamples | index.ts:110 | `79991234567` passes; a leading `+`, a leading `0`, 7 digits and 13 digits fail |
| Validation.UserNameExamples | index.ts:111 | a 26-letter name and `user_1 is not a name!` pass; `user!` fails |
| Validation.CyrillicExamples | index.ts:112-113 | `Олег` passes as a first name; `Ёжик` and `Лёва` fail as first names; `Лёва` passes as a surname and `ё` fails |
| Validation.MailCommaInLocalPart | index.ts:109 | `a,b@mail.ru` passes: commas are allowed before the `@` |
| Validation.MailShortLastLabel | index.ts:109 | `user@mail.r` fails: the last label needs two characters |
| Validation.MailTwoAts | index.ts:109 | `user@@mail.ru` fails |
| Validation.MailEmptyLabel | index.ts:109 | `user@mail..ru` fails: no empty label |
| ChatLimits.LimitValues | index.ts:127-132 | maxMessageTextSize = 4000, maxUserCountInChat = 10000, maxSocketIOTimeout = 10000, maxUserChats = 600 |

Proof helpers without rows of their own: `ValidationRules.FirstDot` and `LastDot` (the first and the last dot of a span), `AfterDot`, `LastLabelAfterDot` and `LabelThenDot` (steps of the domain induction).

## Left out

- The interfaces and type unions (`IChat`, `IChatEvents`, `IMessage`, `IUser`, `IChatRoles`, ...; index.ts:3-104) carry no behaviour. The chat engine they sketch (rooms, membership, roles, message log, events) has no code to model.
- Validation.IsCorrect: `value` is a string only. A `number` would go through JavaScript's Number-to-String conversion, which is floating-point formatting.
- Validation.IsCorrect: `regex` is one of the five literals or undefined. An arbitrary pattern string would need a general regular-expression engine, and an invalid one makes `new RegExp` throw a SyntaxError. Both are outside this model.
- The third parameter `type` of `IValidationClass.isCorrect` is declared but never read by the implementation.
- Strings are sequences of Unicode scalar values. JavaScript matches UTF-16 code units, so the two agree except for characters above U+FFFF. Such a character counts as two code units in JavaScript, so for example a one-character astral last label passes `{2,}` there but not here.
- `\s` follows the current Unicode Zs list. Older engines also counted U+180E.
- Repeated calls to `isCorrect` on the same arguments agree. This has no lemma of its own: `IsCorrect` is a mathematical function of its two arguments. The reasons in the source are that each call builds a fresh `RegExp` and that no literal has a `g` or `y` flag.
- The limit constants are not consulted by any code. `maxSocketIOTimeout` belongs to the transport layer and the `Date` timestamps to the clock; neither is modelled.
