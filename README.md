# validate: a verified model

The `validate` module gives four predicates over candidate values:
- `email(v)`;
- `mobile(v)`;
- `password(v, minStrength)`;
- `string(v, options)`.

It also keeps a diagnostic `log` that failing calls write to, and a `clear()` that empties it. The module's test suite, src/validate.test.js, pins its behaviour down example by example, and this project models the module as that suite describes it. The implementation file src/validate.js is not part of this model.

Each predicate is a Dafny function. It returns a `Verdict`: `Pass`, or `Fail(reason)` carrying the reason the log would record. The JavaScript boolean is `verdict == Pass`. Every test of the suite is a lemma or, for the log, a method, and the rules carry lemmas that tie each one to an independent statement of what it accepts.

Layout, one module per file:
- `Text` (text.dfy): character classes, splitting at a separator and joining back, the last index of a character, and decimal numerals.
- `Input` (input.dfy): the candidate value `Str(s) | Null | Undefined | Obj`, the reasons and verdicts, the shared first check that every predicate makes, and the log messages.
- `EmailRule`, `MobileRule`, `PasswordRule` and `StringRule`: the four predicates.
- `Validate` (validator.dfy): the `Validator` class, which holds the `log` map.
- `EmailTests`, `MobileTests`, `PasswordTests`, `StringTests` and `LogTests`: the test suite, one module per `describe` block.

Choices the tests leave open:
- **email.** An address is split at its last `@`. The local part is a dot-separated run of atoms or a quoted string. The domain is one of two things:
  - a host name of two or more labels whose last label has at least two letters;
  - a bracketed IPv4 address with octets up to 255.

  A quoted local part holds at least one character between its quotes, so the empty quoted string (`""@example.com`) is refused. Backslash escapes inside quotes are not accepted.
- **password.** The strength of a password is its number of distinct characters. The test at src/validate.test.js:104-106 expects `password("abcdefghia", 2)` to be false while `password("abcdefghia", 5)` is true. So a requested strength below 3 is refused outright. A reading of `minStrength` as a plain threshold, where 2 would pass, disagrees with that test; the model follows the test.
- **noRepetition.** The string is rejected when it is one shorter unit written two or more times ("ababab", "yoloyolo"). A string that merely contains an adjacent repeated piece, such as "aab", passes.
- **string.** The options apply together. They are checked in the order fixedLength, min, max, noRepetition, matchName, matchFullname, matchPostalCode, and the first one that fails gives the reason.

## Model

| member | source | states |
|---|---|---|
| Input.CheckText | src/validate.test.js:4-12 | passes exactly the non-empty strings; any non-string fails as not a string and "" fails as empty |
| EmailRule.Email | src/validate.test.js:14-33 | a non-text value fails with the shared check's reason; a non-empty string shorter than 6 fails as too short and one longer than 254 as too long; a pass has length 6 to 254 |
| EmailRule.EmailGrammar | src/validate.test.js:35-54 | email passes exactly the strings of length 6 to 254 that some `@` splits into a local part and a domain |
| EmailRule.EmailComplete | src/validate.test.js:35-54 | every well-formed address of allowed length passes, although `Email` only tries the last `@` |
| EmailRule.DomainHasNoAt | src/validate.test.js:35-54 | no domain contains `@`, so the `@` before a domain is the string's last one |
| EmailRule.Decompose | src/validate.test.js:35-54 | local + "@" + domain, of allowed length and with no `@` in the domain, passes exactly when the local part and the domain are well formed, and otherwise fails as malformed |
| EmailRule.AtextExcludesSpecials | src/validate.test.js:37-39 | `IsAtext`: an unquoted local part may not hold `< > ( ) [ ] : ; @ \ , "`, the dot inside an atom, or a space |
| EmailRule.QtextAllowsSpecials | src/validate.test.js:49 | `IsQtext`: between quotes those specials and the space are allowed, but not the quote or the backslash |
| EmailRule.DotAtomIsJoinedAtoms | src/validate.test.js:37-50 | `Atom`, `DotAtom`: the unquoted local parts are exactly one or more atoms joined with single dots |
| EmailRule.QuotedStringIsQuotedText | src/validate.test.js:39-49 | `QuotedString`: the quoted local parts are exactly one or more quoted-text characters between two quotes |
| EmailRule.TopLabelIsLetterLabel | src/validate.test.js:40-41 | `TopLabel`: a top-level label is also a label, and one shorter than two characters or holding a digit is not a top-level label |
| EmailRule.HostNameIsJoinedLabels | src/validate.test.js:40-52 | `Label`, `HostName`: the host names are exactly two or more labels joined with dots, the last of them a top-level label |
| EmailRule.OctetIsSmallNumber | src/validate.test.js:51 | `Octet`: the octets are exactly the numbers 0 to 255 written in one to three digits |
| EmailRule.AddressLiteralIsJoinedOctets | src/validate.test.js:51 | `AddressLiteral`: the address literals are exactly four octets joined with dots between square brackets |
| EmailRule.DotAtomOf | src/validate.test.js:47-52 | atoms joined with dots form a dot-separated local part |
| EmailRule.HostNameOf | src/validate.test.js:47-52 | labels joined with dots, the last a top-level label, form a host name |
| EmailRule.AddressLiteralOf | src/validate.test.js:51 | four octets joined with dots and bracketed form an address literal |
| MobileRule.Mobile | src/validate.test.js:68-83 | a non-text value fails with the shared check's reason; any whitespace fails as a space; a non-empty all-digit string of a length other than 10 fails as the wrong length; a pass is ten digits |
| MobileRule.MobileIsTenDigitNumeral | src/validate.test.js:76-83 | mobile passes exactly the numbers below 10^10 written in ten digits |
| PasswordRule.Strength | src/validate.test.js:104-107 | a password's strength is at most its length |
| PasswordRule.StrengthCountsChars | src/validate.test.js:104-107 | strength is the size of the password's character set |
| PasswordRule.Password | src/validate.test.js:99-107 | a non-text value fails with the shared check's reason; a non-empty string shorter than 10 fails as too short; a long enough one with a requested strength below 3 fails as a request too low |
| PasswordRule.PasswordAccepts | src/validate.test.js:99-107 | password passes exactly when the string has at least 10 characters and the requested strength lies between 3 and its number of distinct characters |
| PasswordRule.PasswordMonotone | src/validate.test.js:104-107 | lowering the requested strength, but not below 3, never turns a pass into a failure |
| PasswordRule.IncreasingStrength | src/validate.test.js:99-102 | characters in strictly increasing order are all distinct |
| StringRule.Quotient | src/validate.test.js:140-145 | a multiple of p is p times the quotient |
| StringRule.String | src/validate.test.js:111-119 | a non-text value fails with the shared check's reason, whatever the options; a pass is a non-empty string |
| StringRule.StringMeetsAll | src/validate.test.js:121-176 | string passes exactly the non-empty strings that meet every option given, each option read on its own |
| StringRule.RepetitionIsRepeatedUnit | src/validate.test.js:140-145 | the shift test used for noRepetition holds exactly for the strings made of a unit repeated at least twice |
| StringRule.ShiftIsRepeat | src/validate.test.js:140-145 | a string unchanged by a shift of p, where p divides its length, is its first p characters repeated |
| StringRule.NameIsFullname | src/validate.test.js:147-166 | every name is also a full name |
| StringRule.PostalCodeIsSixDigitNumber | src/validate.test.js:168-176 | the postal codes are exactly the numbers 100000 to 999999 written in six digits |
| Text.SplitJoin | src/validate.test.js:35-54 | splitting undoes joining when no piece holds the separator |
| Text.JoinSplit | src/validate.test.js:35-54 | joining the pieces of a split gives the string back |
| Text.LastIndexOf | src/validate.test.js:35-54 | the result is -1 or an index holding the character, and no later index holds it |
| Text.DecimalOfNumeral | src/validate.test.js:76-83 | reading back a numeral that fits its width gives the number |
| Text.NumeralOfDecimal | src/validate.test.js:76-83 | writing a digit string's value back in as many digits gives the string |
| Text.LeadingDigit | src/validate.test.js:168-176 | a digit string starts with a non-zero digit exactly when its value needs all its digits |
| Validate.Validator.constructor | src/validate.test.js:178-183 | a new validator's log is empty |
| Validate.Validator.Record | src/validate.test.js:178-183 | answers whether the verdict is a pass; a failure sets the field's log entry to the reason's message and nothing else |
| Validate.Validator.Email | src/validate.test.js:3-55 | the answer is the email rule's; a failure logs its reason under "email" and changes no other key |
| Validate.Validator.Mobile | src/validate.test.js:57-84 | the answer is the mobile rule's; a failure logs its reason under "mobile" and changes no other key |
| Validate.Validator.Password | src/validate.test.js:86-108 | the answer is the password rule's; a failure logs its reason under "password" and changes no other key |
| Validate.Validator.String | src/validate.test.js:110-176 | the answer is the string rule's; a failure logs its reason under "string" and changes no other key |
| Validate.Validator.Clear | src/validate.test.js:181-182 | the log is empty afterwards |
| EmailTests.EmailRejectsNonText | src/validate.test.js:4-12 | "", null, undefined and {} are rejected |
| EmailTests.EmailMinLength | src/validate.test.js:14-17 | "s@s.c" is too short and "s@s.co" passes |
| EmailTests.EmailMaxLength | src/validate.test.js:19-33 | the 254-character address passes and the 255-character one is too long |
| EmailTests.EmailRejectsInvalidChars | src/validate.test.js:35-43 | the five malformed addresses fail as malformed |
| EmailTests.EmailValidExamples | src/validate.test.js:45-54 | the six valid addresses pass |
| MobileTests.MobileRejectsNonText | src/validate.test.js:58-66 | "", null, undefined and {} are rejected |
| MobileTests.MobileRejectsSpace | src/validate.test.js:68-70 | "9924 248 236" fails for its spaces |
| MobileTests.MobileRejectsPlus | src/validate.test.js:72-74 | "+992424823" fails for its non-digit |
| MobileTests.MobileRejectsWrongLength | src/validate.test.js:76-79 | 12 and 9 digits fail as the wrong length |
| MobileTests.MobileAcceptsTenDigits | src/validate.test.js:81-83 | "9924248232" passes |
| PasswordTests.PasswordRejectsNonText | src/validate.test.js:89-97 | "", null, undefined and {} are rejected with strength 5 |
| PasswordTests.NineDistinct | src/validate.test.js:101 | "abcdefghia" has strength 9 |
| PasswordTests.PasswordMinLength | src/validate.test.js:99-102 | "abcdefghi" is too short and "abcdefghia" passes with strength 5 |
| PasswordTests.PasswordLeastStrength | src/validate.test.js:104-107 | "abcdefghia" fails with a requested strength of 2 and passes with 5 |
| StringTests.StringRejectsNonText | src/validate.test.js:111-119 | "", null, undefined and {} are rejected with no options |
| StringTests.StringFixedLength | src/validate.test.js:121-124 | "abcd" fails fixedLength 5 and passes fixedLength 4 |
| StringTests.StringMin | src/validate.test.js:126-131 | with min 5, length 4 fails and lengths 5 and 6 pass |
| StringTests.StringMax | src/validate.test.js:133-138 | with max 5, length 6 fails and lengths 5 and 4 pass |
| StringTests.StringNoRepetition | src/validate.test.js:140-145 | "ababab" and "yoloyolo" fail as repetitions and "abcde" passes |
| StringTests.StringMatchName | src/validate.test.js:147-155 | "!Tom" is not a name; "Tom", "D'souza" and "Sam-co" pass |
| StringTests.StringMatchFullname | src/validate.test.js:157-166 | "<Tom Brady" is not a full name; the four other examples pass |
| StringTests.StringMatchPostalCode | src/validate.test.js:168-176 | "010080", "40008" and "4000801" are not postal codes and "400080" passes |
| LogTests.ClearEmptiesLog | src/validate.test.js:178-183 | after a failing call the log is non-empty, and after clear it is the empty map |
| LogTests.FailureThenClear | src/validate.test.js:178-183 | from any log, a failing call leaves it non-empty and clear empties it |

## Left out

- src/validate.js is not part of this model. The rules are the ones the tests pin down, completed by the choices listed at the top.
- Input.Message: the log texts are invented, because no test reads them. Only whether a key is present, and whether the log is empty, can be observed.
- Validate.Validator.Email: does not say whether a passing call removes, keeps or rewrites the "email" entry, because the tests never look. It only promises that no other key changes.
- Validate.Validator.Mobile: leaves the "mobile" entry after a pass unspecified, for the same reason.
- Validate.Validator.Password: leaves the "password" entry after a pass unspecified, for the same reason.
- Validate.Validator.String: leaves the "string" entry after a pass unspecified, for the same reason.
- Validate.Validator.Record: leaves the field's entry after a pass unspecified; the body keeps the old entry.
- PasswordRule.Strength: the scoring formula counts distinct characters. The real formula is not visible, and this one satisfies every password test.
- StringRule.String: the suite sets one option per call. That the options combine as a conjunction, and in which order their reasons are reported, is a choice the tests do not confirm.
- JavaScript's `typeof` test and its regular expressions are replaced by the `Value` sum type and by character-class predicates. `Obj` stands for every non-string value.
- Number options (fixedLength, min, max, minStrength) are unbounded integers. JavaScript's fractional numbers, NaN and numeric strings are not modelled.
- String lengths and indices count Unicode scalar values, while JavaScript's `length` counts UTF-16 code units. A character outside the Basic Multilingual Plane counts once here and twice in JavaScript, so strings holding such characters are not modelled. This affects the email bounds of 6 and 254, the password minimum of 10, fixedLength, min and max, and the noRepetition shift.
- Text.IsSpace: whitespace means the six ASCII space characters; other Unicode spaces are not modelled.
- EmailRule.IsQtext: a quoted local part allows printable ASCII other than `"` and `\`. Backslash escapes are not modelled.
- EmailTests.EmailMaxLength: the 242-character local part of src/validate.test.js:23 and :30 is written as `LongLocal()`, a concatenation of the alphabet and digit pieces it consists of.
- EmailTests: the test addresses are written as local + "@" + domain, which is the same string.
- LogTests.ClearEmptiesLog: the failing calls of the earlier tests, which fill the shared log in the suite, are reduced to one failing call on a fresh validator.
