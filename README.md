# Email validation and normalisation, in Dafny

This project models `lib/email.ts`, the e-mail helper of a web application.
The helper exports two pure functions over a string.

- `validateEmail` decides whether a sign-up address is acceptable. It runs four checks in a fixed order, and the first one that fails names the error:
  1. the address format (`EMAIL_REGEX`);
  2. the length of the local part and of the domain;
  3. a case-insensitive lookup of the domain among the disposable-mail domains;
  4. a search of the local part for special characters.
- `normalizeEmail` maps provider aliases of an address to one canonical form, so the same mailbox is not registered twice. It lower-cases the address and splits it at `@`. It then rewrites the local part by the rule of its domain:
  - gmail drops dots and cuts at `+`;
  - outlook, hotmail and live cut at `+`;
  - yahoo cuts at `-`;
  - every other domain cuts at `+`.

The model has three modules, one per file.

- `Strings` (`strings.dfy`) covers the JavaScript string built-ins the helper uses: `split` on one character, its two-element destructuring, `split(c)[0]`, `replace(/c/g, '')` and ASCII `toLowerCase`. `Upper` (ASCII upper-casing) is not used by the helper; it is there to state that the results do not depend on letter case. Each comes with the lemmas that relate it to its inverse or to its reference description.
- `EmailRegex` (`email_regex.dfy`) states the language of the format expression twice:
  - `Matches` follows the regular expression literally, with existentially chosen split points;
  - `Shape` describes the same language by splitting at `@` and `.`.

  `MatchesIffShape` proves that the two agree on every string.
- `Email` (`email.dfy`) contains the error kinds, `Validate`, the alias rules and `Normalize`, with the properties the helper promises.

Everything is functions and lemmas, because the source is pure: it has no loops and no state.

`normalizeEmail` destructures `split('@')`, which splits at every `@`; the destructuring keeps only the first two pieces. So for `a@b@c` the domain is `b` and `@c` is dropped (`Strings.SplitFirstTwo`, `Email.NormalizeDropsAfterSecondAt`).

## Model

| member | source | states |
|---|---|---|
| Strings.SplitAt | lib/email.ts:28 | `split(c)` returns at least one part, and no part contains the separator |
| Strings.JoinSplit | lib/email.ts:28 | joining the parts of a split with the separator gives back the original string |
| Strings.SplitJoin | lib/email.ts:28 | splitting a join of separator-free parts gives back exactly those parts |
| Strings.SplitAtCount | lib/email.ts:28 | a split has one more part than the string has separators |
| Strings.SplitFirstTwo | lib/email.ts:63 | `[first, second] = s.split(c)`: the first piece is the text before the first `c`; the second is missing exactly when `s` has no `c`, and otherwise it is the text from that `c` up to the next `c` or the end |
| Strings.BeforeFirst | lib/email.ts:71 | `split(c)[0]` is a prefix of `s` with no `c`, and it ends at the first `c` |
| Strings.TruncatedAtUnique | lib/email.ts:78 | that prefix is the only one with those properties |
| Strings.BeforeFirstIdempotent | lib/email.ts:88 | cutting at `c` a second time changes nothing |
| Strings.RemoveAll | lib/email.ts:70 | `replace(/\./g, '')` leaves no dot, and it leaves a string without a dot unchanged |
| Strings.RemoveAllKeepsOthers | lib/email.ts:70 | removal keeps every other character, with the same multiplicity |
| Strings.RemoveAllAppend | lib/email.ts:70 | removal distributes over concatenation |
| Strings.Lower | lib/email.ts:60 | ASCII `toLowerCase` (also used at line 37): same length, each upper-case ASCII letter replaced by its lower-case form, every other character unchanged; its properties are stated by `LowerIsLower`, `LowerOfUpper` and `LowerAppend` |
| Strings.LowerIsLower | lib/email.ts:60 | the result has no upper-case letter, and lower-casing it again changes nothing |
| Strings.LowerOfUpper | lib/email.ts:60 | upper-casing first does not change the lower-case form |
| Strings.LowerSplitFirstTwo | lib/email.ts:60-63 | lower-casing and then splitting at `@` gives the lower-cased pieces of the split |
| EmailRegex.Matches | lib/email.ts:13 | `EMAIL_REGEX.test`, read literally: the lookahead, then a local part, `@` and a domain at some split point; its properties are stated by the lemmas below it |
| EmailRegex.MatchesIffShape | lib/email.ts:13 | the expression, read literally, accepts exactly these strings: 6..254 address characters, one `@`, a 1..64-character local part, and a domain that splits at its dots into 1..8 labels and a top-level label |
| EmailRegex.DomainMatchesIffShape | lib/email.ts:13 | the domain part of the expression is the same as the split description of a domain; a matched domain has no `@` |
| EmailRegex.LocalPartHasNoAt | lib/email.ts:13 | the local-part class excludes `@` |
| EmailRegex.MatchesAddress | lib/email.ts:13 | a local part, `@` and a domain match when the lookahead's length bound allows it |
| EmailRegex.LabelDotTld | lib/email.ts:13 | one label, a dot and a top-level label form a domain |
| EmailRegex.MatchesIgnoresCase | lib/email.ts:13 | the expression accepts a string exactly when it accepts any variant of it in another ASCII case |
| EmailRegex.LabelsThenTldIgnoresCase | lib/email.ts:13 | the repeated-label part of the expression ignores case |
| Email.CodeInjective | lib/email.ts:7-11 | the four error strings are pairwise distinct, so the string identifies the reason |
| Email.Validate | lib/email.ts:15-53 | `email_part_too_long` is never returned |
| Email.MatchedParts | lib/email.ts:20-28 | an address that passes the format check has one `@`; `split('@')` gives its local part and its whole domain |
| Email.FormatErrorIffNotShape | lib/email.ts:20-25 | the format error is reported exactly for the strings outside the format language |
| Email.FormatErrorWhenMalformed | lib/email.ts:20-25 | a string with no `@`, or with fewer than 6 or more than 254 characters, gets the format error; this includes the empty string |
| Email.PastFormatCheck | lib/email.ts:13-34 | whatever passes the format check has 6..254 characters, exactly one `@`, a valid local part, and a domain with a dot that ends in a top-level label of 2..63 letters |
| Email.ValidIff | lib/email.ts:15-53 | an address is valid exactly when it has the format, its lower-cased domain is not disposable and its local part has no forbidden character; a valid local part has no dot |
| Email.ValidateIgnoresCase | lib/email.ts:20-50 | the verdict does not depend on the ASCII case of the address |
| Email.HasForbiddenChar | lib/email.ts:45 | the special-character test: some character of the local part is in the forbidden class; its properties are stated by `DotOnlyForbidden` and `ForbiddenIgnoresCase` |
| Email.DotOnlyForbidden | lib/email.ts:13-45 | for a local part the format admits, the special-character test fires exactly when it holds a dot |
| Email.VerdictAfterFormat | lib/email.ts:28-52 | once the format check passes, a disposable lower-cased domain gives `disposable_email_not_allowed`, otherwise a dot in the local part gives `invalid_characters`, otherwise the address is valid |
| Email.ForbiddenIgnoresCase | lib/email.ts:45 | the special-character check ignores case |
| Email.DisposableDomainsMatch | lib/email.ts:1-5 | every listed disposable domain is a well-formed domain of at most 17 characters |
| Email.DisposableRefused | lib/email.ts:37-42 | any local part at a disposable domain, written in any case, is refused as disposable, and this check comes before the character check |
| Email.DotRefusedAfterFormat | lib/email.ts:44-50 | the format allows a dot in the local part, but the later character check refuses it unless the domain is disposable |
| Email.RuleFor | lib/email.ts:66-89 | gmail is chosen only by exactly `gmail.com`, and the dash rule only by exactly `yahoo.com` |
| Email.Rewrite | lib/email.ts:67-89 | each rule yields a prefix, cut at the rule's character, of the local part (without its dots, for gmail) |
| Email.RewriteIdempotent | lib/email.ts:67-89 | rewriting an already rewritten local part changes nothing |
| Email.Normalize | lib/email.ts:56-91 | `normalizeEmail`: empty input stays empty, otherwise lower-case, split at `@`, rewrite the local part by the domain's rule; its properties are stated by the lemmas below it |
| Email.PiecesOfNormalized | lib/email.ts:60-89 | neither piece of the output holds an `@` or an upper-case letter |
| Email.NormalizedForm | lib/email.ts:57-91 | the output is empty exactly for the empty input; otherwise it is all lower case with exactly one `@` |
| Email.NormalizeSplits | lib/email.ts:60-90 | the output's domain is the input's lower-cased domain, and its local part is that domain's rewrite of the lower-cased local part |
| Email.NormalizeRules | lib/email.ts:66-89 | gmail drops dots and cuts at `+`; yahoo cuts at `-`; every other domain cuts at `+`; in each case the output local part is a prefix of the lower-cased local part (with its dots removed, for gmail) |
| Email.NormalizeIdempotent | lib/email.ts:56-91 | normalising twice is the same as normalising once, for every input |
| Email.NormalizeIgnoresCase | lib/email.ts:60 | inputs equal up to ASCII case normalise alike, and so do an input and its upper-case form |
| Email.NormalizeAddress | lib/email.ts:60-90 | an address with one `@` normalises to the rewritten lower-case local part at the lower-case domain |
| Email.OutputSplits | lib/email.ts:63 | a local part, `@` and a domain without `@` split back into those two pieces |
| Email.ExtraAtSplits | lib/email.ts:63 | a second `@` ends the domain piece |
| Email.NormalizeDropsAfterSecondAt | lib/email.ts:63-89 | everything from a second `@` on is dropped from the normalised address |
| Email.GmailRewrite | lib/email.ts:69-71 | on `f.m+t` with no dot or `+` in `f` and `m`, the gmail rule yields `fm` |
| Email.GmailAlias | lib/email.ts:67-72 | `First.Last+tag@` any case variant of gmail.com normalises to `firstlast@gmail.com` |
| Email.YahooRewrite | lib/email.ts:83 | the yahoo rule keeps a `+` part and cuts at the first `-` |
| Email.YahooKeepsPlus | lib/email.ts:81-84 | `base+tag-rest@` yahoo.com normalises to `base+tag@yahoo.com`, lower-cased |
| Email.SubdomainGetsDefaultRule | lib/email.ts:86-89 | `a+b@mail.yahoo.com` gets the default rule, not yahoo's, and becomes `a@mail.yahoo.com` |

## Left out

- Case mapping is ASCII only. `toLowerCase` on other characters (Unicode case mapping) is not modelled; those characters are left unchanged, and so they are by the `Upper` helper.
- Strings are sequences of `char`. JavaScript lengths count UTF-16 code units, so an address with characters outside the Basic Multilingual Plane would have a different length. The format expression admits only ASCII, so the format check is unaffected.
- The regular-expression engine is not modelled. Both patterns are written directly as predicates: the address format and the special-character class. `\s` stands for the ECMAScript whitespace and line-terminator characters.
- The return type `{ isValid, error? }` with `error?: string` is modelled by the closed datatype `Valid | Invalid(ErrorKind)`; `Code()` gives the error string.
- Inputs to `normalizeEmail` that are not strings, or are falsy values other than `""`, are outside the model.
- Without an `@`, the domain of `normalizeEmail` is `undefined`. The model keeps this case explicit: the default rule applies, and the domain prints as the text `undefined`.
- Email.Validate: the part-length check is kept in the model. The contract shows that the check can never fire, because the format check already bounds both parts.
- Email.GmailAlias, Email.YahooKeepsPlus, Email.SubdomainGetsDefaultRule: the concrete sample addresses (`John.Doe+promo@gmail.com`, `jane+tag-x@yahoo.com`, `a+b@mail.yahoo.com`) are stated as lemmas over all addresses of the same form, not as literal instances.
- Strings.Lower: it is the definition of ASCII `toLowerCase` and carries only its character-by-character contract; its properties are the lemmas `LowerIsLower`, `LowerOfUpper` and `LowerAppend`.
- Email.Normalize: it is the definition of `normalizeEmail` and carries no contract of its own; its properties are the lemmas `NormalizedForm`, `NormalizeSplits`, `NormalizeRules`, `NormalizeIdempotent` and `NormalizeIgnoresCase`.
- EmailRegex.Matches: it is the definition of the format test and carries no contract of its own; its properties are `MatchesIffShape`, `MatchesIgnoresCase`, `MatchesAddress` and `MatchedParts`.
- Email.HasForbiddenChar: it is the definition of the special-character test and carries no contract of its own; its properties are `DotOnlyForbidden` and `ForbiddenIgnoresCase`.
