/**
 lib/email.ts: `validateEmail`, which accepts an address or names the first
 policy check it fails, and `normalizeEmail`, which maps provider aliases of
 an address to one canonical lower-case form.
 */
module Email {
  import opened Strings
  import opened EmailRegex

  /** `DISPOSABLE_EMAIL_DOMAINS`: throwaway-mailbox domains, in lower case. */
  const DisposableDomains: seq<string> := ["tempmail.com", "throwawaymail.com", "tempmail100.com"]

  /** `EmailValidationError`: the four reasons an address is refused. */
  datatype ErrorKind = InvalidEmailFormat | EmailPartTooLong | DisposableEmailNotAllowed | InvalidCharacters
  {
    /** The string literal reported for this reason. */
    function Code(): string
    {
      match this
      case InvalidEmailFormat => "invalid_email_format"
      case EmailPartTooLong => "email_part_too_long"
      case DisposableEmailNotAllowed => "disposable_email_not_allowed"
      case InvalidCharacters => "invalid_characters"
    }
  }

  /** Distinct reasons are reported with distinct strings, so the string identifies the reason. */
  lemma CodeInjective(a: ErrorKind, b: ErrorKind)
    ensures a.Code() == b.Code() <==> a == b
  {
    assert a.Code()[0] != b.Code()[0] || a.Code()[8] != b.Code()[8] || a == b;
  }

  /** The result of `validateEmail`: `isValid` is `Valid?`, `error` is present exactly when invalid. */
  datatype Validation = Valid | Invalid(error: ErrorKind)

  /** `\s` of an ECMAScript regular expression: the WhiteSpace and LineTerminator characters. */
  predicate IsJsWhitespace(c: char)
  {
    || c == '\t' || c == '\n' || c == '\U{B}' || c == '\U{C}' || c == '\r' || c == ' '
    || c == '\U{A0}' || c == '\U{1680}' || '\U{2000}' <= c <= '\U{200A}'
    || c == '\U{2028}' || c == '\U{2029}' || c == '\U{202F}' || c == '\U{205F}'
    || c == '\U{3000}' || c == '\U{FEFF}'
  }

  /** The class of the special-character check: angle brackets, parentheses, square brackets, backslash, dot, comma, semicolon, colon, whitespace, `@` and double quote. */
  predicate IsForbiddenLocalChar(c: char)
  {
    c in "<>()[]\\.,;:@\"" || IsJsWhitespace(c)
  }

  /** The special-character check succeeds on `local`: some character of it is forbidden. */
  predicate HasForbiddenChar(local: string)
  {
    exists i | 0 <= i < |local| :: IsForbiddenLocalChar(local[i])
  }

  /** The local part of `s`: everything before its first `@`. */
  function LocalOf(s: string): string
  {
    SplitFirstTwo(s, '@').0
  }

  /** `validateEmail`: the checks run in order and the first one that fails names the error. */
  function Validate(s: string): (r: Validation)
    ensures r != Invalid(EmailPartTooLong)
  {
    if !Matches(s) then Invalid(InvalidEmailFormat)
    else
      var parts := SplitFirstTwo(s, '@');
      assert parts.1.Some? && |parts.0| <= 64 && |parts.1.value| <= 255 by {
        MatchedParts(s);
      }
      var local, domain := parts.0, parts.1.value;
      if |domain| > 255 || |local| > 64 then Invalid(EmailPartTooLong)
      else if Lower(domain) in DisposableDomains then Invalid(DisposableEmailNotAllowed)
      else if HasForbiddenChar(local) then Invalid(InvalidCharacters)
      else Valid
  }

  /** An `@` between two `@`-free strings is the only one. */
  lemma OneAt(l: string, d: string)
    requires '@' !in l && '@' !in d
    ensures multiset(l + "@" + d)['@'] == 1
  {
    assert multiset(l + "@" + d) == multiset(l) + multiset{'@'} + multiset(d);
  }

  /** A matched address has one `@`; before it is the local part the expression saw, after it the whole domain. */
  lemma MatchedParts(s: string)
    requires Matches(s)
    ensures multiset(s)['@'] == 1
    ensures var parts := SplitFirstTwo(s, '@');
      && parts.1.Some?
      && IsLocalPart(parts.0)
      && DomainShape(parts.1.value)
      && s == parts.0 + "@" + parts.1.value
  {
    var i :| 0 <= i < |s| && AddressSplitAt(s, i);
    var local, domain := s[..i], s[i + 1..];
    DomainMatchesIffShape(domain);
    LocalPartHasNoAt(local);
    assert s == local + "@" + domain;
    OneAt(local, domain);
    OutputSplits(local, domain);
  }

  /** The format error is reported exactly for the strings outside the split description of the format. */
  lemma FormatErrorIffNotShape(s: string)
    ensures Validate(s) == Invalid(InvalidEmailFormat) <==> !Shape(s)
  {
    MatchesIffShape(s);
  }

  /**
   Whatever gets past the format check has 6..254 characters, exactly one `@`,
   a local part of 1..64 local-part characters, and a domain with at least one
   dot whose last label is a top-level label of 2..63 letters.
   */
  lemma PastFormatCheck(s: string)
    requires Validate(s) != Invalid(InvalidEmailFormat)
    ensures 6 <= |s| <= 254 && multiset(s)['@'] == 1
    ensures var parts := SplitFirstTwo(s, '@');
      && parts.1.Some?
      && IsLocalPart(parts.0)
      && '.' in parts.1.value
      && IsTld(SplitAt(parts.1.value, '.')[|SplitAt(parts.1.value, '.')| - 1])
  {
    MatchedParts(s);
    var d := SplitFirstTwo(s, '@').1.value;
    SplitAtCount(d, '.');
  }

  /**
   An address is accepted exactly when it has the format, its domain in lower
   case is not a disposable domain, and its local part has no forbidden
   character (in particular no dot).
   */
  lemma ValidIff(s: string)
    ensures Validate(s) == Valid <==>
      && Shape(s)
      && Lower(SplitAt(s, '@')[1]) !in DisposableDomains
      && !HasForbiddenChar(SplitAt(s, '@')[0])
    ensures Validate(s) == Valid ==> '.' !in LocalOf(s)
  {
    MatchesIffShape(s);
    if Shape(s) {
      SplitAtCount(s, '@');
    }
  }

  /** The verdict does not depend on the ASCII case of any letter of the address. */
  lemma ValidateIgnoresCase(s: string, t: string)
    requires Lower(s) == Lower(t)
    ensures Validate(s) == Validate(t)
  {
    MatchesIgnoresCase(s, t);
    if Matches(s) {
      var ps, pt := SplitFirstTwo(s, '@'), SplitFirstTwo(t, '@');
      PartsIgnoreCase(s, t);
      assert |ps.0| == |Lower(ps.0)| == |pt.0| && |ps.1.value| == |Lower(ps.1.value)| == |pt.1.value|;
      ForbiddenIgnoresCase(ps.0, pt.0);
    }
  }

  /** Matched addresses equal up to case have parts equal up to case. */
  lemma PartsIgnoreCase(s: string, t: string)
    requires Lower(s) == Lower(t) && Matches(s) && Matches(t)
    ensures SplitFirstTwo(s, '@').1.Some? && SplitFirstTwo(t, '@').1.Some?
    ensures Lower(SplitFirstTwo(s, '@').0) == Lower(SplitFirstTwo(t, '@').0)
    ensures Lower(SplitFirstTwo(s, '@').1.value) == Lower(SplitFirstTwo(t, '@').1.value)
  {
    LowerSplitFirstTwo(s, '@');
    LowerSplitFirstTwo(t, '@');
    MatchedParts(s);
    MatchedParts(t);
  }

  /** Forbidden characters are not letters, so the special-character check ignores case. */
  lemma ForbiddenIgnoresCase(x: string, y: string)
    requires Lower(x) == Lower(y)
    ensures HasForbiddenChar(x) <==> HasForbiddenChar(y)
  {
    ForbiddenOneWay(x, y);
    ForbiddenOneWay(y, x);
  }

  /** One direction of `ForbiddenIgnoresCase`. */
  lemma ForbiddenOneWay(x: string, y: string)
    requires Lower(x) == Lower(y)
    ensures HasForbiddenChar(x) ==> HasForbiddenChar(y)
  {
    if HasForbiddenChar(x) {
      var i :| 0 <= i < |x| && IsForbiddenLocalChar(x[i]);
      assert Lower(x)[i] == Lower(y)[i];
      assert !IsLetter(x[i]);
      ClassesIgnoreCase(x[i], y[i]);
      assert IsForbiddenLocalChar(y[i]);
    }
  }

  /** Without an `@`, or with too few or too many characters, the string has no format. */
  lemma FormatErrorWhenMalformed(s: string)
    requires '@' !in s || |s| < 6 || |s| > 254
    ensures Validate(s) == Invalid(InvalidEmailFormat)
  {
  }

  /** Each disposable domain is a well-formed domain: one label, a dot, a top-level label. */
  lemma DisposableDomainsMatch(d: string)
    requires d in DisposableDomains
    ensures DomainMatches(d) && |d| <= 17
  {
    var name := if d == "tempmail.com" then "tempmail"
      else if d == "throwawaymail.com" then "throwawaymail"
      else "tempmail100";
    assert d == name + "." + "com";
    LabelDotTld(name, "com");
  }

  /**
   Any local part at a disposable domain, in any letter case, is refused as
   disposable, even one with a dot that the later character check would refuse.
   */
  lemma DisposableRefused(local: string, domain: string)
    requires IsLocalPart(local) && Lower(domain) in DisposableDomains
    ensures Validate(local + "@" + domain) == Invalid(DisposableEmailNotAllowed)
  {
    var d := Lower(domain);
    DisposableDomainsMatch(d);
    LowerIsLower(domain);
    var n :| 1 <= n <= 8 && LabelsThenTld(d, n);
    LabelsThenTldIgnoresCase(d, domain, n);
    assert DomainMatches(domain);
    MatchesAddress(local, domain);
    LocalPartHasNoAt(local);
    DomainMatchesIffShape(domain);
    OutputSplits(local, domain);
  }

  /**
   The format admits dots in the local part, but the character check that runs
   after it refuses them: a formatted address with a dot before the `@` and a
   domain that is not disposable is refused for its characters.
   */
  lemma DotRefusedAfterFormat(local: string, domain: string)
    requires Matches(local + "@" + domain)
    requires Lower(domain) !in DisposableDomains && '.' in local
    ensures Validate(local + "@" + domain) == Invalid(InvalidCharacters)
  {
    var s := local + "@" + domain;
    MatchedParts(s);
    assert multiset(s) == multiset(local) + multiset{'@'} + multiset(domain);
    assert '@' !in local && '@' !in domain;
    OutputSplits(local, domain);
    var i :| 0 <= i < |local| && local[i] == '.';
    assert IsForbiddenLocalChar(local[i]);
  }

  /** The dot is the one character both allowed in a local part and forbidden by the character check. */
  lemma LocalForbiddenIsDot(c: char)
    requires IsLocalChar(c) && IsForbiddenLocalChar(c)
    ensures c == '.'
  {
    assert !IsJsWhitespace(c);
  }

  /** Of the forbidden characters, only the dot can occur in a local part the format admits. */
  lemma DotOnlyForbidden(local: string)
    requires IsLocalPart(local)
    ensures HasForbiddenChar(local) <==> '.' in local
  {
    if '.' in local {
      var i :| 0 <= i < |local| && local[i] == '.';
      assert IsForbiddenLocalChar(local[i]);
    }
    if HasForbiddenChar(local) {
      var i :| 0 <= i < |local| && IsForbiddenLocalChar(local[i]);
      LocalForbiddenIsDot(local[i]);
    }
  }

  /**
   Once the format check passes, the verdict is decided by the domain and the
   dots of the local part alone: a disposable domain first, then a dot, else valid.
   */
  lemma VerdictAfterFormat(s: string)
    requires Matches(s)
    ensures var parts := SplitFirstTwo(s, '@');
      && parts.1.Some?
      && Validate(s) == (
        if Lower(parts.1.value) in DisposableDomains then Invalid(DisposableEmailNotAllowed)
        else if '.' in parts.0 then Invalid(InvalidCharacters)
        else Valid)
  {
    MatchedParts(s);
    DotOnlyForbidden(SplitFirstTwo(s, '@').0);
  }

  /** The alias rules of the normaliser. */
  datatype AliasRule =
    | StripDotsAndPlus  // drop every dot, then cut at the first `+`
    | StripPlus         // cut at the first `+`
    | StripDash         // cut at the first `-`

  /** The rule for a (lower-case) domain, chosen by exact match; any other domain gets the default. */
  function RuleFor(domain: string): (rule: AliasRule)
    ensures rule == StripDotsAndPlus <==> domain == "gmail.com"
    ensures rule == StripDash <==> domain == "yahoo.com"
  {
    match domain
    case "gmail.com" => StripDotsAndPlus
    case "outlook.com" => StripPlus
    case "hotmail.com" => StripPlus
    case "live.com" => StripPlus
    case "yahoo.com" => StripDash
    case _ => StripPlus
  }

  /** The rewritten local part under `rule`: a prefix of the local part (after dot removal for gmail), cut at the rule's character. */
  function Rewrite(rule: AliasRule, local: string): (r: string)
    ensures rule == StripDotsAndPlus ==> TruncatedAt(r, RemoveAll(local, '.'), '+') && '.' !in r
    ensures rule == StripPlus ==> TruncatedAt(r, local, '+')
    ensures rule == StripDash ==> TruncatedAt(r, local, '-')
  {
    match rule
    case StripDotsAndPlus => BeforeFirst(RemoveAll(local, '.'), '+')
    case StripPlus => BeforeFirst(local, '+')
    case StripDash => BeforeFirst(local, '-')
  }

  /** A local part the rule has already rewritten is left as it is. */
  lemma RewriteIdempotent(rule: AliasRule, local: string)
    ensures Rewrite(rule, Rewrite(rule, local)) == Rewrite(rule, local)
  {
    var r := Rewrite(rule, local);
    match rule
    case StripDotsAndPlus =>
      TruncatedAtUnique(r, r, '+');
    case StripPlus =>
      BeforeFirstIdempotent(local, '+');
    case StripDash =>
      BeforeFirstIdempotent(local, '-');
  }

  /** How a missing value prints in a template literal. */
  const Undefined: string := "undefined"

  /**
   `normalizeEmail`: the empty string stays empty; otherwise the address is
   lower-cased, split at `@`, and the local part rewritten by its domain's
   rule. Without an `@` the domain is missing: the default rule applies and
   the missing domain prints as `undefined`.
   */
  function Normalize(s: string): string
  {
    if s == "" then ""
    else
      var parts := SplitFirstTwo(Lower(s), '@');
      match parts.1
      case Some(domain) => Rewrite(RuleFor(domain), parts.0) + "@" + domain
      case None => Rewrite(StripPlus, parts.0) + "@" + Undefined
  }

  /** The domain of `s` as the normaliser's template prints it. */
  function PrintedDomain(s: string): string
  {
    var parts := SplitFirstTwo(Lower(s), '@');
    if parts.1.Some? then parts.1.value else Undefined
  }

  /** The rule the normaliser applies to `s`. */
  function AppliedRule(s: string): AliasRule
  {
    var parts := SplitFirstTwo(Lower(s), '@');
    if parts.1.Some? then RuleFor(parts.1.value) else StripPlus
  }

  /** A rewritten local part draws its characters from the local part. */
  lemma RewriteDrawsFrom(rule: AliasRule, local: string)
    ensures forall x :: x in Rewrite(rule, local) ==> x in local
  {
    var r := Rewrite(rule, local);
    if rule == StripDotsAndPlus {
      var stripped := RemoveAll(local, '.');
      RemoveAllKeepsOthers(local, '.');
      forall x | x in stripped ensures x in local {
        assert x in multiset(stripped);
      }
      assert r == stripped[..|r|];
    } else {
      assert r == local[..|r|];
    }
  }

  /** The local part the normaliser prints for `s`. */
  function NormalizedLocal(s: string): string
  {
    Rewrite(AppliedRule(s), SplitFirstTwo(Lower(s), '@').0)
  }

  /** A non-empty input normalises to its printed local part, `@`, and its printed domain. */
  lemma NormalizeAsPieces(s: string)
    requires s != ""
    ensures Normalize(s) == NormalizedLocal(s) + "@" + PrintedDomain(s)
  {
    var parts := SplitFirstTwo(Lower(s), '@');
    if parts.1.Some? {
      assert Normalize(s) == Rewrite(RuleFor(parts.1.value), parts.0) + "@" + parts.1.value;
    } else {
      assert Normalize(s) == Rewrite(StripPlus, parts.0) + "@" + Undefined;
    }
  }

  /** A rewritten local part keeps the absence of `@` and of upper-case letters. */
  lemma RewriteStaysClean(rule: AliasRule, local: string)
    requires '@' !in local && NoUpper(local)
    ensures '@' !in Rewrite(rule, local) && NoUpper(Rewrite(rule, local))
  {
    RewriteDrawsFrom(rule, local);
    NoUpperOfSubset(Rewrite(rule, local), local);
  }

  /** The two parts of a split at `@` hold no `@`, and no upper-case letter when the whole has none. */
  lemma SplitPiecesClean(t: string)
    requires NoUpper(t)
    ensures var p := SplitFirstTwo(t, '@');
      && '@' !in p.0 && NoUpper(p.0)
      && (p.1.Some? ==> '@' !in p.1.value && NoUpper(p.1.value))
  {
    var p := SplitFirstTwo(t, '@');
    assert p.0 == t[..|p.0|];
    NoUpperSlice(t, 0, |p.0|);
    if p.1.Some? {
      var k, d := |p.0| + 1, p.1.value;
      assert d == t[k..][..|d|];
      NoUpperSlice(t, k, |t|);
      assert t[k..|t|] == t[k..];
      NoUpperSlice(t[k..], 0, |d|);
    }
  }

  /** The pieces of a normalised address have no `@` and nothing upper-case. */
  lemma PiecesOfNormalized(s: string)
    ensures '@' !in NormalizedLocal(s) && NoUpper(NormalizedLocal(s))
    ensures '@' !in PrintedDomain(s) && NoUpper(PrintedDomain(s))
  {
    LowerIsLower(s);
    SplitPiecesClean(Lower(s));
    RewriteStaysClean(AppliedRule(s), SplitFirstTwo(Lower(s), '@').0);
  }

  /**
   The normalised form is empty exactly for the empty input; otherwise it has
   no upper-case letter and exactly one `@`, even when the input had several
   or none.
   */
  lemma NormalizedForm(s: string)
    ensures s == "" <==> Normalize(s) == ""
    ensures NoUpper(Normalize(s))
    ensures s != "" ==> multiset(Normalize(s))['@'] == 1
  {
    if s != "" {
      PiecesOfNormalized(s);
      NormalizeAsPieces(s);
      var l, d := NormalizedLocal(s), PrintedDomain(s);
      OneAt(l, d);
      NoUpperAround(l, '@', d);
    }
  }

  /** `l + "@" + d` with no `@` in either piece splits back into `l` and `d`. */
  lemma OutputSplits(l: string, d: string)
    requires '@' !in l && '@' !in d
    ensures SplitFirstTwo(l + "@" + d, '@') == (l, Some(d))
  {
    var s := l + "@" + d;
    assert s[..|l|] == l && s[|l|] == '@' && s[|l| + 1..] == d;
    TruncatedAtUnique(l, s, '@');
    TruncatedAtUnique(d, d, '@');
  }

  /**
   For an address with an `@`, the normalised address splits into the
   rewritten local part and the input's domain in lower case, and nothing
   after a second `@` survives.
   */
  lemma NormalizeSplits(s: string)
    requires '@' in s
    ensures var out := SplitFirstTwo(Normalize(s), '@');
      && out.1 == Some(Lower(SplitFirstTwo(s, '@').1.value))
      && out.0 == Rewrite(RuleFor(out.1.value), Lower(LocalOf(s)))
  {
    LowerSplitFirstTwo(s, '@');
    PiecesOfNormalized(s);
    NormalizeAsPieces(s);
    OutputSplits(NormalizedLocal(s), PrintedDomain(s));
  }

  /**
   The rule of each domain, stated on the input's parts: gmail drops dots and
   cuts at `+`; outlook, hotmail, live and every other domain cut at `+`; yahoo
   cuts at `-` and keeps `+`. In each case the new local part is a prefix of
   the (dot-free, for gmail) lower-cased local part.
   */
  lemma NormalizeRules(s: string)
    requires '@' in s
    ensures var domain := Lower(SplitFirstTwo(s, '@').1.value);
      var local := Lower(LocalOf(s));
      var l := SplitFirstTwo(Normalize(s), '@').0;
      && (domain == "gmail.com" ==> TruncatedAt(l, RemoveAll(local, '.'), '+') && '.' !in l)
      && (domain == "yahoo.com" ==> TruncatedAt(l, local, '-'))
      && (domain != "gmail.com" && domain != "yahoo.com" ==> TruncatedAt(l, local, '+'))
  {
    NormalizeSplits(s);
  }

  /** Normalising twice is normalising once, for every input. */
  lemma NormalizeIdempotent(s: string)
    ensures Normalize(Normalize(s)) == Normalize(s)
  {
    if s != "" {
      var r := Normalize(s);
      PiecesOfNormalized(s);
      NormalizeAsPieces(s);
      var rule, local := AppliedRule(s), SplitFirstTwo(Lower(s), '@').0;
      var l, d := NormalizedLocal(s), PrintedDomain(s);
      NoUpperAround(l, '@', d);
      LowerOfNoUpper(l + "@" + d);
      OutputSplits(l, d);
      assert RuleFor(d) == rule;
      RewriteIdempotent(rule, local);
    }
  }

  /** Normalisation ignores case: strings equal up to ASCII case normalise alike, a string and its upper-case form in particular. */
  lemma NormalizeIgnoresCase(s: string, t: string)
    requires Lower(s) == Lower(t)
    ensures Normalize(s) == Normalize(t)
    ensures Normalize(Upper(s)) == Normalize(s)
  {
    assert |s| == |Lower(s)| == |t|;
    LowerOfUpper(s);
    assert |Upper(s)| == |s|;
  }

  /** An address with one `@` normalises to its rewritten, lower-cased local part at its lower-cased domain. */
  lemma NormalizeAddress(l: string, d: string)
    requires '@' !in l && '@' !in d
    ensures Normalize(l + "@" + d) == Rewrite(RuleFor(Lower(d)), Lower(l)) + "@" + Lower(d)
  {
    var s := l + "@" + d;
    LowerAppend(l, "@" + d);
    LowerAppend("@", d);
    assert Lower("@") == "@";
    assert Lower(s) == Lower(l) + "@" + Lower(d);
    LowerKeepsNonLetter(l, '@');
    LowerKeepsNonLetter(d, '@');
    OutputSplits(Lower(l), Lower(d));
    var p := SplitFirstTwo(Lower(s), '@');
    assert p == (Lower(l), Some(Lower(d)));
    assert Normalize(s) == Rewrite(RuleFor(p.1.value), p.0) + "@" + p.1.value;
  }

  /** A second `@` ends the domain piece of the split: what follows it is not part of either piece. */
  lemma ExtraAtSplits(l: string, d: string, r: string)
    requires '@' !in l && '@' !in d
    ensures SplitFirstTwo(l + "@" + d + "@" + r, '@') == (l, Some(d))
  {
    var s := l + "@" + d + "@" + r;
    assert s[..|l|] == l && s[|l|] == '@';
    TruncatedAtUnique(l, s, '@');
    var rest := s[|l| + 1..];
    assert rest == d + "@" + r;
    assert rest[..|d|] == d;
    TruncatedAtUnique(d, rest, '@');
  }

  /** Everything from a second `@` on is dropped: the address normalises as if it ended there. */
  lemma NormalizeDropsAfterSecondAt(l: string, d: string, r: string)
    requires '@' !in l && '@' !in d
    ensures Normalize(l + "@" + d + "@" + r) == Normalize(l + "@" + d)
  {
    var s := l + "@" + d + "@" + r;
    NormalizeAddress(l, d);
    LowerAround(l + "@" + d, '@', r);
    LowerAround(l, '@', d);
    LowerKeepsNonLetter(l, '@');
    LowerKeepsNonLetter(d, '@');
    ExtraAtSplits(Lower(l), Lower(d), Lower(r));
    var p := SplitFirstTwo(Lower(s), '@');
    assert p == (Lower(l), Some(Lower(d)));
    assert Normalize(s) == Rewrite(RuleFor(p.1.value), p.0) + "@" + p.1.value;
  }

  /** The gmail rule drops the dots and everything from the `+`. */
  lemma GmailRewrite(f: string, m: string, t: string)
    requires '.' !in f && '+' !in f && '.' !in m && '+' !in m
    ensures Rewrite(StripDotsAndPlus, f + "." + m + "+" + t) == f + m
  {
    var fm := f + "." + m;
    RemoveOnlySeparator(f, '.', m);
    RemoveAllAround(fm, '+', t, '.');
    assert RemoveAll("+", '.') == "+";
    var stripped := RemoveAll(fm + "+" + t, '.');
    calc {
      stripped;
      RemoveAll(fm, '.') + RemoveAll("+", '.') + RemoveAll(t, '.');
      (f + m) + "+" + RemoveAll(t, '.');
    }
    assert '+' !in f + m;
    assert stripped[..|f + m|] == f + m && stripped[|f + m|] == '+';
    TruncatedAtUnique(f + m, stripped, '+');
  }

  /** The gmail rule on a lower-cased `First.Last+tag` gives `firstlast`. */
  lemma GmailLocal(first: string, last: string, tag: string)
    requires '.' !in first && '+' !in first && '.' !in last && '+' !in last
    ensures Rewrite(StripDotsAndPlus, Lower(first + "." + last + "+" + tag)) == Lower(first) + Lower(last)
  {
    var f, m, t := Lower(first), Lower(last), Lower(tag);
    LowerAround(first, '.', last);
    LowerAround(first + "." + last, '+', tag);
    LowerKeepsNonLetter(first, '.');
    LowerKeepsNonLetter(last, '.');
    LowerKeepsNonLetter(first, '+');
    LowerKeepsNonLetter(last, '+');
    GmailRewrite(f, m, t);
  }

  /** Gmail: `First.Last+tag@` a domain spelling gmail.com in any case normalises to `firstlast@gmail.com`. */
  lemma GmailAlias(first: string, last: string, tag: string, domain: string)
    requires '.' !in first && '+' !in first && '@' !in first
    requires '.' !in last && '+' !in last && '@' !in last
    requires '@' !in tag && '@' !in domain && Lower(domain) == "gmail.com"
    ensures Normalize(first + "." + last + "+" + tag + "@" + domain) == Lower(first) + Lower(last) + "@" + "gmail.com"
  {
    var l := first + "." + last + "+" + tag;
    assert '@' !in l;
    NormalizeAddress(l, domain);
    assert RuleFor(Lower(domain)) == StripDotsAndPlus;
    GmailLocal(first, last, tag);
    assert l + "@" + domain == first + "." + last + "+" + tag + "@" + domain;
  }

  /** The yahoo rule keeps what comes before the first `-`, a `+` part included. */
  lemma YahooRewrite(b: string, t: string, r: string)
    requires '-' !in b && '-' !in t
    ensures Rewrite(StripDash, b + "+" + t + "-" + r) == b + "+" + t
  {
    TruncatedAtUnique(b + "+" + t, b + "+" + t + "-" + r, '-');
  }

  /** Yahoo: `base+tag-rest@` a domain spelling yahoo.com keeps the `+` part and drops from the first `-`. */
  lemma YahooKeepsPlus(base: string, tag: string, rest: string, domain: string)
    requires '-' !in base && '@' !in base && '-' !in tag && '@' !in tag && '@' !in rest
    requires '@' !in domain && Lower(domain) == "yahoo.com"
    ensures Normalize(base + "+" + tag + "-" + rest + "@" + domain) == Lower(base) + "+" + Lower(tag) + "@" + "yahoo.com"
  {
    var l := base + "+" + tag + "-" + rest;
    assert '@' !in l;
    NormalizeAddress(l, domain);
    assert RuleFor(Lower(domain)) == StripDash;
    LowerAround(base, '+', tag);
    LowerAround(base + "+" + tag, '-', rest);
    LowerKeepsNonLetter(base, '-');
    LowerKeepsNonLetter(tag, '-');
    YahooRewrite(Lower(base), Lower(tag), Lower(rest));
    assert l + "@" + domain == base + "+" + tag + "-" + rest + "@" + domain;
  }

  /** Dispatch is by exact domain: a sub-domain such as mail.yahoo.com gets the default rule, not yahoo's. */
  lemma SubdomainGetsDefaultRule(a: string, b: string, domain: string)
    requires '+' !in a && '@' !in a && '@' !in b
    requires '@' !in domain && Lower(domain) == "mail.yahoo.com"
    ensures Normalize(a + "+" + b + "@" + domain) == Lower(a) + "@" + "mail.yahoo.com"
  {
    var l := a + "+" + b;
    assert '@' !in l;
    NormalizeAddress(l, domain);
    assert RuleFor(Lower(domain)) == StripPlus;
    LowerAround(a, '+', b);
    LowerKeepsNonLetter(a, '+');
    TruncatedAtUnique(Lower(a), Lower(a) + "+" + Lower(b), '+');
    assert l + "@" + domain == a + "+" + b + "@" + domain;
  }
}
