/**
 The address format recogniser of lib/email.ts (`EMAIL_REGEX`), stated as the
 language of that regular expression: a lookahead that bounds the whole string
 to 6..254 address characters, a local part of 1..64 characters, one `@`, then
 1..8 labels of 1..63 characters each closed by a dot, then a top-level label
 of 2..63 letters, anchored at both ends.

 `Matches` follows the expression literally, choosing where each repetition
 ends; `Shape` is the same language described by splitting on `@` and `.`,
 and `MatchesIffShape` proves the two agree on every string.
 */
module EmailRegex {
  import opened Strings

  /** A character allowed in the local part: an ASCII letter or digit, or one of `.`, `_`, `%`, `+`, `-`. */
  predicate IsLocalChar(c: char) { IsLetter(c) || IsDigit(c) || c in "._%+-" }

  /** A character the lookahead allows anywhere: a local-part character or `@`. */
  predicate IsAddressChar(c: char) { IsLocalChar(c) || c == '@' }

  /** A character allowed in a domain label: an ASCII letter or digit, or `-`. */
  predicate IsLabelChar(c: char) { IsLetter(c) || IsDigit(c) || c == '-' }

  /** The lookahead: 6..254 address characters up to the end of the string. */
  predicate LengthLookahead(s: string)
  {
    6 <= |s| <= 254 && forall i :: 0 <= i < |s| ==> IsAddressChar(s[i])
  }

  /** 1..64 local-part characters. */
  predicate IsLocalPart(s: string)
  {
    1 <= |s| <= 64 && forall i :: 0 <= i < |s| ==> IsLocalChar(s[i])
  }

  /** 1..63 label characters. */
  predicate IsLabel(s: string)
  {
    1 <= |s| <= 63 && forall i :: 0 <= i < |s| ==> IsLabelChar(s[i])
  }

  /** 2..63 letters: the top-level label. */
  predicate IsTld(s: string)
  {
    2 <= |s| <= 63 && forall i :: 0 <= i < |s| ==> IsLetter(s[i])
  }

  /** `d` starts with a label that the dot at `i` closes. */
  predicate LabelEndsAt(d: string, i: int)
  {
    0 <= i < |d| && IsLabel(d[..i]) && d[i] == '.'
  }

  /** `d` is exactly `n` repetitions of a label followed by a dot, then the top-level label. */
  predicate LabelsThenTld(d: string, n: nat)
    decreases n, 1
  {
    if n == 0 then IsTld(d)
    else exists i | 0 <= i < |d| :: FirstLabelAt(d, i, n)
  }

  /** Of the `n` dot-closed labels that start `d`, the first is closed by the dot at `i`. */
  predicate FirstLabelAt(d: string, i: int, n: nat)
    decreases n, 0
  {
    n >= 1 && LabelEndsAt(d, i) && LabelsThenTld(d[i + 1..], n - 1)
  }

  /** The domain after the `@`: 1..8 dot-closed labels, then the top-level label. */
  predicate DomainMatches(d: string)
  {
    exists n | 1 <= n <= 8 :: LabelsThenTld(d, n)
  }

  /** The `@` at `i` closes a local part and is followed by a domain. */
  predicate AddressSplitAt(s: string, i: int)
  {
    0 <= i < |s| && IsLocalPart(s[..i]) && s[i] == '@' && DomainMatches(s[i + 1..])
  }

  /** `EMAIL_REGEX.test(s)`: the lookahead holds and the string is local part, `@`, domain. */
  predicate Matches(s: string)
  {
    && LengthLookahead(s)
    && exists i | 0 <= i < |s| :: AddressSplitAt(s, i)
  }

  /** The labels of a domain, split at `.`: all but the last are labels, the last is a top-level label. */
  predicate LabelsShape(labels: seq<string>)
  {
    && |labels| >= 1
    && (forall k :: 0 <= k < |labels| - 1 ==> IsLabel(labels[k]))
    && IsTld(labels[|labels| - 1])
  }

  /** The domain, described by its split at `.`: 2..9 parts of the right shapes. */
  predicate DomainShape(d: string)
  {
    var labels := SplitAt(d, '.');
    2 <= |labels| <= 9 && LabelsShape(labels)
  }

  /** The whole format, described by splitting: exactly one `@`, a local part before it, a domain after it. */
  predicate Shape(s: string)
  {
    && LengthLookahead(s)
    && multiset(s)['@'] == 1
    && IsLocalPart(SplitAt(s, '@')[0])
    && DomainShape(SplitAt(s, '@')[1])
  }

  /** A string of label characters contains neither `.` nor `@`. */
  lemma LabelHasNoSeparator(s: string)
    requires forall j :: 0 <= j < |s| ==> IsLabelChar(s[j])
    ensures '.' !in s && '@' !in s
  {
  }

  /** The pieces of a domain hold no dot. */
  lemma LabelsSeparated(labels: seq<string>)
    requires LabelsShape(labels)
    ensures Separated(labels, '.')
  {
    forall k | 0 <= k < |labels| ensures '.' !in labels[k] {
      var x := labels[k];
      forall j | 0 <= j < |x| ensures IsLabelChar(x[j]) {
        if k == |labels| - 1 {
          assert IsLetter(x[j]);
        } else {
          assert IsLabel(x);
        }
      }
      LabelHasNoSeparator(x);
    }
  }

  /** A dot-closed label in front of `n` more labels and a top-level label makes `n + 1`. */
  lemma LabelThenMore(d: string, i: nat, n: nat)
    requires LabelEndsAt(d, i) && LabelsThenTld(d[i + 1..], n)
    ensures LabelsThenTld(d, n + 1)
  {
    assert FirstLabelAt(d, i, n + 1);
  }

  /** A label in front of a domain shape is a domain shape one piece longer. */
  lemma ConsLabels(head: string, rest: seq<string>)
    requires IsLabel(head) && LabelsShape(rest)
    ensures LabelsShape([head] + rest)
    ensures Join([head] + rest, '.') == head + "." + Join(rest, '.')
  {
    var labels := [head] + rest;
    assert labels[1..] == rest;
    forall k | 0 <= k < |labels| - 1 ensures IsLabel(labels[k]) {
      if k > 0 {
        assert labels[k] == rest[k - 1];
      }
    }
    assert labels[|labels| - 1] == rest[|rest| - 1];
  }

  /** A domain shape of two or more pieces is a label in front of a shorter domain shape. */
  lemma UnconsLabels(labels: seq<string>)
    requires LabelsShape(labels) && |labels| > 1
    ensures IsLabel(labels[0]) && LabelsShape(labels[1..])
    ensures Join(labels, '.') == labels[0] + "." + Join(labels[1..], '.')
  {
    var rest := labels[1..];
    forall k | 0 <= k < |rest| - 1 ensures IsLabel(rest[k]) {
      assert rest[k] == labels[k + 1];
    }
    assert rest[|rest| - 1] == labels[|labels| - 1];
  }

  /** A label, a dot and a domain: the dot closes the label. */
  lemma LabelThenDot(head: string, tail: string)
    requires IsLabel(head)
    ensures LabelEndsAt(head + "." + tail, |head|) && (head + "." + tail)[|head| + 1..] == tail
  {
    var d := head + "." + tail;
    assert d[..|head|] == head;
  }

  /** The pieces of a domain shape, joined with dots, match as that many labels and a top-level label. */
  lemma {:induction false} JoinedLabelsMatch(labels: seq<string>)
    requires LabelsShape(labels)
    ensures LabelsThenTld(Join(labels, '.'), |labels| - 1)
    decreases |labels|
  {
    if |labels| > 1 {
      UnconsLabels(labels);
      JoinedLabelsMatch(labels[1..]);
      LabelThenDot(labels[0], Join(labels[1..], '.'));
      LabelThenMore(Join(labels, '.'), |labels[0]|, |labels| - 2);
    }
  }

  /** A string with a dot at `i` is what comes before it, the dot, and what comes after it. */
  lemma AroundDot(d: string, i: nat)
    requires i < |d| && d[i] == '.'
    ensures d == d[..i] + "." + d[i + 1..]
  {
  }

  /** A match of `n` labels and a top-level label is `n + 1` pieces of those shapes joined with dots. */
  lemma {:induction false} LabelsThenTldJoin(d: string, n: nat) returns (labels: seq<string>)
    requires LabelsThenTld(d, n)
    ensures |labels| == n + 1 && LabelsShape(labels) && Join(labels, '.') == d
    decreases n
  {
    if n == 0 {
      labels := [d];
    } else {
      var i :| 0 <= i < |d| && FirstLabelAt(d, i, n);
      var rest := LabelsThenTldJoin(d[i + 1..], n - 1);
      ConsLabels(d[..i], rest);
      AroundDot(d, i);
      labels := [d[..i]] + rest;
    }
  }

  /** A match of `n` labels and a top-level label is made of label characters and dots, at least two per piece. */
  lemma {:induction false} LabelsThenTldChars(d: string, n: nat)
    requires LabelsThenTld(d, n)
    ensures |d| >= 2 * n + 2
    ensures forall j :: 0 <= j < |d| ==> IsLabelChar(d[j]) || d[j] == '.'
    decreases n
  {
    if n > 0 {
      var i :| 0 <= i < |d| && FirstLabelAt(d, i, n);
      LabelsThenTldChars(d[i + 1..], n - 1);
      forall j | 0 <= j < |d| ensures IsLabelChar(d[j]) || d[j] == '.' {
        if j < i {
          assert d[j] == d[..i][j];
        } else if j > i {
          assert d[j] == d[i + 1..][j - i - 1];
        }
      }
    }
  }

  /** The regex's domain part and the split description of it agree. */
  lemma DomainMatchesIffShape(d: string)
    ensures DomainMatches(d) <==> DomainShape(d)
    ensures DomainMatches(d) ==> '@' !in d
  {
    if DomainMatches(d) {
      DomainMatchesHasShape(d);
    }
    if DomainShape(d) {
      DomainShapeMatches(d);
    }
  }

  /** A domain the regex accepts splits at its dots into labels and a top-level label, and holds no `@`. */
  lemma DomainMatchesHasShape(d: string)
    requires DomainMatches(d)
    ensures DomainShape(d) && '@' !in d
  {
    var n :| 1 <= n <= 8 && LabelsThenTld(d, n);
    var labels := LabelsThenTldJoin(d, n);
    LabelsSeparated(labels);
    SplitJoin(labels, '.');
    LabelsThenTldChars(d, n);
  }

  /** A domain that splits into 2..9 pieces of the right shapes is accepted by the regex. */
  lemma DomainShapeMatches(d: string)
    requires DomainShape(d)
    ensures DomainMatches(d)
  {
    var labels := SplitAt(d, '.');
    JoinSplit(d, '.');
    JoinedLabelsMatch(labels);
    assert LabelsThenTld(d, |labels| - 1);
  }

  /** A local part holds no `@`. */
  lemma LocalPartHasNoAt(s: string)
    requires IsLocalPart(s)
    ensures '@' !in s
  {
    forall j | 0 <= j < |s| ensures s[j] != '@' { assert IsLocalChar(s[j]); }
  }

  /** One label, a dot and a top-level label make a domain. */
  lemma LabelDotTld(name: string, tld: string)
    requires IsLabel(name) && IsTld(tld)
    ensures DomainMatches(name + "." + tld)
  {
    var d := name + "." + tld;
    assert d[..|name|] == name && d[|name| + 1..] == tld;
    assert FirstLabelAt(d, |name|, 1);
    assert LabelsThenTld(d, 1);
  }

  /** A local part, an `@` and a domain, short enough for the lookahead, match. */
  lemma MatchesAddress(local: string, domain: string)
    requires IsLocalPart(local) && DomainMatches(domain) && |local| + |domain| < 254
    ensures Matches(local + "@" + domain)
  {
    var s := local + "@" + domain;
    var n :| 1 <= n <= 8 && LabelsThenTld(domain, n);
    LabelsThenTldChars(domain, n);
    assert s[..|local|] == local && s[|local| + 1..] == domain;
    assert AddressSplitAt(s, |local|);
    forall j | 0 <= j < |s| ensures IsAddressChar(s[j]) {
      if j < |local| {
        assert s[j] == local[j];
      } else if j > |local| {
        assert s[j] == domain[j - |local| - 1];
      }
    }
  }

  /** The regex, read literally, accepts exactly the strings of the split description. */
  lemma MatchesIffShape(s: string)
    ensures Matches(s) <==> Shape(s)
  {
    if Matches(s) {
      MatchesHasShape(s);
    }
    if Shape(s) {
      ShapeMatches(s);
    }
  }

  /** A string the regex accepts has the split description. */
  lemma MatchesHasShape(s: string)
    requires Matches(s)
    ensures Shape(s)
  {
    var i :| 0 <= i < |s| && AddressSplitAt(s, i);
    DomainMatchesIffShape(s[i + 1..]);
    LocalPartHasNoAt(s[..i]);
    SplitAtFirst(s, '@', i);
    SplitAtCount(s, '@');
  }

  /** A string with the split description is accepted by the regex. */
  lemma ShapeMatches(s: string)
    requires Shape(s)
    ensures Matches(s)
  {
    var parts := SplitAt(s, '@');
    SplitAtCount(s, '@');
    SplitAtRest(s, '@');
    var i := |parts[0]|;
    assert SplitAt(s[i + 1..], '@') == [parts[1]];
    JoinSplit(s[i + 1..], '@');
    DomainMatchesIffShape(s[i + 1..]);
    assert AddressSplitAt(s, i);
  }

  /** The character classes of the expression do not tell a letter from its other case. */
  lemma ClassesIgnoreCase(a: char, b: char)
    requires LowerChar(a) == LowerChar(b)
    ensures IsLetter(a) <==> IsLetter(b)
    ensures !IsLetter(a) ==> a == b
    ensures IsLocalChar(a) <==> IsLocalChar(b)
    ensures IsAddressChar(a) <==> IsAddressChar(b)
    ensures IsLabelChar(a) <==> IsLabelChar(b)
  {
  }

  /** Strings equal up to ASCII case have the same shape, piece by piece. */
  lemma PiecesIgnoreCase(x: string, y: string)
    requires Lower(x) == Lower(y)
    ensures LengthLookahead(x) <==> LengthLookahead(y)
    ensures IsLocalPart(x) <==> IsLocalPart(y)
    ensures IsLabel(x) <==> IsLabel(y)
    ensures IsTld(x) <==> IsTld(y)
  {
    forall i | 0 <= i < |x|
      ensures (IsAddressChar(x[i]) <==> IsAddressChar(y[i]))
        && (IsLocalChar(x[i]) <==> IsLocalChar(y[i]))
        && (IsLabelChar(x[i]) <==> IsLabelChar(y[i]))
        && (IsLetter(x[i]) <==> IsLetter(y[i]))
    {
      assert Lower(x)[i] == Lower(y)[i];
      ClassesIgnoreCase(x[i], y[i]);
    }
  }

  /** The domain repetitions match the same strings regardless of case. */
  lemma {:induction false} LabelsThenTldIgnoresCase(d: string, e: string, n: nat)
    requires Lower(d) == Lower(e) && LabelsThenTld(d, n)
    ensures LabelsThenTld(e, n)
    decreases n
  {
    if n == 0 {
      PiecesIgnoreCase(d, e);
    } else {
      var i :| 0 <= i < |d| && FirstLabelAt(d, i, n);
      LowerSlice(d, 0, i);
      LowerSlice(e, 0, i);
      PiecesIgnoreCase(d[..i], e[..i]);
      assert Lower(d)[i] == Lower(e)[i];
      ClassesIgnoreCase(d[i], e[i]);
      LowerSlice(d, i + 1, |d|);
      LowerSlice(e, i + 1, |e|);
      assert d[i + 1..|d|] == d[i + 1..] && e[i + 1..|e|] == e[i + 1..];
      LabelsThenTldIgnoresCase(d[i + 1..], e[i + 1..], n - 1);
      assert FirstLabelAt(e, i, n);
    }
  }

  /** The expression is case-insensitive in effect: it accepts a string iff it accepts any case variant. */
  lemma MatchesIgnoresCase(s: string, t: string)
    requires Lower(s) == Lower(t)
    ensures Matches(s) <==> Matches(t)
  {
    MatchesOneWay(s, t);
    MatchesOneWay(t, s);
  }

  /** One direction of `MatchesIgnoresCase`. */
  lemma MatchesOneWay(s: string, t: string)
    requires Lower(s) == Lower(t)
    ensures Matches(s) ==> Matches(t)
  {
    if Matches(s) {
      PiecesIgnoreCase(s, t);
      var i :| 0 <= i < |s| && AddressSplitAt(s, i);
      LowerSlice(s, 0, i);
      LowerSlice(t, 0, i);
      PiecesIgnoreCase(s[..i], t[..i]);
      assert Lower(s)[i] == Lower(t)[i];
      ClassesIgnoreCase(s[i], t[i]);
      LowerSlice(s, i + 1, |s|);
      LowerSlice(t, i + 1, |t|);
      assert s[i + 1..|s|] == s[i + 1..] && t[i + 1..|t|] == t[i + 1..];
      var n :| 1 <= n <= 8 && LabelsThenTld(s[i + 1..], n);
      LabelsThenTldIgnoresCase(s[i + 1..], t[i + 1..], n);
      assert AddressSplitAt(t, i);
    }
  }
}
