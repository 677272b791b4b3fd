/**
 The JavaScript string built-ins that lib/email.ts relies on, over `seq<char>`:
 `split` on a single character, `split(c)[0]` (the text before the first `c`),
 `replace(/c/g, '')` and ASCII `toLowerCase`. `Upper` (ASCII upper-casing)
 is not used by lib/email.ts; it is there to state that the results do not
 depend on letter case.
 */
module Strings {

  predicate IsUpper(c: char) { 'A' <= c <= 'Z' }

  predicate IsLower(c: char) { 'a' <= c <= 'z' }

  predicate IsLetter(c: char) { IsUpper(c) || IsLower(c) }

  predicate IsDigit(c: char) { '0' <= c <= '9' }

  /** ASCII lower-casing of one character; every other character is left alone. */
  function LowerChar(c: char): (r: char)
    ensures !IsUpper(r)
    ensures IsLetter(r) <==> IsLetter(c)
    ensures !IsLetter(c) ==> r == c
  {
    if IsUpper(c) then (c as int - 'A' as int + 'a' as int) as char else c
  }

  /** ASCII upper-casing of one character; every other character is left alone. */
  function UpperChar(c: char): (r: char)
    ensures !IsLower(r)
    ensures IsLetter(r) <==> IsLetter(c)
    ensures LowerChar(r) == LowerChar(c)
  {
    if IsLower(c) then (c as int - 'a' as int + 'A' as int) as char else c
  }

  /** `s.toLowerCase()` restricted to ASCII letters. */
  function Lower(s: string): (r: string)
    ensures |r| == |s|
    ensures forall i {:trigger r[i]} :: 0 <= i < |s| ==> r[i] == LowerChar(s[i])
  {
    seq(|s|, i requires 0 <= i < |s| => LowerChar(s[i]))
  }

  /** ASCII upper-casing, used only to state case invariance. */
  function Upper(s: string): (r: string)
    ensures |r| == |s|
    ensures forall i {:trigger r[i]} :: 0 <= i < |s| ==> r[i] == UpperChar(s[i])
  {
    seq(|s|, i requires 0 <= i < |s| => UpperChar(s[i]))
  }

  /** No character of `s` is an upper-case letter. */
  predicate NoUpper(s: string) { forall c :: c in s ==> !IsUpper(c) }

  /** Lower-casing leaves nothing to lower-case and is idempotent. */
  lemma LowerIsLower(s: string)
    ensures NoUpper(Lower(s))
    ensures Lower(Lower(s)) == Lower(s)
  {
    forall c | c in Lower(s) ensures !IsUpper(c) {
      var i :| 0 <= i < |s| && Lower(s)[i] == c;
    }
  }

  /** A string with no upper-case letter is its own lower-case form. */
  lemma LowerOfNoUpper(s: string)
    requires NoUpper(s)
    ensures Lower(s) == s
  {
    forall i | 0 <= i < |s| ensures Lower(s)[i] == s[i] {
      assert s[i] in s;
    }
  }

  /** Two strings with no upper-case letter, joined by a character that is not one, have none. */
  lemma NoUpperAround(a: string, c: char, b: string)
    requires NoUpper(a) && NoUpper(b) && !IsUpper(c)
    ensures NoUpper(a + [c] + b)
  {
  }

  /** A slice of a string with no upper-case letter has none. */
  lemma NoUpperSlice(s: string, lo: nat, hi: nat)
    requires lo <= hi <= |s| && NoUpper(s)
    ensures NoUpper(s[lo..hi])
  {
    forall c | c in s[lo..hi] ensures !IsUpper(c) {
      var j :| 0 <= j < hi - lo && s[lo..hi][j] == c;
      assert s[lo + j] in s;
    }
  }

  /** A string drawing its characters from one with no upper-case letter has none either. */
  lemma NoUpperOfSubset(a: string, b: string)
    requires NoUpper(b) && forall c :: c in a ==> c in b
    ensures NoUpper(a)
  {
  }

  /** Upper-casing first does not change the lower-case form. */
  lemma LowerOfUpper(s: string)
    ensures Lower(Upper(s)) == Lower(s)
  {
  }

  /** Lower-casing distributes over concatenation. */
  lemma LowerAppend(a: string, b: string)
    ensures Lower(a + b) == Lower(a) + Lower(b)
  {
  }

  /** The parts joined back with `c` between them: the inverse of `SplitAt`. */
  function Join(parts: seq<string>, c: char): (s: string)
    requires |parts| >= 1
    decreases |parts|
  {
    if |parts| == 1 then parts[0] else parts[0] + [c] + Join(parts[1..], c)
  }

  /** No part contains the separator. */
  predicate Separated(parts: seq<string>, c: char)
  {
    forall k :: 0 <= k < |parts| ==> c !in parts[k]
  }

  /** The position of the first `c` in `s`. */
  function IndexOf(s: string, c: char): (i: nat)
    requires c in s
    ensures i < |s| && s[i] == c && c !in s[..i]
  {
    if s[0] == c then 0
    else
      assert c in s[1..] by { assert s == [s[0]] + s[1..]; }
      var j := IndexOf(s[1..], c);
      assert s[..j + 1] == [s[0]] + s[1..][..j];
      j + 1
  }

  /**
   `s.split(c)` for a one-character separator: the maximal runs of `s` between
   occurrences of `c`, always at least one (the empty string splits to `[""]`).
   */
  function SplitAt(s: string, c: char): (parts: seq<string>)
    ensures |parts| >= 1
    ensures Separated(parts, c)
    decreases |s|
  {
    if c !in s then [s]
    else
      var i := IndexOf(s, c);
      var rest := SplitAt(s[i + 1..], c);
      assert ([s[..i]] + rest)[1..] == rest;
      [s[..i]] + rest
  }

  /** Joining the parts of a split with the separator gives back the string. */
  lemma {:induction false} JoinSplit(s: string, c: char)
    ensures Join(SplitAt(s, c), c) == s
    decreases |s|
  {
    if c in s {
      var i := IndexOf(s, c);
      JoinSplit(s[i + 1..], c);
      assert s == s[..i] + [c] + s[i + 1..];
    }
  }

  /** A split has one more part than the string has separators. */
  lemma {:induction false} SplitAtCount(s: string, c: char)
    ensures |SplitAt(s, c)| == multiset(s)[c] + 1
    decreases |s|
  {
    if c in s {
      var i := IndexOf(s, c);
      SplitAtCount(s[i + 1..], c);
      SplitAtFirst(s, c, i);
      assert s == s[..i] + [c] + s[i + 1..];
      assert multiset(s) == multiset(s[..i]) + multiset{c} + multiset(s[i + 1..]);
      assert multiset(s[..i])[c] == 0;
    } else {
      assert multiset(s)[c] == 0;
    }
  }

  /** Splitting a joined list of separator-free parts gives the parts back. */
  lemma {:induction false} SplitJoin(parts: seq<string>, c: char)
    requires |parts| >= 1 && Separated(parts, c)
    ensures SplitAt(Join(parts, c), c) == parts
    decreases |parts|
  {
    if |parts| > 1 {
      var s, tail := Join(parts, c), Join(parts[1..], c);
      var i := |parts[0]|;
      assert Separated(parts[1..], c);
      SplitJoin(parts[1..], c);
      assert s == parts[0] + [c] + tail;
      assert s[..i] == parts[0] && s[i] == c && s[i + 1..] == tail;
      SplitAtFirst(s, c, i);
      assert parts == [parts[0]] + parts[1..];
    }
  }

  /** When the first separator is at `i`, the first part is `s[..i]` and the rest splits `s[i + 1..]`. */
  lemma SplitAtFirst(s: string, c: char, i: nat)
    requires i < |s| && s[i] == c && c !in s[..i]
    ensures SplitAt(s, c) == [s[..i]] + SplitAt(s[i + 1..], c)
  {
  }

  /**
   When there is a separator, the first part is followed by it in `s` and the
   remaining parts split what comes after it.
   */
  lemma SplitAtRest(s: string, c: char)
    requires |SplitAt(s, c)| >= 2
    ensures |SplitAt(s, c)[0]| < |s|
    ensures s[..|SplitAt(s, c)[0]|] == SplitAt(s, c)[0]
    ensures s[|SplitAt(s, c)[0]|] == c
    ensures SplitAt(s[|SplitAt(s, c)[0]| + 1..], c) == SplitAt(s, c)[1..]
  {
    assert c in s;
  }

  /** `s.split(c)[0]`: the text of `s` before its first `c`, or all of `s` if it has none. */
  function BeforeFirst(s: string, c: char): (r: string)
    ensures TruncatedAt(r, s, c)
  {
    var p := SplitAt(s, c);
    if |p| == 1 then
      assert c !in s;
      s
    else
      SplitAtRest(s, c);
      p[0]
  }

  /** `r` is `s` cut just before its first `c`. */
  predicate TruncatedAt(r: string, s: string, c: char)
  {
    r <= s && c !in r && (|r| < |s| ==> s[|r|] == c)
  }

  /** `TruncatedAt` determines its result: `BeforeFirst` is the only truncation. */
  lemma TruncatedAtUnique(r: string, s: string, c: char)
    requires TruncatedAt(r, s, c)
    ensures r == BeforeFirst(s, c)
  {
  }

  /** Cutting at `c` twice is cutting once; a string without `c` is not cut. */
  lemma BeforeFirstIdempotent(s: string, c: char)
    ensures BeforeFirst(BeforeFirst(s, c), c) == BeforeFirst(s, c)
  {
    var b := BeforeFirst(s, c);
    TruncatedAtUnique(b, b, c);
  }

  /** `s.replace(/c/g, '')`: every `c` removed, the other characters kept in order. */
  function RemoveAll(s: string, c: char): (r: string)
    ensures c !in r
    ensures c !in s ==> r == s
  {
    if |s| == 0 then ""
    else
      assert s == [s[0]] + s[1..];
      if s[0] == c then RemoveAll(s[1..], c) else [s[0]] + RemoveAll(s[1..], c)
  }

  /** Removal keeps every other character, as often as it occurs. */
  lemma {:induction false} RemoveAllKeepsOthers(s: string, c: char)
    ensures multiset(RemoveAll(s, c)) == multiset(s)[c := 0]
    decreases |s|
  {
    if |s| > 0 {
      RemoveAllKeepsOthers(s[1..], c);
      assert s == [s[0]] + s[1..];
    }
  }

  /** `s.replace(/c/g, '')` distributes over concatenation. */
  lemma {:induction false} RemoveAllAppend(a: string, b: string, c: char)
    ensures RemoveAll(a + b, c) == RemoveAll(a, c) + RemoveAll(b, c)
    decreases |a|
  {
    if |a| == 0 {
      assert a + b == b;
    } else {
      RemoveAllAppend(a[1..], b, c);
      assert (a + b)[0] == a[0] && (a + b)[1..] == a[1..] + b;
      if a[0] != c {
        calc {
          RemoveAll(a + b, c);
          [a[0]] + RemoveAll(a[1..] + b, c);
          [a[0]] + (RemoveAll(a[1..], c) + RemoveAll(b, c));
          ([a[0]] + RemoveAll(a[1..], c)) + RemoveAll(b, c);
        }
      }
    }
  }

  /** Lower-casing commutes with taking a slice. */
  lemma LowerSlice(s: string, lo: nat, hi: nat)
    requires lo <= hi <= |s|
    ensures Lower(s[lo..hi]) == Lower(s)[lo..hi]
  {
  }

  /** Lower-casing `a`, then `c`, then `b` is lower-casing each piece, when `c` is no letter. */
  lemma LowerAround(a: string, c: char, b: string)
    requires !IsLetter(c)
    ensures Lower(a + [c] + b) == Lower(a) + [c] + Lower(b)
  {
    LowerAppend(a + [c], b);
    LowerAppend(a, [c]);
  }

  /** Lower-casing commutes with dropping a prefix. */
  lemma LowerSuffix(s: string, k: nat)
    requires k <= |s|
    ensures Lower(s[k..]) == Lower(s)[k..]
  {
  }

  /** Lower-casing does not move a character that is not a letter. */
  lemma LowerKeepsNonLetter(s: string, c: char)
    requires !IsLetter(c)
    ensures c in Lower(s) <==> c in s
  {
    if c in s {
      var i :| 0 <= i < |s| && s[i] == c;
      assert Lower(s)[i] == c;
    }
  }

  /** Cutting at a non-letter and lower-casing can be done in either order. */
  lemma LowerBeforeFirst(s: string, c: char)
    requires !IsLetter(c)
    ensures Lower(BeforeFirst(s, c)) == BeforeFirst(Lower(s), c)
  {
    var b := BeforeFirst(s, c);
    LowerSlice(s, 0, |b|);
    assert b == s[..|b|];
    LowerKeepsNonLetter(b, c);
    TruncatedAtUnique(Lower(b), Lower(s), c);
  }

  /** Removing `c` from `a`, a character `x`, then `b` removes it from each piece. */
  lemma RemoveAllAround(a: string, x: char, b: string, c: char)
    ensures RemoveAll(a + [x] + b, c) == RemoveAll(a, c) + RemoveAll([x], c) + RemoveAll(b, c)
  {
    RemoveAllAppend(a + [x], b, c);
    RemoveAllAppend(a, [x], c);
  }

  /** Removing the one `c` between two `c`-free strings joins them. */
  lemma RemoveOnlySeparator(a: string, c: char, b: string)
    requires c !in a && c !in b
    ensures RemoveAll(a + [c] + b, c) == a + b
  {
    assert RemoveAll([c], c) == RemoveAll([c][1..], c) == [];
    RemoveAllAround(a, c, b, c);
  }

  datatype Option<T> = None | Some(value: T)

  /**
   `const [first, second] = s.split(c)`: the text before the first `c`, and the
   text between the first and the second `c` (to the end if there is no second),
   which is missing (`undefined`) when `s` has no `c` at all.
   */
  function SplitFirstTwo(s: string, c: char): (r: (string, Option<string>))
    ensures r.0 == BeforeFirst(s, c)
    ensures r.1.Some? <==> c in s
    ensures r.1.Some? ==> |r.0| < |s| && s[|r.0|] == c && r.1.value == BeforeFirst(s[|r.0| + 1..], c)
  {
    var parts := SplitAt(s, c);
    if |parts| >= 2 then
      SplitAtRest(s, c);
      (parts[0], Some(parts[1]))
    else
      (parts[0], None)
  }

  /** Splitting at a non-letter commutes with lower-casing, part by part. */
  lemma LowerSplitFirstTwo(s: string, c: char)
    requires !IsLetter(c)
    ensures SplitFirstTwo(Lower(s), c).0 == Lower(SplitFirstTwo(s, c).0)
    ensures SplitFirstTwo(Lower(s), c).1.Some? <==> SplitFirstTwo(s, c).1.Some?
    ensures SplitFirstTwo(s, c).1.Some? ==>
      SplitFirstTwo(Lower(s), c).1.value == Lower(SplitFirstTwo(s, c).1.value)
  {
    LowerBeforeFirst(s, c);
    LowerKeepsNonLetter(s, c);
    if c in s {
      LowerSplitSecond(s, c);
    }
  }

  /** The second part of a split at a non-letter, lower-cased, is the second part of the lower-cased split. */
  lemma LowerSplitSecond(s: string, c: char)
    requires !IsLetter(c) && c in s
    ensures SplitFirstTwo(Lower(s), c).1.Some?
    ensures SplitFirstTwo(Lower(s), c).1.value == Lower(SplitFirstTwo(s, c).1.value)
  {
    var r, q := SplitFirstTwo(s, c), SplitFirstTwo(Lower(s), c);
    LowerBeforeFirst(s, c);
    LowerKeepsNonLetter(s, c);
    var k := |r.0| + 1;
    assert |q.0| == |Lower(r.0)| == |r.0|;
    LowerSuffix(s, k);
    LowerBeforeFirst(s[k..], c);
    calc {
      q.1.value;
      BeforeFirst(Lower(s)[k..], c);
      BeforeFirst(Lower(s[k..]), c);
      Lower(BeforeFirst(s[k..], c));
      Lower(r.1.value);
    }
  }
}
