/**
 * The few Python `str` operations the scripts rely on, stated over `seq<char>`:
 * ordering (what `sorted` uses on field names), `re.sub` over a character class,
 * `split()` / `''.join` to drop whitespace, ASCII case mapping, `isalnum`,
 * and `split(sep)` / `sep.join(parts)`.
 */
module Text {

  // ---------------------------------------------------------------------------
  // Ordering
  // ---------------------------------------------------------------------------

  /** Python's `<` on str: lexicographic by code point, a proper prefix sorts first. */
  predicate Less(a: string, b: string)
  {
    if a == [] then b != []
    else if b == [] then false
    else if a[0] != b[0] then a[0] < b[0]
    else Less(a[1..], b[1..])
  }

  lemma {:induction false} LessIrreflexive(a: string)
    ensures !Less(a, a)
  {
    if a != [] {
      LessIrreflexive(a[1..]);
    }
  }

  lemma {:induction false} LessTransitive(a: string, b: string, c: string)
    requires Less(a, b) && Less(b, c)
    ensures Less(a, c)
  {
    if a != [] && b != [] && c != [] && a[0] == b[0] && b[0] == c[0] {
      LessTransitive(a[1..], b[1..], c[1..]);
    }
  }

  lemma {:induction false} LessTotal(a: string, b: string)
    requires a != b
    ensures Less(a, b) || Less(b, a)
  {
    if a != [] && b != [] && a[0] == b[0] {
      assert a == [a[0]] + a[1..] && b == [b[0]] + b[1..];
      LessTotal(a[1..], b[1..]);
    }
  }

  /**
   * `a < b` read off the first position `k` where they differ (or where `a`
   * ends, if it is a proper prefix of `b`).
   */
  lemma {:induction false} LessAt(a: string, b: string, k: nat)
    requires k <= |a| && k <= |b| && a[..k] == b[..k]
    requires (k < |a| && k < |b| && a[k] < b[k]) || k == |a| < |b|
    ensures Less(a, b)
  {
    if k > 0 {
      assert a[0] == a[..k][0] && b[0] == b[..k][0];
      assert a[1..][..k - 1] == a[..k][1..] && b[1..][..k - 1] == b[..k][1..];
      LessAt(a[1..], b[1..], k - 1);
    }
  }

  /** The middle of a three-way concatenation is where it was put. */
  lemma InfixAt(a: string, b: string, c: string, d: string)
    ensures |a + (b + c) + d| >= |a| + |b| && (a + (b + c) + d)[|a|..|a| + |b|] == b
  {
  }

  /** No two strings are each below the other. */
  lemma LessAsymmetric()
    ensures forall a, b :: Less(a, b) ==> !Less(b, a)
  {
    forall a, b | Less(a, b)
      ensures !Less(b, a)
    {
      if Less(b, a) {
        LessTransitive(a, b, a);
        LessIrreflexive(a);
      }
    }
  }

  // ---------------------------------------------------------------------------
  // Removing characters
  // ---------------------------------------------------------------------------

  /**
   * The characters Python's `str.split()` (no argument) treats as separators,
   * i.e. those for which `str.isspace()` holds.
   */
  const Whitespace: set<char> := {
    '\t', '\n', '\U{B}', '\U{C}', '\r', '\U{1C}', '\U{1D}', '\U{1E}', '\U{1F}', ' ',
    '\U{85}', '\U{A0}', '\U{1680}',
    '\U{2000}', '\U{2001}', '\U{2002}', '\U{2003}', '\U{2004}', '\U{2005}',
    '\U{2006}', '\U{2007}', '\U{2008}', '\U{2009}', '\U{200A}',
    '\U{2028}', '\U{2029}', '\U{202F}', '\U{205F}', '\U{3000}'
  }

  /**
   * `s` with every character of `drop` deleted. This is `re.sub('[...]', '', s)`
   * for a character class, and `''.join(s.split())` when `drop` is `Whitespace`.
   */
  function Without(s: string, drop: set<char>): (r: string)
    ensures |r| <= |s|
    ensures forall i | 0 <= i < |r| :: r[i] !in drop && r[i] in s
  {
    if s == [] then []
    else (if s[0] in drop then [] else [s[0]]) + Without(s[1..], drop)
  }

  lemma {:induction false} WithoutAppend(a: string, b: string, drop: set<char>)
    ensures Without(a + b, drop) == Without(a, drop) + Without(b, drop)
  {
    if a == [] {
      assert a + b == b;
    } else {
      assert (a + b)[0] == a[0] && (a + b)[1..] == a[1..] + b;
      WithoutAppend(a[1..], b, drop);
    }
  }

  lemma {:induction false} WithoutNothingToDrop(s: string, drop: set<char>)
    requires forall i | 0 <= i < |s| :: s[i] !in drop
    ensures Without(s, drop) == s
  {
    if s != [] {
      WithoutNothingToDrop(s[1..], drop);
    }
  }

  /** Deleting every character of a string leaves nothing. */
  lemma {:induction false} WithoutEverything(s: string, drop: set<char>)
    requires forall i | 0 <= i < |s| :: s[i] in drop
    ensures Without(s, drop) == []
  {
    if s != [] {
      WithoutEverything(s[1..], drop);
    }
  }

  // ---------------------------------------------------------------------------
  // Character classes and case mapping (ASCII)
  // ---------------------------------------------------------------------------

  predicate IsAsciiLower(c: char) { 'a' <= c <= 'z' }

  predicate IsAsciiUpper(c: char) { 'A' <= c <= 'Z' }

  predicate IsAsciiAlnum(c: char) { IsAsciiLower(c) || IsAsciiUpper(c) || '0' <= c <= '9' }

  function UpperChar(c: char): char
  {
    if IsAsciiLower(c) then (c as int - 'a' as int + 'A' as int) as char else c
  }

  function LowerChar(c: char): char
  {
    if IsAsciiUpper(c) then (c as int - 'A' as int + 'a' as int) as char else c
  }

  /** `str.upper()`, for ASCII letters. */
  function Upper(s: string): (r: string)
    ensures |r| == |s|
    ensures forall i | 0 <= i < |r| :: !IsAsciiLower(r[i])
  {
    seq(|s|, i requires 0 <= i < |s| => UpperChar(s[i]))
  }

  /** `str.lower()`, for ASCII letters. */
  function Lower(s: string): (r: string)
    ensures |r| == |s|
    ensures forall i | 0 <= i < |r| :: !IsAsciiUpper(r[i])
  {
    seq(|s|, i requires 0 <= i < |s| => LowerChar(s[i]))
  }

  /** Upper-casing leaves a string without lower-case letters as it is. */
  lemma UpperIdentity(s: string)
    requires forall i | 0 <= i < |s| :: !IsAsciiLower(s[i])
    ensures Upper(s) == s
  {
  }

  /** Lower-casing leaves a string without upper-case letters as it is. */
  lemma LowerIdentity(s: string)
    requires forall i | 0 <= i < |s| :: !IsAsciiUpper(s[i])
    ensures Lower(s) == s
  {
  }

  /** Upper-casing after lower-casing is upper-casing. */
  lemma UpperOfLower(s: string)
    ensures Upper(Lower(s)) == Upper(s)
  {
  }

  /** A set of characters holding no ASCII letter. */
  predicate NoLetters(drop: set<char>)
  {
    forall c | c in drop :: !IsAsciiLower(c) && !IsAsciiUpper(c)
  }

  /** Deleting non-letters commutes with upper-casing. */
  lemma {:induction false} UpperWithout(s: string, drop: set<char>)
    requires NoLetters(drop)
    ensures Without(Upper(s), drop) == Upper(Without(s, drop))
  {
    if s != [] {
      assert Upper(s)[0] == UpperChar(s[0]) && Upper(s)[1..] == Upper(s[1..]);
      UpperWithout(s[1..], drop);
      assert Upper([s[0]] + Without(s[1..], drop)) == [UpperChar(s[0])] + Upper(Without(s[1..], drop));
      assert Upper([] + Without(s[1..], drop)) == Upper(Without(s[1..], drop));
    }
  }

  /** Deleting non-letters commutes with lower-casing. */
  lemma {:induction false} LowerWithout(s: string, drop: set<char>)
    requires NoLetters(drop)
    ensures Without(Lower(s), drop) == Lower(Without(s, drop))
  {
    if s != [] {
      assert Lower(s)[0] == LowerChar(s[0]) && Lower(s)[1..] == Lower(s[1..]);
      LowerWithout(s[1..], drop);
      assert Lower([s[0]] + Without(s[1..], drop)) == [LowerChar(s[0])] + Lower(Without(s[1..], drop));
      assert Lower([] + Without(s[1..], drop)) == Lower(Without(s[1..], drop));
    }
  }

  /** `str.isalnum()`: non-empty and every character a letter or a digit. */
  predicate IsAlnum(s: string)
  {
    |s| > 0 && forall i | 0 <= i < |s| :: IsAsciiAlnum(s[i])
  }

  // ---------------------------------------------------------------------------
  // split(sep) and sep.join(parts)
  // ---------------------------------------------------------------------------

  /** Number of occurrences of `c` in `s`. */
  function Count(s: string, c: char): nat
  {
    if s == [] then 0 else (if s[0] == c then 1 else 0) + Count(s[1..], c)
  }

  /** The concatenation of all parts: `''.join(parts)`. */
  function Concat(parts: seq<string>): string
  {
    if parts == [] then [] else parts[0] + Concat(parts[1..])
  }

  /** `sep.join(parts)`. */
  function Join(parts: seq<string>, sep: char): string
  {
    if |parts| == 0 then []
    else if |parts| == 1 then parts[0]
    else parts[0] + [sep] + Join(parts[1..], sep)
  }

  /** `s.split(sep)` for a one-character separator: never an empty list. */
  function Split(s: string, sep: char): (parts: seq<string>)
    ensures |parts| >= 1
  {
    if s == [] then [[]]
    else
      var rest := Split(s[1..], sep);
      if s[0] == sep then [[]] + rest else [[s[0]] + rest[0]] + rest[1..]
  }

  /** A part that holds no separator. */
  predicate SeparatorFree(part: string, sep: char)
  {
    forall i | 0 <= i < |part| :: part[i] != sep
  }

  lemma {:induction false} SplitSeparatorFree(p: string, sep: char)
    requires SeparatorFree(p, sep)
    ensures Split(p, sep) == [p]
  {
    if p != [] {
      SplitSeparatorFree(p[1..], sep);
      assert [p[0]] + p[1..] == p;
    }
  }

  lemma {:induction false} SplitAfterPart(p: string, q: string, sep: char)
    requires SeparatorFree(p, sep)
    ensures Split(p + [sep] + q, sep) == [p] + Split(q, sep)
  {
    if p == [] {
      assert (p + [sep] + q)[1..] == q;
    } else {
      assert (p + [sep] + q)[1..] == p[1..] + [sep] + q;
      SplitAfterPart(p[1..], q, sep);
      assert [p[0]] + p[1..] == p;
    }
  }

  /** Splitting undoes joining, provided no part holds the separator. */
  lemma {:induction false} SplitJoin(parts: seq<string>, sep: char)
    requires |parts| >= 1
    requires forall k | 0 <= k < |parts| :: SeparatorFree(parts[k], sep)
    ensures Split(Join(parts, sep), sep) == parts
  {
    if |parts| == 1 {
      SplitSeparatorFree(parts[0], sep);
    } else {
      SplitJoin(parts[1..], sep);
      SplitAfterPart(parts[0], Join(parts[1..], sep), sep);
    }
  }

  /** There is one more part than there are separators. */
  lemma {:induction false} SplitCount(s: string, sep: char)
    ensures |Split(s, sep)| == Count(s, sep) + 1
  {
    if s != [] {
      SplitCount(s[1..], sep);
    }
  }

  /**
   * The first part of `s.split(sep)` is the longest prefix of `s` without
   * `sep`: it is all of `s`, or it stops just before the first `sep`.
   */
  lemma {:induction false} SplitHead(s: string, sep: char)
    ensures var h := Split(s, sep)[0];
      && |h| <= |s| && h == s[..|h|] && SeparatorFree(h, sep)
      && (|h| == |s| || s[|h|] == sep)
  {
    if s != [] {
      SplitHead(s[1..], sep);
    }
  }

  /** Deleting the separator (and nothing the parts hold) from a join concatenates the parts. */
  lemma {:induction false} WithoutJoin(parts: seq<string>, sep: char, drop: set<char>)
    requires sep in drop
    requires forall k, i | 0 <= k < |parts| && 0 <= i < |parts[k]| :: parts[k][i] !in drop
    ensures Without(Join(parts, sep), drop) == Concat(parts)
  {
    if |parts| == 1 {
      WithoutNothingToDrop(parts[0], drop);
      assert Concat(parts) == parts[0] + Concat([]);
    } else if |parts| > 1 {
      WithoutJoin(parts[1..], sep, drop);
      WithoutAppend(parts[0] + [sep], Join(parts[1..], sep), drop);
      WithoutAppend(parts[0], [sep], drop);
      WithoutNothingToDrop(parts[0], drop);
    }
  }
}
