/** String helpers with the meaning the Java libraries give them:
    commons-lang `StringUtils.isBlank`, `String.startsWith`/`endsWith`,
    and the decimal rendering `String.valueOf(int)` of a non-negative number. */
module Strings {

  /** `Character.isWhitespace`: the Unicode space separators other than the
      no-break spaces, plus the ASCII and information-separator controls. */
  predicate IsWhitespace(c: char) {
    var n := c as int;
    (0x09 <= n <= 0x0D) || (0x1C <= n <= 0x20) || n == 0x1680
    || (0x2000 <= n <= 0x2006) || (0x2008 <= n <= 0x200A)
    || n == 0x2028 || n == 0x2029 || n == 0x205F || n == 0x3000
  }

  /** `StringUtils.isBlank`: empty or whitespace only. (The null case of the
      Java method is the caller's Option.) */
  predicate IsBlank(s: string) {
    forall i :: 0 <= i < |s| ==> IsWhitespace(s[i])
  }

  /** Concatenation regrouped; stated once so that proofs need not rediscover it. */
  lemma ConcatAssoc<T>(x: seq<T>, y: seq<T>, z: seq<T>)
    ensures x + (y + z) == (x + y) + z
  {
  }

  predicate StartsWith(s: string, prefix: string) {
    |prefix| <= |s| && s[..|prefix|] == prefix
  }

  predicate EndsWith(s: string, suffix: string) {
    |suffix| <= |s| && s[|s| - |suffix|..] == suffix
  }

  /** A string that holds a non-whitespace character is not blank. */
  lemma NotBlankWhenHoldsMark(s: string, i: nat)
    requires i < |s| && !IsWhitespace(s[i])
    ensures !IsBlank(s)
  {
  }

  function DigitChar(d: nat): (c: char)
    requires d < 10
  {
    "0123456789"[d]
  }

  /** The decimal rendering of a non-negative number, most significant digit first. */
  function NatToString(n: nat): (s: string)
    ensures |s| >= 1
    ensures n >= 10 ==> |s| >= 2
    ensures forall i :: 0 <= i < |s| ==> '0' <= s[i] <= '9'
    decreases n
  {
    if n < 10 then [DigitChar(n)] else NatToString(n / 10) + [DigitChar(n % 10)]
  }

  lemma DigitCharInjective(a: nat, b: nat)
    requires a < 10 && b < 10 && DigitChar(a) == DigitChar(b)
    ensures a == b
  {
  }

  /** Distinct numbers render to distinct strings. */
  lemma {:induction false} NatToStringInjective(a: nat, b: nat)
    requires NatToString(a) == NatToString(b)
    ensures a == b
    decreases a
  {
    if a < 10 && b < 10 {
      DigitCharInjective(a, b);
    } else if a >= 10 && b >= 10 {
      var sa, sb := NatToString(a), NatToString(b);
      assert sa[|sa| - 1] == DigitChar(a % 10);
      assert sb[|sb| - 1] == DigitChar(b % 10);
      DigitCharInjective(a % 10, b % 10);
      assert sa[..|sa| - 1] == NatToString(a / 10);
      assert sb[..|sb| - 1] == NatToString(b / 10);
      NatToStringInjective(a / 10, b / 10);
    }
  }

  /** Appending distinct numbers to one prefix yields distinct strings. */
  lemma PrefixedNumbersDistinct(prefix: string, a: nat, b: nat)
    requires a != b
    ensures prefix + NatToString(a) != prefix + NatToString(b)
  {
    if prefix + NatToString(a) == prefix + NatToString(b) {
      assert (prefix + NatToString(a))[|prefix|..] == NatToString(a);
      assert (prefix + NatToString(b))[|prefix|..] == NatToString(b);
      NatToStringInjective(a, b);
    }
  }

  // ---------------------------------------------------------------------------
  // String.compareTo, as the ordering of a TreeMap's keys

  /** `a.compareTo(b) < 0`: at the first position where the strings differ
      the smaller character wins; a proper prefix comes first. */
  predicate Less(a: string, b: string)
    decreases |a|
  {
    if a == [] then b != []
    else if b == [] then false
    else if a[0] != b[0] then a[0] < b[0]
    else Less(a[1..], b[1..])
  }

  lemma {:induction false} LessIrreflexive(a: string)
    ensures !Less(a, a)
    decreases |a|
  {
    if a != [] {
      LessIrreflexive(a[1..]);
    }
  }

  lemma {:induction false} LessTotal(a: string, b: string)
    ensures a == b || Less(a, b) || Less(b, a)
    decreases |a|
  {
    if a != [] && b != [] && a[0] == b[0] {
      LessTotal(a[1..], b[1..]);
      if a[1..] == b[1..] {
        assert a == [a[0]] + a[1..] && b == [b[0]] + b[1..];
      }
    }
  }

  lemma {:induction false} LessAsymmetric(a: string, b: string)
    requires Less(a, b)
    ensures !Less(b, a)
    decreases |a|
  {
    if a != [] && a[0] == b[0] {
      LessAsymmetric(a[1..], b[1..]);
    }
  }

  lemma {:induction false} LessTransitive(a: string, b: string, c: string)
    requires Less(a, b) && Less(b, c)
    ensures Less(a, c)
    decreases |a|
  {
    if a != [] && a[0] == b[0] && b[0] == c[0] {
      LessTransitive(a[1..], b[1..], c[1..]);
    }
  }

  /** A string is never below its own prefix. */
  lemma {:induction false} PrefixNotAbove(s: string, p: string)
    requires StartsWith(s, p)
    ensures !Less(s, p)
    decreases |p|
  {
    if p != [] {
      assert s[0] == p[0];
      assert StartsWith(s[1..], p[1..]) by {
        assert s[1..][..|p[1..]|] == s[..|p|][1..];
      }
      PrefixNotAbove(s[1..], p[1..]);
    }
  }

  lemma PrefixOfTail(k: string, p: string)
    requires k != [] && p != [] && k[0] == p[0]
    ensures StartsWith(k[1..], p[1..]) <==> StartsWith(k, p)
  {
    if StartsWith(k[1..], p[1..]) {
      assert k[..|p|] == [k[0]] + k[1..][..|p[1..]|];
      assert p == [p[0]] + p[1..];
    }
    if StartsWith(k, p) {
      assert k[1..][..|p[1..]|] == k[..|p|][1..];
    }
  }

  /** The strings that start with `p` form one contiguous block of the
      ordering: a string at or above `p` that does not start with it lies
      above every string that does. */
  lemma {:induction false} PrefixBlockBelow(p: string, s: string, k: string)
    requires StartsWith(s, p) && !Less(k, p) && !StartsWith(k, p)
    ensures Less(s, k)
    decreases |p|
  {
    assert p != [] by {
      assert k[..0] == [];
    }
    if k == [] {
    } else if k[0] != p[0] {
      assert s[0] == p[0];
    } else {
      assert s[0] == p[0];
      assert StartsWith(s[1..], p[1..]) by {
        assert s[1..][..|p[1..]|] == s[..|p|][1..];
      }
      PrefixOfTail(k, p);
      PrefixBlockBelow(p[1..], s[1..], k[1..]);
    }
  }
}
