/**
 * The string operations of the Python standard library that the wrapper
 * relies on: `str(int)`, the zero-padded format `f"{i:05}"`, `pat in s`,
 * `s.replace(pat, rep)` and `os.path.join` (POSIX flavour).
 */
module Text {

  predicate IsDigit(c: char) {
    '0' <= c <= '9'
  }

  predicate AllDigits(s: string) {
    forall i | 0 <= i < |s| :: IsDigit(s[i])
  }

  function DigitValue(c: char): nat
    requires IsDigit(c)
  {
    c as int - '0' as int
  }

  function DigitChar(d: nat): (c: char)
    requires d < 10
    ensures IsDigit(c) && DigitValue(c) == d
  {
    ('0' as int + d) as char
  }

  /** The decimal digits of `n` without leading zeros: Python's `str(n)` for `n >= 0`. */
  function NatToDecimal(n: nat): (s: string)
    ensures 1 <= |s| && AllDigits(s)
    ensures (s[0] == '0') == (n == 0)
    decreases n
  {
    if n < 10 then [DigitChar(n)] else NatToDecimal(n / 10) + [DigitChar(n % 10)]
  }

  /** The number a string of decimal digits denotes (leading zeros allowed). */
  function DecimalValue(s: string): nat
    requires AllDigits(s)
  {
    if s == [] then 0 else 10 * DecimalValue(s[..|s| - 1]) + DigitValue(s[|s| - 1])
  }

  lemma {:induction false} DecimalRoundTrip(n: nat)
    ensures DecimalValue(NatToDecimal(n)) == n
    decreases n
  {
    if n >= 10 {
      var s := NatToDecimal(n);
      assert s[..|s| - 1] == NatToDecimal(n / 10);
      DecimalRoundTrip(n / 10);
    }
  }

  /** Python's `str(i)` for any integer. */
  function IntToString(i: int): string {
    if i < 0 then "-" + NatToDecimal(-i) else NatToDecimal(i)
  }

  /** The strings `int(s)` reads back: an optional minus sign and at least one digit. */
  predicate IsIntLiteral(s: string) {
    if |s| > 0 && s[0] == '-' then |s| > 1 && AllDigits(s[1..]) else |s| > 0 && AllDigits(s)
  }

  function IntValue(s: string): int
    requires IsIntLiteral(s)
  {
    if s[0] == '-' then -(DecimalValue(s[1..]) as int) else DecimalValue(s)
  }

  /** `int(str(i)) == i`: the count a command-line token carries is the count that was formatted. */
  lemma IntRoundTrip(i: int)
    ensures IsIntLiteral(IntToString(i)) && IntValue(IntToString(i)) == i
  {
    if i < 0 {
      assert IntToString(i)[1..] == NatToDecimal(-i);
      DecimalRoundTrip(-i);
    } else {
      DecimalRoundTrip(i);
    }
  }

  function Zeros(k: nat): (z: string)
    ensures |z| == k && AllDigits(z)
  {
    seq(k, _ => '0')
  }

  /** Python's `f"{n:0<width>}"` for `n >= 0`: left-padded with zeros, never truncated. */
  function ZeroPad(n: nat, width: nat): string {
    var d := NatToDecimal(n);
    if |d| < width then Zeros(width - |d|) + d else d
  }

  lemma {:induction false} ZerosValue(k: nat)
    ensures DecimalValue(Zeros(k)) == 0
  {
    if k > 0 {
      assert Zeros(k)[..k - 1] == Zeros(k - 1);
      ZerosValue(k - 1);
    }
  }

  lemma {:induction false} LeadingZerosIgnored(k: nat, s: string)
    requires AllDigits(s)
    ensures AllDigits(Zeros(k) + s) && DecimalValue(Zeros(k) + s) == DecimalValue(s)
    decreases |s|
  {
    var z := Zeros(k) + s;
    if s == [] {
      assert z == Zeros(k);
      ZerosValue(k);
    } else {
      assert z[..|z| - 1] == Zeros(k) + s[..|s| - 1];
      LeadingZerosIgnored(k, s[..|s| - 1]);
    }
  }

  /** A zero-padded number is at least `width` digits long and reads back as the number. */
  lemma ZeroPadRoundTrip(n: nat, width: nat)
    ensures |ZeroPad(n, width)| >= width && AllDigits(ZeroPad(n, width))
    ensures DecimalValue(ZeroPad(n, width)) == n
  {
    var d := NatToDecimal(n);
    DecimalRoundTrip(n);
    if |d| < width {
      LeadingZerosIgnored(width - |d|, d);
    }
  }

  /** Distinct numbers get distinct padded forms. */
  lemma ZeroPadInjective(m: nat, n: nat, width: nat)
    requires m != n
    ensures ZeroPad(m, width) != ZeroPad(n, width)
  {
    ZeroPadRoundTrip(m, width);
    ZeroPadRoundTrip(n, width);
  }

  predicate StartsWith(s: string, prefix: string) {
    |prefix| <= |s| && s[..|prefix|] == prefix
  }

  predicate EndsWith(s: string, suffix: string) {
    |suffix| <= |s| && s[|s| - |suffix|..] == suffix
  }

  /** Python's `pat in s`. */
  predicate Contains(s: string, pat: string) {
    exists i | 0 <= i <= |s| :: StartsWith(s[i..], pat)
  }

  /**
   * Python's `s.replace(pat, rep)` for a non-empty `pat`: occurrences are
   * found left to right and replaced without overlapping.
   */
  function ReplaceAll(s: string, pat: string, rep: string): string
    requires pat != []
    decreases |s|
  {
    if |s| < |pat| then s
    else if StartsWith(s, pat) then rep + ReplaceAll(s[|pat|..], pat, rep)
    else [s[0]] + ReplaceAll(s[1..], pat, rep)
  }

  /** A text without the pattern is left as it is. */
  lemma {:induction false} ReplaceAbsent(s: string, pat: string, rep: string)
    requires pat != [] && !Contains(s, pat)
    ensures ReplaceAll(s, pat, rep) == s
    decreases |s|
  {
    if |s| >= |pat| {
      assert s[0..] == s;
      assert !StartsWith(s, pat);
      forall i | 0 <= i <= |s[1..]| ensures !StartsWith(s[1..][i..], pat) {
        assert s[1..][i..] == s[i + 1..];
      }
      ReplaceAbsent(s[1..], pat, rep);
    }
  }

  /**
   * The first occurrence is replaced and the scan resumes after it: if the
   * first occurrence of `pat` in `s` starts at `k`, the result is `s[..k]`,
   * then `rep`, then the replacement of what follows the occurrence.
   */
  lemma {:induction false} ReplaceFirst(s: string, k: nat, pat: string, rep: string)
    requires pat != [] && k <= |s| && StartsWith(s[k..], pat)
    requires forall i | 0 <= i < k :: !StartsWith(s[i..], pat)
    ensures ReplaceAll(s, pat, rep) == s[..k] + rep + ReplaceAll(s[k + |pat|..], pat, rep)
    decreases k
  {
    if k > 0 {
      var t := s[1..];
      var tail := ReplaceAll(s[k + |pat|..], pat, rep);
      assert s[0..] == s;
      ReplaceAllSkip(s, pat, rep);
      ShiftedNoMatch(s, k, pat);
      assert t[k - 1..] == s[k..];
      ReplaceFirst(t, k - 1, pat, rep);
      assert t[k - 1 + |pat|..] == s[k + |pat|..];
      ConsSlices(s, k, rep, tail);
    } else {
      assert s[0..] == s;
    }
  }

  /** Where the text does not start with the pattern, its first character is kept. */
  lemma ReplaceAllSkip(s: string, pat: string, rep: string)
    requires pat != [] && |s| >= |pat| && !StartsWith(s, pat)
    ensures ReplaceAll(s, pat, rep) == [s[0]] + ReplaceAll(s[1..], pat, rep)
  {
  }

  lemma ConsSlices(s: string, k: nat, rep: string, tail: string)
    requires 0 < k <= |s|
    ensures [s[0]] + (s[1..][..k - 1] + rep + tail) == s[..k] + rep + tail
  {
    assert [s[0]] + s[1..][..k - 1] == s[..k];
  }

  lemma ShiftedNoMatch(s: string, k: nat, pat: string)
    requires 0 < k <= |s|
    requires forall i | 0 <= i < k :: !StartsWith(s[i..], pat)
    ensures forall i | 0 <= i < k - 1 :: !StartsWith(s[1..][i..], pat)
  {
    forall i | 0 <= i < k - 1 ensures !StartsWith(s[1..][i..], pat) {
      assert s[1..][i..] == s[i + 1..];
    }
  }

  /** Replacing a pattern by itself changes nothing. */
  lemma {:induction false} ReplaceBySelf(s: string, pat: string)
    requires pat != []
    ensures ReplaceAll(s, pat, pat) == s
    decreases |s|
  {
    if |s| >= |pat| {
      if StartsWith(s, pat) {
        ReplaceBySelf(s[|pat|..], pat);
        assert s == s[..|pat|] + s[|pat|..];
      } else {
        ReplaceBySelf(s[1..], pat);
        assert s == [s[0]] + s[1..];
      }
    }
  }

  /**
   * `os.path.join(a, b)` on POSIX: an absolute `b` replaces `a`; otherwise a
   * separator is inserted unless `a` is empty or already ends with one.
   */
  function PathJoin(a: string, b: string): (r: string)
    ensures EndsWith(r, b)
    ensures !StartsWith(b, "/") ==> StartsWith(r, a)
    ensures a != [] ==> r != []
  {
    if StartsWith(b, "/") then b
    else if a == [] || a[|a| - 1] == '/' then a + b
    else a + "/" + b
  }

  /** Joining a relative component: a separator is inserted unless `a` is empty or ends with one. */
  lemma PathJoinRelative(a: string, b: string)
    requires b != [] && b[0] != '/'
    ensures PathJoin(a, b) == if a == [] || a[|a| - 1] == '/' then a + b else a + "/" + b
  {
    assert !StartsWith(b, "/") by {
      assert b[..1] != "/" by {
        assert b[..1][0] == b[0];
      }
    }
  }

  /** Joining a relative component to a non-empty path ends with a separator and that component. */
  lemma JoinEndsWithComponent(a: string, b: string)
    requires a != [] && b != [] && b[0] != '/'
    ensures EndsWith(PathJoin(a, b), "/" + b)
  {
    PathJoinRelative(a, b);
    var r := PathJoin(a, b);
    if a[|a| - 1] == '/' {
      assert r[|r| - |b| - 1..] == a[|a| - 1..] + b;
    } else {
      assert r == (a + "/") + b;
      assert r[|r| - |b| - 1..] == (a + "/")[|a|..] + b;
    }
  }

  /** Concatenation regrouped, for the solver. */
  lemma ConcatAssoc<T>(a: seq<T>, b: seq<T>, c: seq<T>)
    ensures a + (b + c) == a + b + c
  {
  }
}
