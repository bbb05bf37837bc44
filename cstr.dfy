/** The handful of C library string operations the three core files rely on,
    stated on Dafny strings. A C string here is a `string` without its
    terminating NUL; no string in this model contains a NUL character. */
module CStr {

  datatype Option<+T> = None | Some(value: T)

  /** The C `int` range (32-bit two's complement). */
  newtype cint = x: int | -0x8000_0000 <= x < 0x8000_0000

  /** What a bounded copy leaves in a buffer of `max + 1` bytes: `snprintf`,
      or `strncpy` followed by writing NUL into the last byte, keeps the first
      `max` characters. */
  function Truncate(s: string, max: nat): (r: string)
    ensures |r| <= max && r <= s
    ensures |s| <= max ==> r == s
    ensures |s| >= max ==> |r| == max
  {
    if |s| <= max then s else s[..max]
  }

  /** `snprintf(buf, 128, ...)`: the formatted text cut to 127 characters. */
  function Snprintf128(s: string): (r: string)
    ensures |r| <= 127 && r <= s
    ensures |s| <= 127 ==> r == s
    ensures |s| >= 127 ==> |r| == 127
  {
    Truncate(s, 127)
  }

  /** `strncmp(s, p, strlen(p)) == 0`: `p` is a prefix of `s`. */
  predicate StartsWith(s: string, p: string)
  {
    |p| <= |s| && s[..|p|] == p
  }

  /** `t` occurs in `s` at position `k`. */
  predicate OccursAt(s: string, t: string, k: int)
  {
    0 <= k <= |s| - |t| && s[k..k + |t|] == t
  }

  /** `strstr(s, t) != NULL`: scans `s` for the first place `t` starts. */
  function Contains(s: string, t: string): bool
    decreases |s|
  {
    if StartsWith(s, t) then true
    else if |s| <= |t| then false
    else Contains(s[1..], t)
  }

  /** `Contains` finds `t` exactly when `t` occurs at some position of `s`. */
  lemma {:induction false} ContainsIff(s: string, t: string)
    ensures Contains(s, t) <==> exists k :: OccursAt(s, t, k)
    decreases |s|
  {
    if StartsWith(s, t) {
      assert OccursAt(s, t, 0);
    } else if |s| <= |t| {
      assert forall k :: OccursAt(s, t, k) ==> k == 0;
    } else {
      ContainsIff(s[1..], t);
      forall k | 1 <= k
        ensures OccursAt(s, t, k) == OccursAt(s[1..], t, k - 1)
      {
        if k <= |s| - |t| {
          assert s[1..][k - 1..k - 1 + |t|] == s[k..k + |t|];
        }
      }
      if Contains(s[1..], t) {
        var k :| OccursAt(s[1..], t, k);
        assert OccursAt(s, t, k + 1);
      }
    }
  }

  function Digit(d: nat): (c: char)
    requires d < 10
    ensures '0' <= c <= '9' && DigitValue(c) == d
  {
    ['0', '1', '2', '3', '4', '5', '6', '7', '8', '9'][d]
  }

  /** The value a decimal digit character stands for. */
  function DigitValue(c: char): int
  {
    c as int - '0' as int
  }

  /** The number a string of decimal digits denotes, read most significant
      digit first. */
  function Decimal(s: string): int
  {
    if s == [] then 0 else 10 * Decimal(s[..|s| - 1]) + DigitValue(s[|s| - 1])
  }

  /** Decimal digits of `n`, most significant first, as `%d` prints them. */
  function NatToString(n: nat): (r: string)
    ensures 1 <= |r|
    ensures forall k :: 0 <= k < |r| ==> '0' <= r[k] <= '9'
  {
    if n < 10 then [Digit(n)] else NatToString(n / 10) + [Digit(n % 10)]
  }

  /** `%d` of a signed integer: the digits of its magnitude, after a minus
      sign when it is negative. */
  function IntToString(n: int): (r: string)
    ensures 1 <= |r|
    ensures ' ' !in r && '\n' !in r
    ensures n >= 0 ==> forall k :: 0 <= k < |r| ==> '0' <= r[k] <= '9'
    ensures n < 0 ==> r[0] == '-' && forall k :: 1 <= k < |r| ==> '0' <= r[k] <= '9'
  {
    if n >= 0 then NatToString(n) else "-" + NatToString(-n)
  }

  /** The digits `NatToString` prints denote `n`. */
  lemma {:induction false} NatToStringDenotes(n: nat)
    ensures Decimal(NatToString(n)) == n
  {
    if n < 10 {
      assert [Digit(n)][..0] == [];
    } else {
      var p := NatToString(n / 10);
      NatToStringDenotes(n / 10);
      assert (p + [Digit(n % 10)])[..|p|] == p;
    }
  }

  /** `%d` prints no leading zero: only zero itself is written with a `0`
      in front, and then as that single digit. */
  lemma {:induction false} NatToStringNoLeadingZero(n: nat)
    ensures n >= 1 ==> NatToString(n)[0] != '0'
    ensures n == 0 ==> NatToString(n) == "0"
  {
    if n >= 10 {
      NatToStringNoLeadingZero(n / 10);
      assert NatToString(n)[0] == NatToString(n / 10)[0];
    }
  }

  /** `%d` prints the value itself: the digits denote `n`, or `-n` after the
      minus sign of a negative `n`. */
  lemma IntToStringDenotes(n: int)
    ensures n >= 0 ==> Decimal(IntToString(n)) == n
    ensures n < 0 ==> IntToString(n) == "-" + NatToString(-n) && Decimal(NatToString(-n)) == -n
  {
    if n >= 0 {
      NatToStringDenotes(n);
    } else {
      NatToStringDenotes(-n);
    }
  }

  /** A number below `10^k` has at most `k` digits. */
  lemma {:induction false} NatToStringLength(n: nat, k: nat)
    requires n < Pow10(k) && 1 <= k
    ensures |NatToString(n)| <= k
  {
    if n >= 10 {
      NatToStringLength(n / 10, k - 1);
    }
  }

  function Pow10(k: nat): (p: nat)
    ensures p >= 1
  {
    if k == 0 then 1 else 10 * Pow10(k - 1)
  }

  /** `%d` of a C `int` takes at most 11 characters (a sign and ten digits). */
  lemma CIntStringLength(n: cint)
    ensures |IntToString(n as int)| <= 11
  {
    assert Pow10(10) == 10_000_000_000;
    if n >= 0 {
      NatToStringLength(n as int, 10);
    } else {
      NatToStringLength(-(n as int), 10);
    }
  }
}
