/** Printing and parsing of unsigned numerals, in octal (modes) and decimal (sizes). */
module Numerals {
  import opened Objects

  const PLUS: Byte := 43
  const ZERO: Byte := 48

  /** `{:o}` and `{}` formatting: digits without leading zeros. */
  function Numeral(n: nat, base: nat): Bytes
    requires base == 8 || base == 10
  {
    if n < base then [ZERO + n] else Numeral(n / base, base) + [ZERO + n % base]
  }

  function ParseDigits(s: Bytes, base: nat, limit: nat, acc: nat): Result<nat>
    requires base == 8 || base == 10
  {
    if s == [] then Ok(acc)
    else if !(ZERO <= s[0] < ZERO + base) then Err
    else
      var v := acc * base + (s[0] - ZERO);
      if v >= limit then Err else ParseDigits(s[1..], base, limit, v)
  }

  /** `from_str_radix` on an unsigned type: an optional plus sign, at least one digit, no overflow. */
  function ParseUnsigned(s: Bytes, base: nat, limit: nat): Result<nat>
    requires base == 8 || base == 10
  {
    if s == [] || s == [PLUS] then Err
    else ParseDigits(if s[0] == PLUS then s[1..] else s, base, limit, 0)
  }

  lemma {:induction false} NumeralIsDigits(n: nat, base: nat)
    requires base == 8 || base == 10
    ensures Numeral(n, base) != []
    ensures forall c :: c in Numeral(n, base) ==> ZERO <= c < ZERO + base
  {
    if n >= base { NumeralIsDigits(n / base, base); }
  }

  lemma {:induction false} ParseDigitsOfNumeral(n: nat, base: nat, limit: nat, rest: Bytes)
    requires base == 8 || base == 10
    requires n < limit
    ensures ParseDigits(Numeral(n, base) + rest, base, limit, 0) == ParseDigits(rest, base, limit, n)
  {
    if n < base {
      assert ([ZERO + n] + rest)[1..] == rest;
    } else {
      var d: Bytes := [ZERO + n % base];
      var q := n / base;
      assert q * base + n % base == n by {
        if base == 8 { assert n / 8 * 8 + n % 8 == n; } else { assert n / 10 * 10 + n % 10 == n; }
      }
      assert Numeral(n, base) + rest == Numeral(q, base) + (d + rest);
      ParseDigitsOfNumeral(q, base, limit, d + rest);
      assert (d + rest)[1..] == rest;
    }
  }

  /** Parsing undoes printing for every value below the limit of the type. */
  lemma NumeralRoundTrip(n: nat, base: nat, limit: nat)
    requires base == 8 || base == 10
    requires n < limit
    ensures ParseUnsigned(Numeral(n, base), base, limit) == Ok(n)
  {
    var s := Numeral(n, base);
    NumeralIsDigits(n, base);
    assert s[0] in s;
    assert s != [PLUS];
    assert s + [] == s;
    ParseDigitsOfNumeral(n, base, limit, []);
  }

  /** The number a string of digits stands for, the last one counting ones. */
  function NumberOf(digits: Bytes, base: nat): int {
    if digits == [] then 0
    else NumberOf(digits[..|digits| - 1], base) * base + (digits[|digits| - 1] - ZERO)
  }

  ghost predicate AllDigits(s: Bytes, base: nat) {
    forall i :: 0 <= i < |s| ==> ZERO <= s[i] < ZERO + base
  }

  lemma NoDigits(base: nat)
    ensures AllDigits([], base)
  {
  }

  lemma OneMoreDigit(read: Bytes, s: Bytes, base: nat)
    requires AllDigits(read, base) && s != []
    ensures NumberOf(read + [s[0]], base) == NumberOf(read, base) * base + (s[0] - ZERO)
    ensures AllDigits(read + [s[0]], base) <==> ZERO <= s[0] < ZERO + base
    ensures AllDigits(s, base) <==> ZERO <= s[0] < ZERO + base && AllDigits(s[1..], base)
  {
    var more := read + [s[0]];
    assert more[..|read|] == read && more[|read|] == s[0];
    assert forall i :: 0 < i < |s| ==> s[i] == s[1..][i - 1];
  }

  /** Reading on after `read`, whose number is below the limit. */
  lemma {:induction false} ParseDigitsExactly(read: Bytes, s: Bytes, base: nat, limit: nat, n: nat)
    requires base == 8 || base == 10
    requires AllDigits(read, base) && 0 <= NumberOf(read, base) < limit
    ensures ParseDigits(s, base, limit, NumberOf(read, base)) == Ok(n) <==>
            AllDigits(s, base) && NumberOf(read + s, base) == n && n < limit
    decreases |s|
  {
    hide NumberOf, AllDigits;
    if s == [] {
      assert read + s == read;
      NoDigits(base);
    } else {
      var more := read + [s[0]];
      assert more + s[1..] == read + s;
      OneMoreDigit(read, s, base);
      if AllDigits(more, base) {
        if NumberOf(more, base) < limit {
          ParseDigitsExactly(more, s[1..], base, limit, n);
        } else if AllDigits(s[1..], base) {
          NumberGrows(more, s[1..], base);
        }
      }
    }
  }

  lemma {:induction false} NumberGrows(a: Bytes, b: Bytes, base: nat)
    requires base > 0 && NumberOf(a, base) >= 0 && AllDigits(b, base)
    ensures NumberOf(a + b, base) >= NumberOf(a, base)
    decreases |b|
  {
    if b == [] {
      assert a + b == a;
    } else {
      var init := b[..|b| - 1];
      assert (a + b)[..|a + b| - 1] == a + init;
      NumberGrows(a, init, base);
      assert NumberOf(a + init, base) * base >= NumberOf(a + init, base);
    }
  }

  /** Accepted is exactly a number below the limit, in digits of the base, behind at most one plus sign. */
  lemma ParseUnsignedExactly(s: Bytes, base: nat, limit: nat, n: nat)
    requires (base == 8 || base == 10) && limit > 0
    ensures ParseUnsigned(s, base, limit) == Ok(n) <==>
            exists digits :: digits != [] && (s == digits || s == [PLUS] + digits)
                && AllDigits(digits, base) && NumberOf(digits, base) == n && n < limit
  {
    if s != [] && s != [PLUS] {
      var digits := if s[0] == PLUS then s[1..] else s;
      ParseDigitsExactly([], digits, base, limit, n);
      assert [] + digits == digits && (s[0] == PLUS ==> s == [PLUS] + digits);
      forall d | d != [] && (s == d || s == [PLUS] + d) && AllDigits(d, base) ensures d == digits {
        assert ZERO <= d[0];
      }
    }
  }
}
