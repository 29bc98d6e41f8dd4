/** Hash to hex and back; object file names are these forty digits split after two. */
module HexNames {
  import opened Objects

  function HexDigit(n: nat): Byte
    requires n < 16
  {
    if n < 10 then 48 + n else 97 + (n - 10)
  }

  function Nibble(c: Byte): Result<nat> {
    if 48 <= c <= 57 then Ok(c - 48)
    else if 97 <= c <= 102 then Ok(c - 97 + 10)
    else if 65 <= c <= 70 then Ok(c - 65 + 10)
    else Err
  }

  const LOWER_DIGITS := "0123456789abcdef"
  const UPPER_DIGITS := "0123456789ABCDEF"

  /** Exactly the sixteen digits in either case, each with its own value. */
  lemma NibbleExactly(c: Byte, n: nat)
    ensures Nibble(c) == Ok(n) <==> n < 16 && (c == LOWER_DIGITS[n] as int || c == UPPER_DIGITS[n] as int)
  {
    if n < 16 {
      assert LOWER_DIGITS[n] as int == if n < 10 then 48 + n else 87 + n;
      assert UPPER_DIGITS[n] as int == if n < 10 then 48 + n else 55 + n;
    }
  }

  function LowerCase(c: Byte): Byte {
    if 65 <= c <= 90 then c + 32 else c
  }

  /** The digits of `bytes`, high nibble first. */
  ghost predicate IsHexOf(hex: Bytes, bytes: Bytes) {
    |hex| == 2 * |bytes| &&
    forall i :: 0 <= i < |bytes| ==>
      Nibble(hex[2 * i]) == Ok(bytes[i] / 16) && Nibble(hex[2 * i + 1]) == Ok(bytes[i] % 16)
  }

  predicate IsLowerHex(hex: Bytes) {
    forall i :: 0 <= i < |hex| ==> 48 <= hex[i] <= 57 || 97 <= hex[i] <= 102
  }

  /** The two digits of one byte, the high one first. */
  predicate Spells(hex: Bytes, h: Bytes, i: nat)
    requires i < |h| && |hex| == 2 * |h|
  {
    hex[2 * i] == LOWER_DIGITS[h[i] / 16] as int && hex[2 * i + 1] == LOWER_DIGITS[h[i] % 16] as int
  }

  lemma LowerNibble(c: Byte, n: nat)
    requires Nibble(c) == Ok(n) && (48 <= c <= 57 || 97 <= c <= 102)
    ensures n < 16 && c == LOWER_DIGITS[n] as int
  {
    NibbleExactly(c, n);
    assert UPPER_DIGITS[n] as int == if n < 10 then 48 + n else 55 + n;
    assert LOWER_DIGITS[n] as int == if n < 10 then 48 + n else 87 + n;
  }

  lemma LowerHexSpells(hex: Bytes, h: Bytes)
    requires IsHexOf(hex, h) && IsLowerHex(hex)
    ensures forall i :: 0 <= i < |h| ==> Spells(hex, h, i)
  {
    forall i | 0 <= i < |h| ensures Spells(hex, h, i) {
      hide Nibble;
      LowerNibble(hex[2 * i], h[i] / 16);
      LowerNibble(hex[2 * i + 1], h[i] % 16);
    }
  }

  method ToHex(h: Hash) returns (hex: Bytes)
    ensures IsHexOf(hex, h) && IsLowerHex(hex)
    ensures |hex| == 40 && forall i :: 0 <= i < 20 ==> Spells(hex, h, i)
  {
    hex := [];
    for i := 0 to 20
      invariant IsHexOf(hex, h[..i]) && IsLowerHex(hex)
    {
      hex := hex + [HexDigit(h[i] / 16)] + [HexDigit(h[i] % 16)];
    }
    assert h[..20] == h;
    LowerHexSpells(hex, h);
  }

  method FromHex(hex: Bytes) returns (r: Result<Hash>)
    ensures r.Ok? ==> IsHexOf(hex, r.value)
    ensures r.Err? ==> |hex| != 40 || exists i :: 0 <= i < 40 && Nibble(hex[i]).Err?
  {
    if |hex| != 40 { return Err; }
    var bytes: Bytes := [];
    for i := 0 to 20
      invariant |bytes| == i
      invariant forall j :: 0 <= j < i ==>
        Nibble(hex[2 * j]) == Ok(bytes[j] / 16) && Nibble(hex[2 * j + 1]) == Ok(bytes[j] % 16)
    {
      var high, low := Nibble(hex[2 * i]), Nibble(hex[2 * i + 1]);
      if high.Err? || low.Err? { return Err; }
      assert high.value < 16 && low.value < 16;
      bytes := bytes + [high.value * 16 + low.value];
    }
    return Ok(bytes);
  }

  /** The relation that both conversions satisfy is one-to-one up to the case of the digits. */
  lemma HexIsOneToOne(hex: Bytes, a: Bytes, hex': Bytes, b: Bytes)
    requires IsHexOf(hex, a) && IsHexOf(hex', b)
    ensures a == b <==> seq(|hex|, i requires 0 <= i < |hex| => LowerCase(hex[i]))
                        == seq(|hex'|, i requires 0 <= i < |hex'| => LowerCase(hex'[i]))
  {
    var x := seq(|hex|, i requires 0 <= i < |hex| => LowerCase(hex[i]));
    var y := seq(|hex'|, i requires 0 <= i < |hex'| => LowerCase(hex'[i]));
    if a == b {
      forall k | 0 <= k < |hex| ensures x[k] == y[k] {
        assert Nibble(hex[2 * (k / 2)]) == Nibble(hex'[2 * (k / 2)]);
        assert Nibble(hex[2 * (k / 2) + 1]) == Nibble(hex'[2 * (k / 2) + 1]);
        assert k == 2 * (k / 2) || k == 2 * (k / 2) + 1;
      }
    }
    if x == y {
      assert |a| == |b|;
      forall i | 0 <= i < |a| ensures a[i] == b[i] {
        assert x[2 * i] == y[2 * i] && x[2 * i + 1] == y[2 * i + 1];
        SameNibble(hex[2 * i], hex'[2 * i]);
        SameNibble(hex[2 * i + 1], hex'[2 * i + 1]);
        assert a[i] == a[i] / 16 * 16 + a[i] % 16;
      }
    }
  }

  lemma SameNibble(c: Byte, d: Byte)
    requires LowerCase(c) == LowerCase(d)
    ensures Nibble(c) == Nibble(d)
  {
  }

  /** Printing a hash and parsing the digits gives the hash back. */
  method HexRoundTrip(h: Hash) returns (r: Result<Hash>)
    ensures r == Ok(h)
  {
    var hex := ToHex(h);
    var prefix, rest := hex[..2], hex[2..];
    assert prefix + rest == hex;
    forall k | 0 <= k < 40 ensures Nibble(hex[k]).Ok? {
      assert Nibble(hex[2 * (k / 2)]).Ok? && Nibble(hex[2 * (k / 2) + 1]).Ok?;
      assert k == 2 * (k / 2) || k == 2 * (k / 2) + 1;
    }
    r := FromHex(prefix + rest);
    HexIsOneToOne(hex, h, hex, r.value);
  }
}
