/** The benchmark's fixed-width decimal fields: `write_u128_fixed` and the two
    wrapping parsers. */
module Decimal {
  import opened Words
  import opened Division

  const U64_RANGE: nat := 0x1_0000_0000_0000_0000
  const U128_RANGE: nat := 0x1_0000_0000_0000_0000_0000_0000_0000_0000

  function Pow10(n: nat): (r: nat)
    ensures r > 0
  {
    if n == 0 then 1 else 10 * Pow10(n - 1)
  }

  predicate IsDigit(b: Byte) {
    48 <= b <= 57
  }

  predicate Digits(s: seq<Byte>) {
    forall i :: 0 <= i < |s| ==> IsDigit(s[i])
  }

  /** The number a digit string denotes. */
  function Value(s: seq<Byte>): nat
    requires Digits(s)
  {
    if s == [] then 0 else 10 * Value(s[..|s| - 1]) + (s[|s| - 1] as int - 48)
  }

  /** The `width` low decimal digits of `v`, most significant first. */
  function Fixed(v: nat, width: nat): (r: seq<Byte>)
    ensures |r| == width && Digits(r)
  {
    if width == 0 then [] else Fixed(v / 10, width - 1) + [48 + v % 10]
  }

  lemma DivMod10(v: nat, p: nat)
    requires p > 0
    ensures v % (10 * p) == 10 * (v / 10 % p) + v % 10
  {
    var q, r, d := v / 10 / p, v / 10 % p, v % 10;
    assert v / 10 == q * p + r;
    assert v == (10 * p) * q + (10 * r + d);
    QuotientAndRemainder(v, 10 * p, q, 10 * r + d);
  }

  /** What was printed denotes the number, cut to the width. */
  lemma {:induction false} FixedValue(v: nat, width: nat)
    ensures Value(Fixed(v, width)) == v % Pow10(width)
  {
    if width > 0 {
      FixedValue(v / 10, width - 1);
      DivMod10(v, Pow10(width - 1));
      assert Fixed(v, width)[..width - 1] == Fixed(v / 10, width - 1);
    }
  }

  lemma {:induction false} FixedSuffix(v: nat, w: nat, d: nat)
    requires w <= d
    ensures Fixed(v, w) == Fixed(v, d)[d - w..]
  {
    if w > 0 {
      FixedSuffix(v / 10, w - 1, d - 1);
      assert Fixed(v, d)[d - w..] == Fixed(v / 10, d - 1)[d - w..] + [48 + v % 10];
    }
  }

  lemma {:induction false} FixedPadding(v: nat, d: nat, w: nat)
    requires d <= w && v < Pow10(d)
    ensures Fixed(v, w) == seq(w - d, _ => 48) + Fixed(v, d)
  {
    if w > 0 {
      if d > 0 {
        FixedPadding(v / 10, d - 1, w - 1);
      } else {
        FixedPadding(v / 10, 0, w - 1);
        assert Fixed(v, w) == seq(w, _ => 48) + [];
      }
    }
  }

  /** `v` without its `d` low digits. */
  function Shift(v: nat, d: nat): nat {
    if d == 0 then v else Shift(v / 10, d - 1)
  }

  lemma {:induction false} ShiftOne(v: nat, d: nat)
    ensures Shift(v, d + 1) == Shift(v, d) / 10
    ensures Shift(v, d) == 0 ==> v < Pow10(d)
  {
    if d > 0 {
      ShiftOne(v / 10, d - 1);
    }
  }

  lemma {:induction false} FixedPrepend(v: nat, d: nat)
    ensures Fixed(v, d + 1) == [48 + Shift(v, d) % 10] + Fixed(v, d)
  {
    if d > 0 {
      FixedPrepend(v / 10, d - 1);
    } else {
      assert Fixed(v / 10, 0) == [];
    }
  }

  /** 39 digits hold every u128. */
  lemma Pow39()
    ensures U128_RANGE <= Pow10(39)
  {
    assert Pow10(9) == 10_0000_0000;
    Pow10Sum(9, 9);
    Pow10Sum(18, 9);
    Pow10Sum(27, 9);
    assert Pow10(39) == 1000 * Pow10(36);
  }

  lemma {:induction false} Pow10Sum(a: nat, b: nat)
    ensures Pow10(a + b) == Pow10(a) * Pow10(b)
  {
    if b > 0 {
      Pow10Sum(a, b - 1);
    }
  }

  /** `write_u128_fixed(&mut buf[from..from + width], val)`: digits into a
      scratch array from the right, then cut or padded to the width. */
  method WriteU128Fixed(buf: array<Byte>, from: nat, width: nat, val: nat)
    requires val < U128_RANGE && from + width <= buf.Length
    modifies buf
    ensures buf[from..from + width] == Fixed(val, width)
    ensures buf[..from] == old(buf[..from]) && buf[from + width..] == old(buf[from + width..])
  {
    hide Pow10, Fixed;
    var tmp, pos := DigitsOf(val);
    var dlen := 39 - pos;
    if dlen >= width {
      FixedSuffix(val, width, dlen);
      CopyInto(buf, from, tmp[39 - width..]);
      assert tmp[39 - width..] == tmp[pos..][dlen - width..];
    } else {
      var pad := width - dlen;
      FixedPadding(val, dlen, width);
      CopyInto(buf, from, seq(pad, _ => 48));
      CopyInto(buf, from + pad, tmp[pos..]);
      assert buf[from..from + width] == buf[from..from + pad] + buf[from + pad..from + width];
    }
  }

  /** `copy_from_slice` into `buf[from..from + |s|]`. */
  method CopyInto(buf: array<Byte>, from: nat, s: seq<Byte>)
    requires from + |s| <= buf.Length
    modifies buf
    ensures buf[from..from + |s|] == s
    ensures forall k :: 0 <= k < from || from + |s| <= k < buf.Length ==> buf[k] == old(buf[k])
  {
    for i := 0 to |s|
      invariant buf[from..from + i] == s[..i]
      invariant forall k :: 0 <= k < from || from + i <= k < buf.Length ==> buf[k] == old(buf[k])
    {
      buf[from + i] := s[i];
    }
  }

  method DigitsOf(val: nat) returns (tmp: array<Byte>, pos: nat)
    requires val < U128_RANGE
    ensures fresh(tmp) && tmp.Length == 39 && pos < 39
    ensures tmp[pos..] == Fixed(val, 39 - pos) && val < Pow10(39 - pos)
  {
    hide Pow10, Shift, Fixed;
    tmp := new Byte[39](_ => 48);
    pos := 39;
    var v := val;
    Pow39();
    NoDigits(val);
    if v == 0 {
      pos := pos - 1;
      tmp[pos] := 48;
      FixedPrepend(val, 0);
      ShiftOne(val, 1);
      ShiftOne(val, 0);
    } else {
      while v > 0
        invariant pos <= 39 && v < Pow10(pos) && v == Shift(val, 39 - pos) && (pos == 39 ==> v > 0)
        invariant tmp[pos..] == Fixed(val, 39 - pos)
      {
        FixedPrepend(val, 39 - pos);
        ShiftOne(val, 39 - pos);
        PowStep(v, pos);
        ghost var done := tmp[pos..];
        pos := pos - 1;
        tmp[pos] := 48 + v % 10;
        assert tmp[pos..] == [48 + v % 10] + done;
        v := v / 10;
      }
      ShiftOne(val, 39 - pos);
    }
  }

  lemma NoDigits(v: nat)
    ensures Fixed(v, 0) == [] && Shift(v, 0) == v
  {
  }

  lemma PowStep(v: nat, p: nat)
    requires 0 < v < Pow10(p)
    ensures p > 0 && v / 10 < Pow10(p - 1)
  {
  }

  /** What the parsers return: nothing for an empty or non-decimal field, else
      its value in the machine width. */
  function Parsed(bytes: seq<Byte>, range: nat): Option<nat>
    requires range > 0
  {
    if bytes != [] && Digits(bytes) then Some(Value(bytes) % range) else None
  }

  lemma WrapStep(v: nat, d: nat, range: nat)
    requires range > 0
    ensures (v % range * 10 % range + d) % range == (10 * v + d) % range
  {
    var r := v % range;
    assert v == range * (v / range) + r;
    ModShift(10 * v + d, 10 * r + d, 10 * (v / range), range);
    ModShift(10 * r + d, r * 10 % range + d, r * 10 / range, range);
  }

  lemma ModShift(a: nat, b: nat, q: nat, m: nat)
    requires m > 0 && a == m * q + b
    ensures a % m == b % m
  {
    assert b == m * (b / m) + b % m;
    assert a == m * (q + b / m) + b % m;
    QuotientAndRemainder(a, m, q + b / m, b % m);
  }

  /** The loop both parsers run, at their own width. */
  method ParseDecimal(bytes: seq<Byte>, range: nat) returns (r: Option<nat>)
    requires range > 0
    ensures r == Parsed(bytes, range)
  {
    if bytes == [] {
      return None;
    }
    var val: nat := 0;
    for i := 0 to |bytes|
      invariant Digits(bytes[..i]) && val == Value(bytes[..i]) % range
    {
      var b := bytes[i];
      if b < 48 || b > 57 {
        return None;
      }
      assert bytes[..i + 1][..i] == bytes[..i];
      WrapStep(Value(bytes[..i]), b - 48, range);
      val := (val * 10 % range + (b - 48)) % range;
    }
    assert bytes[..|bytes|] == bytes;
    return Some(val);
  }

  method ParseDecimalU64(bytes: seq<Byte>) returns (r: Option<nat>)
    ensures r == Parsed(bytes, U64_RANGE)
  {
    r := ParseDecimal(bytes, U64_RANGE);
  }

  method ParseDecimalU128(bytes: seq<Byte>) returns (r: Option<nat>)
    ensures r == Parsed(bytes, U128_RANGE)
  {
    r := ParseDecimal(bytes, U128_RANGE);
  }

  /** Codec round trip: printing then parsing gives the number modulo the field
      width, so exactly the numbers that fit come back unchanged. */
  lemma FixedRoundTrip(v: nat, width: nat, range: nat)
    requires width > 0 && Pow10(width) <= range
    ensures Parsed(Fixed(v, width), range) == Some(v % Pow10(width))
    ensures Parsed(Fixed(v, width), range) == Some(v) <==> v < Pow10(width)
  {
    FixedValue(v, width);
    var r := v % Pow10(width);
    QuotientAndRemainder(r, range, 0, r);
    if v < Pow10(width) {
      QuotientAndRemainder(v, Pow10(width), 0, v);
    }
  }
}
