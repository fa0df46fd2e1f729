/** The Internet checksum: its definition (RFC 1071), the way the kernel
    programs compute it from host-order words, and incremental update
    (RFC 1624).  All of it is arithmetic modulo 65535, where swapping the two
    bytes of a word is multiplication by 256. */
module Checksum {
  import opened Words

  function Residue(a: int): int {
    a % 0xFFFF
  }

  predicate Cong(a: int, b: int) {
    Residue(a) == Residue(b)
  }

  lemma CongMultiple(a: int, b: int, k: int)
    requires a == b + 0xFFFF * k
    ensures Cong(a, b)
  {
  }

  lemma CongAdd(a: int, b: int, c: int)
    requires Cong(a, b)
    ensures Cong(a + c, b + c)
  {
  }

  lemma CongScale(a: int, b: int)
    requires Cong(a, b)
    ensures Cong(0x100 * a, 0x100 * b)
  {
    CongMultiple(0x100 * a, 0x100 * b, 0x100 * (a / 0xFFFF - b / 0xFFFF));
  }

  /** 65535 and 0 are the only two 16-bit values in one residue class. */
  lemma CongUnique(a: nat, b: nat)
    requires a <= 0xFFFF && b <= 0xFFFF && Cong(a, b)
    ensures a == b || (a == 0 && b == 0xFFFF) || (a == 0xFFFF && b == 0)
  {
  }

  // ---------------------------------------------------------------- RFC 1071

  /** One's-complement addition: the carry out of the top goes back in. */
  function OnesAdd(a: U16, b: U16): U16 {
    if a + b > 0xFFFF then a + b - 0xFFFF else a + b
  }

  /** One's-complement sum of the big-endian words, an odd tail zero-padded. */
  function OnesSum(s: seq<Byte>): U16 {
    if |s| == 0 then 0
    else if |s| == 1 then OnesAdd(0x100 * s[0] as int, 0)
    else OnesAdd(Be16(s, 0), OnesSum(s[2..]))
  }

  /** RFC 1071 section 1: a receiver accepts when the sum over the covered
      bytes, checksum included, is all ones. */
  predicate Accepts(s: seq<Byte>) {
    OnesSum(s) == 0xFFFF
  }

  /** Byte swap is multiplication by 256, summed over the whole buffer. */
  lemma {:induction false} OnesSumCong(s: seq<Byte>)
    ensures Cong(OnesSum(s), 0x100 * LeSum(s))
    ensures OnesSum(s) == 0 <==> LeSum(s) == 0
  {
    if |s| >= 2 {
      var w: int, t: int, x: int := Be16(s, 0), OnesSum(s[2..]), 0x100 * LeSum(s[2..]);
      OnesSumCong(s[2..]);
      CongMultiple(OnesAdd(w, t), w + t, if w + t > 0xFFFF then -1 else 0);
      CongAdd(t, x, w);
      CongMultiple(x + 0x100 * Le16(s, 0), x + w, s[1]);
    }
  }

  /** The receiver's big-endian verdict, read off the host-order sum. */
  lemma AcceptsIff(s: seq<Byte>)
    ensures Accepts(s) <==> LeSum(s) > 0 && Cong(LeSum(s), 0)
  {
    OnesSumCong(s);
    SwapKeepsZero(OnesSum(s), LeSum(s));
    if LeSum(s) > 0 && Cong(LeSum(s), 0) {
      CongUnique(OnesSum(s), 0);
    }
  }

  /** 256 is its own inverse: 256 * 256 = 65535 + 1. */
  lemma SwapKeepsZero(o: int, x: int)
    requires Cong(o, 0x100 * x)
    ensures Cong(o, 0) <==> Cong(x, 0)
  {
    if Cong(x, 0) {
      CongScale(x, 0);
    }
    CongScale(o, 0x100 * x);
    CongMultiple(0x1_0000 * x, x, x);
    if Cong(o, 0) {
      CongScale(o, 0);
    }
  }

  // ------------------------------------------------- the kernel's computation

  function Fold(x: nat): nat {
    x % 0x1_0000 + x / 0x1_0000
  }

  /** Two folds and a complement, kept in a 16-bit result. */
  function Finish(csum: U32): U16 {
    0xFFFF - Fold(Fold(csum)) % 0x1_0000
  }

  lemma FoldCong(x: nat)
    ensures Cong(Fold(x), x)
  {
    var q: int := x / 0x1_0000;
    CongMultiple(Fold(x), x, -q);
  }

  lemma FoldRange(x: U32)
    ensures Fold(x) <= 0x1_FFFE
    ensures Fold(Fold(x)) <= 0xFFFF
    ensures Fold(Fold(x)) == 0 <==> x == 0
  {
    FoldBelow(Fold(x));
  }

  lemma FoldBelow(y: nat)
    requires y <= 0x1_FFFE
    ensures Fold(y) <= 0xFFFF && (Fold(y) == 0 <==> y == 0)
  {
  }

  /** Two folds always suffice for a 32-bit accumulator, and they keep the
      residue without ever turning a non-zero sum into zero: the stored word
      completes the sum to a multiple of 65535 and is all ones for 0 alone. */
  lemma FinishCong(x: U32)
    ensures Finish(x) == 0xFFFF - Fold(Fold(x))
    ensures Cong(Fold(Fold(x)), x)
    ensures Cong(x + Finish(x), 0)
    ensures x > 0 <==> Finish(x) != 0xFFFF
  {
    assert Cong(0xFFFF, 0);
    hide Residue;
    FoldRange(x);
    FoldCong(x);
    FoldCong(Fold(x));
    CongAdd(Fold(Fold(x)), x, Finish(x));
  }

  lemma SwapCong(h: U16)
    ensures Cong(Swap16(h), 0x100 * h as int)
    ensures Swap16(0xFFFF - h) == 0xFFFF - Swap16(h)
    ensures Swap16(h) == 0 <==> h == 0
  {
    var q: int := h / 0x100;
    CongMultiple(Swap16(h), 0x100 * h as int, -q);
    assert (0xFFFF - h) / 0x100 == 0xFF - h / 0x100;
  }

  /** RFC 1071 section 2(B): summing host-order words and storing the result
      in host order leaves the same two bytes in memory as the big-endian
      definition does. */
  lemma ByteOrderIndependence(s: seq<Byte>)
    requires LeSum(s) < 0x1_0000_0000
    ensures Swap16(Finish(LeSum(s))) == 0xFFFF - OnesSum(s)
  {
    var h := Fold(Fold(LeSum(s)));
    FinishCong(LeSum(s));
    OnesSumCong(s);
    SwapCong(h);
    CongScale(h, LeSum(s));
    CongUnique(Swap16(h), OnesSum(s));
  }

  /** Zero the checksum word, sum, finish, store: the receiver accepts. */
  lemma RecomputeAccepts(s: seq<Byte>, off: nat)
    requires off + 1 < |s| && off % 2 == 0
    requires Le16(s, off) == 0 && LeSum(s) < 0x1_0000_0000
    ensures Accepts(Put16(s, off, Finish(LeSum(s))))
  {
    var x := LeSum(s);
    var t := Put16(s, off, Finish(x));
    FinishCong(x);
    PutStores(s, off, Finish(x));
    LeSumStored(s, t, 0, |s|, off, Finish(x));
    assert s[0..|s|] == s && t[0..|s|] == t;
    AcceptsIff(t);
  }

  // ---------------------------------------------------------------- RFC 1624

  /** Eqn. 3 of RFC 1624 section 3: HC' = ~(~HC + ~m + m'). */
  function Eqn3(hc: U16, m: U16, m': U16): U16 {
    0xFFFF - OnesAdd(OnesAdd(0xFFFF - hc, 0xFFFF - m), m')
  }

  /** The four-byte form of the helpers: both halves in turn. */
  function Eqn3Wide(hc: U16, lo: U16, hi: U16, lo': U16, hi': U16): U16 {
    Eqn3(Eqn3(hc, lo, lo'), hi, hi')
  }

  lemma Eqn3Cong(hc: U16, m: U16, m': U16)
    ensures Cong(Eqn3(hc, m, m') + m', hc + m)
    ensures Eqn3(hc, m, m') == 0xFFFF <==> hc == 0xFFFF && m == 0xFFFF && m' == 0
  {
    var a := OnesAdd(0xFFFF - hc, 0xFFFF - m);
    CongMultiple(Eqn3(hc, m, m') + m', hc + m,
      (if a + m' > 0xFFFF then 1 else 0) + (if 0xFFFF - hc + (0xFFFF - m) > 0xFFFF then 1 else 0) - 1);
  }

  lemma Eqn3WideCong(hc: U16, lo: U16, hi: U16, lo': U16, hi': U16)
    ensures Cong(Eqn3Wide(hc, lo, hi, lo', hi') + lo' + hi', hc + lo + hi)
    ensures Eqn3Wide(hc, lo, hi, lo', hi') == 0xFFFF
            <==> hc == 0xFFFF && lo == hi == 0xFFFF && lo' == hi' == 0
  {
    hide Residue, Eqn3;
    var h := Eqn3(hc, lo, lo');
    Eqn3Cong(hc, lo, lo');
    Eqn3Cong(h, hi, hi');
    CongAdd(Eqn3(h, hi, hi') + hi', h + hi, lo');
    CongAdd(h + lo', hc + lo, hi);
  }
}
