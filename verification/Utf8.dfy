/** Bytes to text and back as `String::from_utf8_lossy` and `as_bytes` do it:
    well-formed sequences (The Unicode Standard, section 3.9, table 3-7) become
    scalar values, every maximal ill-formed piece becomes U+FFFD. */
module Utf8 {
  import opened Words

  type Scalar = c: int | 0 <= c < 0xD800 || 0xE000 <= c < 0x11_0000

  type Text = seq<Scalar>

  const REPLACEMENT: Scalar := 0xFFFD
  const REPLACEMENT_BYTES: seq<Byte> := [0xEF, 0xBF, 0xBD]

  /** What the front of a buffer holds: a scalar value, or a piece to replace. */
  datatype Lead = Good(scalar: Scalar, len: nat) | Bad(len: nat)

  predicate In(b: seq<Byte>, i: nat, lo: int, hi: int) {
    i < |b| && lo <= b[i] <= hi
  }

  predicate Tail(b: seq<Byte>, i: nat) {
    In(b, i, 0x80, 0xBF)
  }

  function LeadOf(b: seq<Byte>): (r: Lead)
    requires b != []
    ensures 1 <= r.len <= |b|
  {
    var x: int := b[0];
    if x < 0x80 then Good(x, 1)
    else if 0xC2 <= x <= 0xDF then
      if Tail(b, 1) then Good(0x40 * (x - 0xC0) + (b[1] as int - 0x80), 2) else Bad(1)
    else if 0xE0 <= x <= 0xEF then
      if !In(b, 1, if x == 0xE0 then 0xA0 else 0x80, if x == 0xED then 0x9F else 0xBF) then Bad(1)
      else if !Tail(b, 2) then Bad(2)
      else Good(0x1000 * (x - 0xE0) + 0x40 * (b[1] as int - 0x80) + (b[2] as int - 0x80), 3)
    else if 0xF0 <= x <= 0xF4 then
      if !In(b, 1, if x == 0xF0 then 0x90 else 0x80, if x == 0xF4 then 0x8F else 0xBF) then Bad(1)
      else if !Tail(b, 2) then Bad(2)
      else if !Tail(b, 3) then Bad(3)
      else Good(0x4_0000 * (x - 0xF0) + 0x1000 * (b[1] as int - 0x80) + 0x40 * (b[2] as int - 0x80) + (b[3] as int - 0x80), 4)
    else Bad(1)
  }

  function ScalarBytes(c: Scalar): (r: seq<Byte>)
    ensures 1 <= |r| <= 4
  {
    var x: int := c;
    if x < 0x80 then [x]
    else if x < 0x800 then [0xC0 + x / 0x40, 0x80 + x % 0x40]
    else if x < 0x1_0000 then [0xE0 + x / 0x1000, 0x80 + x / 0x40 % 0x40, 0x80 + x % 0x40]
    else [0xF0 + x / 0x4_0000, 0x80 + x / 0x1000 % 0x40, 0x80 + x / 0x40 % 0x40, 0x80 + x % 0x40]
  }

  function Decode(b: seq<Byte>): Text {
    if b == [] then []
    else match LeadOf(b)
      case Good(c, n) => [c] + Decode(b[n..])
      case Bad(n) => [REPLACEMENT] + Decode(b[n..])
  }

  function Encode(t: Text): seq<Byte> {
    if t == [] then [] else ScalarBytes(t[0]) + Encode(t[1..])
  }

  predicate WellFormed(b: seq<Byte>) {
    b == [] || (LeadOf(b).Good? && WellFormed(b[LeadOf(b).len..]))
  }

  // ------------------------------------------------------- one scalar value

  lemma Digit(q: nat, r: nat)
    requires r < 0x40
    ensures (0x40 * q + r) / 0x40 == q && (0x40 * q + r) % 0x40 == r
  {
  }

  lemma ThreeDigits(h: nat, m: nat, l: nat)
    requires m < 0x40 && l < 0x40
    ensures var x := 0x1000 * h + 0x40 * m + l; x / 0x1000 == h && x / 0x40 % 0x40 == m && x % 0x40 == l
  {
    Digit(0x40 * h + m, l);
    Digit(h, m);
  }

  lemma FourDigits(h: nat, m: nat, n: nat, l: nat)
    requires m < 0x40 && n < 0x40 && l < 0x40
    ensures var x := 0x4_0000 * h + 0x1000 * m + 0x40 * n + l;
            x / 0x4_0000 == h && x / 0x1000 % 0x40 == m && x / 0x40 % 0x40 == n && x % 0x40 == l
  {
    ThreeDigits(0x40 * h + m, n, l);
    Digit(h, m);
  }

  lemma GoodIsEncoded(b: seq<Byte>)
    requires b != [] && LeadOf(b).Good?
    ensures b[..LeadOf(b).len] == ScalarBytes(LeadOf(b).scalar)
  {
    if b[0] >= 0xF0 {
      GoodFour(b);
    } else if b[0] >= 0xE0 {
      ThreeDigits(b[0] - 0xE0, b[1] - 0x80, b[2] - 0x80);
      assert b[..3] == [b[0], b[1], b[2]];
    } else if b[0] >= 0x80 {
      Digit(b[0] - 0xC0, b[1] - 0x80);
      assert b[..2] == [b[0], b[1]];
    }
  }

  lemma GoodFour(b: seq<Byte>)
    requires b != [] && LeadOf(b).Good? && b[0] >= 0xF0
    ensures b[..LeadOf(b).len] == ScalarBytes(LeadOf(b).scalar)
  {
    FourDigits(b[0] - 0xF0, b[1] - 0x80, b[2] - 0x80, b[3] - 0x80);
    assert b[..4] == [b[0], b[1], b[2], b[3]];
  }

  lemma EncodedIsGood(c: Scalar, rest: seq<Byte>)
    ensures LeadOf(ScalarBytes(c) + rest) == Good(c, |ScalarBytes(c)|)
  {
    var x: int, b := c, ScalarBytes(c) + rest;
    assert forall k :: 0 <= k < |ScalarBytes(c)| ==> b[k] == ScalarBytes(c)[k];
    if x >= 0x1_0000 {
      Digits64(x);
    } else if x >= 0x800 {
      Digits64(x);
    }
  }

  lemma Digits64(x: nat)
    ensures x == 0x40 * (x / 0x40) + x % 0x40
    ensures x / 0x40 == 0x40 * (x / 0x1000) + x / 0x40 % 0x40
    ensures x / 0x1000 == 0x40 * (x / 0x4_0000) + x / 0x1000 % 0x40
  {
  }

  /** A buffer cut inside a scalar value is one piece to replace; cut behind it,
      it reads the same. */
  lemma CutLead(b: seq<Byte>, n: nat)
    requires b != [] && LeadOf(b).Good? && 0 < n <= |b|
    ensures n >= LeadOf(b).len ==> LeadOf(b[..n]) == LeadOf(b)
    ensures n < LeadOf(b).len ==> LeadOf(b[..n]) == Bad(n)
  {
  }

  // ------------------------------------------------------------ round trips

  lemma {:induction false} DecodeOfEncode(t: Text)
    ensures Decode(Encode(t)) == t && WellFormed(Encode(t))
  {
    if t != [] {
      EncodedIsGood(t[0], Encode(t[1..]));
      assert Encode(t)[|ScalarBytes(t[0])|..] == Encode(t[1..]);
      DecodeOfEncode(t[1..]);
    }
  }

  /** Decoding and encoding again is the identity exactly on well-formed input:
      a replacement is never what it replaces. */
  lemma EncodeOfDecodeIff(b: seq<Byte>)
    ensures Encode(Decode(b)) == b <==> WellFormed(b)
  {
    DecodeOfEncode(Decode(b));
    if WellFormed(b) {
      WellFormedIsEncoded(b);
    }
  }

  lemma {:induction false} WellFormedIsEncoded(b: seq<Byte>)
    requires WellFormed(b)
    ensures Encode(Decode(b)) == b
  {
    if b != [] {
      var n := LeadOf(b).len;
      GoodIsEncoded(b);
      hide LeadOf, ScalarBytes;
      WellFormedIsEncoded(b[n..]);
      assert Decode(b)[1..] == Decode(b[n..]);
      assert b == b[..n] + b[n..];
    }
  }

  lemma {:induction false} AsciiFirst(a: seq<Byte>, b: seq<Byte>)
    requires forall i :: 0 <= i < |a| ==> a[i] < 0x80
    ensures Decode(a + b) == a + Decode(b)
  {
    if a == [] {
      assert a + b == b;
    } else {
      assert (a + b)[1..] == a[1..] + b;
      AsciiFirst(a[1..], b);
    }
  }

  // ---------------------------------------------------------- cut buffers

  /** The last character is U+FFFD itself and the cut goes through it. */
  predicate CutThroughReplacement(b: seq<Byte>, n: nat) {
    |b| >= 3 && b[|b| - 3..] == REPLACEMENT_BYTES && |b| - 3 < n < |b|
  }

  lemma {:induction false} CutDecodesShorter(b: seq<Byte>, n: nat)
    requires WellFormed(b) && n <= |b|
    ensures |Decode(b[..n])| <= |Decode(b)|
  {
    if n > 0 {
      var k := LeadOf(b).len;
      CutLead(b, n);
      hide LeadOf;
      if n >= k {
        CutShift(b, n, k);
        CutDecodesShorter(b[k..], n - k);
      } else {
        assert b[..n][n..] == [];
      }
    }
  }

  /** Of a well-formed buffer cut at `n`, decoding and encoding gives the whole
      back in one case besides the obvious: the cut character was U+FFFD. */
  lemma {:induction false} CutRestoredIff(b: seq<Byte>, n: nat)
    requires WellFormed(b) && n <= |b|
    ensures Encode(Decode(b[..n])) == b <==> n == |b| || CutThroughReplacement(b, n)
  {
    if n == |b| {
      assert b[..n] == b;
      EncodeOfDecodeIff(b);
    } else if n > 0 {
      var k := LeadOf(b).len;
      CutLead(b, n);
      hide LeadOf, ScalarBytes, CutThroughReplacement;
      if n >= k {
        CutShift(b, n, k);
        CutRestoredIff(b[k..], n - k);
        GoodIsEncoded(b);
        SameFront(b, k, Encode(Decode(b[k..][..n - k])));
        CutBehind(b, n);
      } else {
        assert b[..n][n..] == [];
        ReplacementEncodes();
        CutInside(b, n);
      }
    }
  }

  lemma CutShift(b: seq<Byte>, n: nat, k: nat)
    requires k <= n <= |b|
    ensures b[..n][k..] == b[k..][..n - k]
  {
  }

  lemma ReplacementEncodes()
    ensures Encode([REPLACEMENT]) == REPLACEMENT_BYTES
  {
    assert [REPLACEMENT][1..] == [];
  }

  lemma SameFront(b: seq<Byte>, k: nat, r: seq<Byte>)
    requires k <= |b|
    ensures b[..k] + r == b <==> r == b[k..]
  {
    assert b == b[..k] + b[k..];
    if b[..k] + r == b {
      assert r == (b[..k] + r)[k..];
    }
  }

  lemma CutBehind(b: seq<Byte>, n: nat)
    requires b != [] && LeadOf(b).Good? && LeadOf(b).len <= n < |b|
    ensures CutThroughReplacement(b[LeadOf(b).len..], n - LeadOf(b).len) <==> CutThroughReplacement(b, n)
  {
    var k := LeadOf(b).len;
    if |b| >= 3 && |b| - 3 < k {
      assert b[|b| - 3] == b[|b| - 3..][0];
    } else if |b| >= 3 {
      assert b[k..][|b| - k - 3..] == b[|b| - 3..];
    }
  }

  lemma CutInside(b: seq<Byte>, n: nat)
    requires b != [] && LeadOf(b).Good? && 0 < n < LeadOf(b).len
    ensures REPLACEMENT_BYTES == b <==> CutThroughReplacement(b, n)
  {
    if CutThroughReplacement(b, n) {
      assert b[|b| - 3] == b[|b| - 3..][0];
    }
  }

  // -------------------------------------------------- ill-formed pieces

  /** The first `n` bytes begin some scalar value's encoding. */
  predicate Begins(b: seq<Byte>, c: Scalar) {
    b <= ScalarBytes(c)
  }

  ghost predicate BeginsNothing(b: seq<Byte>) {
    forall c: Scalar :: !Begins(b, c)
  }

  /** Some scalar value a truncated piece could have become. */
  function Completed(b: seq<Byte>): Scalar
    requires b != []
  {
    var fill := b + [0x80, 0x80, 0x80];
    if LeadOf(fill).Good? then LeadOf(fill).scalar else REPLACEMENT
  }

  /** What is replaced at an ill-formed position is the maximal subpart (The
      Unicode Standard, section 3.9): one byte, or a proper beginning of some
      encoding, and with the next byte no beginning of any. */
  lemma PieceIsMaximal(b: seq<Byte>)
    requires b != [] && LeadOf(b).Bad?
    ensures var n := LeadOf(b).len;
            && (n == 1 || Begins(b[..n], Completed(b[..n])))
            && (n < |b| ==> BeginsNothing(b[..n + 1]))
  {
    var n := LeadOf(b).len;
    if n > 1 {
      PieceBegins(b);
    }
    if n < |b| {
      PieceAlone(b);
      hide LeadOf, Begins;
      var longer := b[..n + 1];
      forall c: Scalar ensures !Begins(longer, c) {
        BeginningIs(longer, c);
      }
    }
  }

  lemma PieceBegins(b: seq<Byte>)
    requires b != [] && LeadOf(b).Bad? && LeadOf(b).len > 1
    ensures Begins(b[..LeadOf(b).len], Completed(b[..LeadOf(b).len]))
  {
    var n := LeadOf(b).len;
    var piece := b[..n];
    var fill := piece + [0x80, 0x80, 0x80];
    assert forall i :: 0 <= i < n ==> fill[i] == b[i];
    assert LeadOf(fill).Good? && LeadOf(fill).len > n;
    GoodIsEncoded(fill);
    hide LeadOf, ScalarBytes;
    assert piece == fill[..LeadOf(fill).len][..n];
  }

  lemma PieceAlone(b: seq<Byte>)
    requires b != [] && LeadOf(b).Bad? && LeadOf(b).len < |b|
    ensures LeadOf(b[..LeadOf(b).len + 1]) == LeadOf(b)
  {
  }

  lemma BeginningIs(b: seq<Byte>, c: Scalar)
    requires b != []
    ensures Begins(b, c) ==> LeadOf(b).Good? || LeadOf(b) == Bad(|b|)
  {
    var e := ScalarBytes(c);
    EncodedIsGood(c, []);
    assert e + [] == e;
    hide LeadOf, ScalarBytes;
    if Begins(b, c) {
      CutLead(e, |b|);
      assert e[..|b|] == b;
    }
  }

  /** Well-formed bytes decode on their own. */
  lemma WellFormedFirst(a: seq<Byte>, b: seq<Byte>)
    requires WellFormed(a)
    ensures Decode(a + b) == Decode(a) + Decode(b)
  {
    hide WellFormed, Decode, Encode;
    WellFormedIsEncoded(a);
    EncodedFirst(Decode(a), b);
  }

  lemma {:induction false} EncodedFirst(t: Text, b: seq<Byte>)
    ensures Decode(Encode(t) + b) == t + Decode(b)
  {
    hide Decode, LeadOf, ScalarBytes;
    if t == [] {
      assert Encode(t) + b == b;
    } else {
      var first, more := ScalarBytes(t[0]), Encode(t[1..]) + b;
      assert Encode(t) == first + Encode(t[1..]);
      hide Encode;
      assert Encode(t) + b == first + more;
      FrontDecodes(t[0], more);
      EncodedFirst(t[1..], b);
      assert t == [t[0]] + t[1..];
    }
  }

  lemma FrontDecodes(c: Scalar, more: seq<Byte>)
    ensures Decode(ScalarBytes(c) + more) == [c] + Decode(more)
  {
    EncodedIsGood(c, more);
    hide ScalarBytes;
    assert (ScalarBytes(c) + more)[|ScalarBytes(c)|..] == more;
  }

  /** A byte that no encoding begins with costs itself and nothing more. */
  lemma StrayByte(a: seq<Byte>, x: Byte, b: seq<Byte>)
    requires WellFormed(a) && (0x80 <= x < 0xC2 || x > 0xF4)
    ensures Decode(a + [x] + b) == Decode(a) + [REPLACEMENT] + Decode(b)
  {
    WellFormedFirst(a, [x] + b);
    assert a + ([x] + b) == a + [x] + b;
    assert ([x] + b)[1..] == b;
  }
}
