/** Fixed-width machine integers, bytes, and the little-endian view of memory
    that the kernel programs take of a network packet. */
module Words {
  type Byte = x: int | 0 <= x < 0x100
  type U16 = x: int | 0 <= x < 0x1_0000
  type U32 = x: int | 0 <= x < 0x1_0000_0000
  type U64 = x: int | 0 <= x < 0x1_0000_0000_0000_0000

  datatype Option<+T> = None | Some(value: T)

  /** The 16-bit load a little-endian host makes at `off`. */
  function Le16(s: seq<Byte>, off: nat): U16
    requires off + 1 < |s|
  {
    s[off] as int + 0x100 * s[off + 1] as int
  }

  function Le32(s: seq<Byte>, off: nat): U32
    requires off + 3 < |s|
  {
    Le16(s, off) + 0x1_0000 * Le16(s, off + 2)
  }

  /** The same two bytes read in network order, as `bpf_ntohs` reads them. */
  function Be16(s: seq<Byte>, off: nat): U16
    requires off + 1 < |s|
  {
    0x100 * s[off] as int + s[off + 1] as int
  }

  /** `htons` and `ntohs` on a little-endian host. */
  function Swap16(h: U16): U16 {
    0x100 * (h % 0x100) + h / 0x100
  }

  /** Network order is what swapping the host's load gives. */
  lemma SwapIsNetworkOrder(s: seq<Byte>, off: nat)
    requires off + 1 < |s|
    ensures Swap16(Le16(s, off)) == Be16(s, off)
  {
    var lo: int, hi: int := s[off], s[off + 1];
    assert (lo + 0x100 * hi) % 0x100 == lo && (lo + 0x100 * hi) / 0x100 == hi;
  }

  function Put16(s: seq<Byte>, off: nat, v: U16): (r: seq<Byte>)
    requires off + 1 < |s|
    ensures |r| == |s|
  {
    s[off := v % 0x100][off + 1 := v / 0x100]
  }

  function Put32(s: seq<Byte>, off: nat, v: U32): (r: seq<Byte>)
    requires off + 3 < |s|
    ensures |r| == |s|
  {
    Put16(Put16(s, off, v % 0x1_0000), off + 2, v / 0x1_0000)
  }

  /** `t` is `s` with the word `v` at `off`, and nothing else moved. */
  predicate Stored(s: seq<Byte>, t: seq<Byte>, off: nat, v: U16)
    requires off + 1 < |s|
  {
    && |t| == |s|
    && Le16(t, off) == v
    && forall k :: 0 <= k < |s| && k != off && k != off + 1 ==> t[k] == s[k]
  }

  /** Reading back what was stored. */
  lemma PutStores(s: seq<Byte>, off: nat, v: U16)
    requires off + 1 < |s|
    ensures Stored(s, Put16(s, off, v), off, v)
  {
    assert v == v % 0x100 + 0x100 * (v / 0x100);
  }

  lemma PutStores32(s: seq<Byte>, off: nat, v: U32)
    requires off + 3 < |s|
    ensures Le32(Put32(s, off, v), off) == v
    ensures forall k :: 0 <= k < |s| && !(off <= k < off + 4) ==> Put32(s, off, v)[k] == s[k]
  {
    var t := Put16(s, off, v % 0x1_0000);
    PutStores(s, off, v % 0x1_0000);
    PutStores(t, off + 2, v / 0x1_0000);
  }

  /** A 16-bit word determines its two bytes. */
  lemma SameWord(s: seq<Byte>, t: seq<Byte>, i: nat, j: nat)
    requires i + 1 < |s| && j + 1 < |t| && Le16(s, i) == Le16(t, j)
    ensures s[i] == t[j] && s[i + 1] == t[j + 1]
  {
  }

  /** Sum of the little-endian words of `s`; an odd last byte is the low half
      of a word whose high half is zero. */
  function LeSum(s: seq<Byte>): nat {
    if |s| == 0 then 0
    else if |s| == 1 then s[0]
    else Le16(s, 0) + LeSum(s[2..])
  }

  lemma {:induction false} LeSumConcat(a: seq<Byte>, b: seq<Byte>)
    requires |a| % 2 == 0
    ensures LeSum(a + b) == LeSum(a) + LeSum(b)
  {
    if |a| == 0 {
      assert a + b == b;
    } else {
      assert (a + b)[2..] == a[2..] + b;
      LeSumConcat(a[2..], b);
    }
  }

  lemma LeSumWord(s: seq<Byte>)
    requires |s| == 2
    ensures LeSum(s) == Le16(s, 0)
  {
    assert LeSum(s[2..]) == 0;
  }

  /** Appending the word at `i` to a running sum. */
  lemma LeSumStep(s: seq<Byte>, from: nat, i: nat)
    requires from <= i && i + 2 <= |s| && (i - from) % 2 == 0
    ensures LeSum(s[from..i + 2]) == LeSum(s[from..i]) + Le16(s, i)
  {
    assert s[from..i + 2] == s[from..i] + s[i..i + 2];
    LeSumConcat(s[from..i], s[i..i + 2]);
    LeSumWord(s[i..i + 2]);
  }

  lemma {:induction false} LeSumBound(s: seq<Byte>)
    ensures LeSum(s) <= (|s| + 1) / 2 * 0xFFFF
  {
    if |s| >= 2 {
      LeSumBound(s[2..]);
    }
  }

  lemma {:induction false} LeSumPositive(s: seq<Byte>, k: nat)
    requires k < |s| && s[k] > 0
    ensures LeSum(s) > 0
  {
    if k >= 2 {
      LeSumPositive(s[2..], k - 2);
    }
  }

  /** What one 16-bit store does to the sum of a window of the packet. */
  lemma LeSumStored(s: seq<Byte>, t: seq<Byte>, lo: nat, hi: nat, off: nat, v: U16)
    requires lo <= hi <= |s| && off + 1 < |s| && Stored(s, t, off, v)
    requires off + 2 <= lo || hi <= off || (lo <= off && off + 2 <= hi && (off - lo) % 2 == 0)
    ensures LeSum(t[lo..hi]) == LeSum(s[lo..hi]) + (if lo <= off < hi then v - Le16(s, off) else 0)
  {
    if lo <= off < hi {
      LeSumStep(s, lo, off);
      LeSumStep(t, lo, off);
      assert s[lo..off] == t[lo..off] && s[off + 2..hi] == t[off + 2..hi];
      assert s[lo..hi] == s[lo..off + 2] + s[off + 2..hi];
      assert t[lo..hi] == t[lo..off + 2] + t[off + 2..hi];
      LeSumConcat(s[lo..off + 2], s[off + 2..hi]);
      LeSumConcat(t[lo..off + 2], t[off + 2..hi]);
    } else {
      assert t[lo..hi] == s[lo..hi];
    }
  }
}
