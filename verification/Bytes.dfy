/** Bytes, fixed-width integers and the big-endian integer codec that every
    fixed-layout format of the chunk data plane is built from. */
module Bytes {

  type u8 = x: int | 0 <= x < 0x100
  type u32 = x: int | 0 <= x < 0x1_0000_0000
  type i32 = x: int | -0x8000_0000 <= x < 0x8000_0000
  type u64 = x: int | 0 <= x < 0x1_0000_0000_0000_0000

  const U64_MAX: u64 := 0xFFFF_FFFF_FFFF_FFFF

  type Bytes16 = s: seq<u8> | |s| == 16 witness seq(16, _ => 0)
  type Bytes32 = s: seq<u8> | |s| == 32 witness seq(32, _ => 0)
  type Bytes64 = s: seq<u8> | |s| == 64 witness seq(64, _ => 0)

  const ZERO16: Bytes16 := [0, 0, 0, 0, 0, 0, 0, 0, 0, 0, 0, 0, 0, 0, 0, 0]
  const ZERO32: Bytes32 := ZERO16 + ZERO16
  const ONES16: Bytes16 := [1, 1, 1, 1, 1, 1, 1, 1, 1, 1, 1, 1, 1, 1, 1, 1]
  const ONES32: Bytes32 := ONES16 + ONES16

  datatype Option<+T> = None | Some(value: T)

  /** `bytes_are_nonzero`: some byte is set. */
  predicate Nonzero(s: seq<u8>) {
    exists i :: 0 <= i < |s| && s[i] != 0
  }

  /** No byte is set exactly in the all-zero sequence of that length. */
  lemma NonzeroIff(s: seq<u8>)
    ensures Nonzero(s) <==> s != seq(|s|, _ => 0)
    ensures |s| == 16 ==> (Nonzero(s) <==> s != [0, 0, 0, 0, 0, 0, 0, 0, 0, 0, 0, 0, 0, 0, 0, 0])
  {
    var zeros: seq<u8> := seq(|s|, _ => 0);
    if !Nonzero(s) {
      assert forall i :: 0 <= i < |s| ==> s[i] == zeros[i];
      assert s == zeros;
    }
  }

  /** The bytes of an ASCII literal. */
  function Ascii(s: string): (b: seq<u8>)
    ensures |b| == |s|
  {
    seq(|s|, i requires 0 <= i < |s| => s[i] as int % 256)
  }

  /** Equal concatenations of equally long heads have equal parts. */
  lemma SplitEqual(x: seq<u8>, x': seq<u8>, y: seq<u8>, y': seq<u8>)
    requires |x| == |x'| && x + y == x' + y'
    ensures x == x' && y == y'
  {
    assert x == (x + y)[..|x|] && x' == (x' + y')[..|x|];
    assert y == (x + y)[|x|..] && y' == (x' + y')[|x|..];
  }

  // ---- two's complement ----

  /** The C cast `(uint32_t)v` of a signed 32-bit value. */
  function ToU32(v: i32): u32 {
    if v < 0 then v + 0x1_0000_0000 else v
  }

  /** The C cast `(int32_t)v`. */
  function ToI32(v: u32): i32 {
    if v >= 0x8000_0000 then v - 0x1_0000_0000 else v
  }

  // ---- big-endian integers ----

  function Pow256(n: nat): (p: nat)
    ensures p > 0
  {
    if n == 0 then 1 else 256 * Pow256(n - 1)
  }

  /** The low `n` bytes of `v`, most significant first. */
  function BE(v: nat, n: nat): (s: seq<u8>)
    ensures |s| == n
  {
    if n == 0 then [] else BE(v / 256, n - 1) + [v % 256]
  }

  function FromBE(s: seq<u8>): (v: nat) {
    if s == [] then 0 else FromBE(s[..|s| - 1]) * 256 + s[|s| - 1]
  }

  lemma PowersOf256()
    ensures Pow256(1) == 0x100
    ensures Pow256(2) == 0x1_0000
    ensures Pow256(4) == 0x1_0000_0000
    ensures Pow256(8) == 0x1_0000_0000_0000_0000
  {
    assert Pow256(2) == 256 * Pow256(1);
    assert Pow256(3) == 256 * Pow256(2);
    assert Pow256(4) == 256 * Pow256(3);
    assert Pow256(5) == 256 * Pow256(4);
    assert Pow256(6) == 256 * Pow256(5);
    assert Pow256(7) == 256 * Pow256(6);
  }

  /** Reading back a big-endian write restores every value that fits. */
  lemma {:induction false} BERoundTrip(v: nat, n: nat)
    requires v < Pow256(n)
    ensures FromBE(BE(v, n)) == v
  {
    if n == 0 {
    } else {
      BERoundTrip(v / 256, n - 1);
      assert BE(v, n)[..n - 1] == BE(v / 256, n - 1);
    }
  }

  /** Different values of one width never share an encoding. */
  lemma BEInjective(v: nat, w: nat, n: nat)
    requires v < Pow256(n) && w < Pow256(n) && BE(v, n) == BE(w, n)
    ensures v == w
  {
    BERoundTrip(v, n);
    BERoundTrip(w, n);
  }

  /** Re-writing a big-endian read restores the bytes, and the value fits. */
  lemma {:induction false} FromBERoundTrip(s: seq<u8>)
    ensures FromBE(s) < Pow256(|s|)
    ensures BE(FromBE(s), |s|) == s
  {
    if s == [] {
    } else {
      var init, last := s[..|s| - 1], s[|s| - 1];
      FromBERoundTrip(init);
      assert FromBE(s) / 256 == FromBE(init) && FromBE(s) % 256 == last;
      assert s == init + [last];
    }
  }

  function ReadU32(s: seq<u8>): (v: u32)
    requires |s| == 4
    ensures BE(v, 4) == s
  {
    FromBERoundTrip(s);
    PowersOf256();
    FromBE(s)
  }

  function ReadU64(s: seq<u8>): (v: u64)
    requires |s| == 8
    ensures BE(v, 8) == s
  {
    FromBERoundTrip(s);
    PowersOf256();
    FromBE(s)
  }

  lemma ReadWriteU32(v: u32)
    ensures ReadU32(BE(v, 4)) == v
  {
    PowersOf256();
    BERoundTrip(v, 4);
  }

  lemma ReadWriteU64(v: u64)
    ensures ReadU64(BE(v, 8)) == v
  {
    PowersOf256();
    BERoundTrip(v, 8);
  }

  /** `v >> (8 * k)`. */
  function Shifted(v: nat, k: nat): nat {
    if k == 0 then v else Shifted(v / 256, k - 1)
  }

  /** The byte that the shift-and-truncate loop stores at position `i`. */
  lemma {:induction false} BEAt(v: nat, n: nat, i: nat)
    requires i < n
    ensures BE(v, n)[i] == Shifted(v, n - 1 - i) % 256
  {
    if i == n - 1 {
    } else {
      BEAt(v / 256, n - 1, i);
    }
  }

  /** `write_u16`, `write_u32` and `write_u64`: shift and truncate, byte by
      byte, into a window of a larger buffer. */
  method WriteBE(buf: array<u8>, off: nat, value: nat, n: nat)
    requires off + n <= buf.Length
    modifies buf
    ensures forall k :: 0 <= k < buf.Length ==>
      buf[k] == if off <= k < off + n then BE(value, n)[k - off] else old(buf[k])
  {
    for i := 0 to n
      invariant forall k :: 0 <= k < buf.Length ==>
        buf[k] == if off <= k < off + i then BE(value, n)[k - off] else old(buf[k])
    {
      BEAt(value, n, i);
      buf[off + i] := Shifted(value, n - 1 - i) % 256;
    }
  }

  /** `read_u16`, `read_u32` and `read_u64`: accumulate left to right. */
  method ReadBE(s: seq<u8>) returns (value: nat)
    ensures value == FromBE(s) && BE(value, |s|) == s
  {
    value := 0;
    for i := 0 to |s|
      invariant value == FromBE(s[..i])
    {
      assert s[..i + 1][..i] == s[..i];
      value := value * 256 + s[i];
    }
    assert s[..|s|] == s;
    FromBERoundTrip(s);
  }

  /** `memcpy` of a whole source into a window of a buffer. */
  method CopyInto(buf: array<u8>, off: nat, src: seq<u8>)
    requires off + |src| <= buf.Length
    modifies buf
    ensures forall k :: 0 <= k < buf.Length ==>
      buf[k] == if off <= k < off + |src| then src[k - off] else old(buf[k])
  {
    for i := 0 to |src|
      invariant forall k :: 0 <= k < buf.Length ==>
        buf[k] == if off <= k < off + i then src[k - off] else old(buf[k])
    {
      buf[off + i] := src[i];
    }
  }
}
