/** Fixed-width field codec of the Cboe Binary Order Entry protocol:
    little-endian unsigned integers of 1, 2, 4 and 8 bytes, a signed
    64-bit integer in two's complement, and NUL-padded text fields.
    Decoders are pure reads at an offset of a byte sequence; encoders write
    through a moving position into a caller's buffer and return the
    position just past what they wrote. */
module Codec {
  import opened Arith

  type Byte = x: int | 0 <= x < 0x100
  type U16 = x: int | 0 <= x < 0x1_0000
  type U32 = x: int | 0 <= x < 0x1_0000_0000
  type U64 = x: int | 0 <= x < 0x1_0000_0000_0000_0000
  type I64 = x: int | -0x8000_0000_0000_0000 <= x < 0x8000_0000_0000_0000

  function Pow256(n: nat): (r: nat)
    ensures r > 0
  {
    if n == 0 then 1 else 256 * Pow256(n - 1)
  }

  /** The number whose little-endian base-256 digits are `s`: the reference
      reading every decoder is held to. */
  function Value(s: seq<Byte>): nat
  {
    if s == [] then 0 else s[0] + 256 * Value(s[1..])
  }

  /** The n low bytes of v, least significant first. For a negative v these
      are the bytes of its two's complement, since `%` and `/` by 256 here
      round towards minus infinity, as an arithmetic right shift does. */
  function LittleEndian(v: int, n: nat): (r: seq<Byte>)
    ensures |r| == n
    decreases n
  {
    if n == 0 then [] else [v % 256] + LittleEndian(v / 256, n - 1)
  }

  /** 256 to the powers the fixed-width fields use. */
  lemma Pows()
    ensures Pow256(1) == 0x100 && Pow256(2) == 0x1_0000 && Pow256(3) == 0x100_0000
    ensures Pow256(4) == 0x1_0000_0000 && Pow256(8) == 0x1_0000_0000_0000_0000
  {
    assert Pow256(2) == 0x1_0000;
    assert Pow256(4) == 0x1_0000_0000;
    assert Pow256(6) == 0x1_0000_0000_0000;
  }

  // ---------------------------------------------------------------------
  // Decoders

  function DecodeU8(s: seq<Byte>, i: nat): (r: Byte)
    requires i + 1 <= |s|
    ensures r == Value(s[i..i + 1])
  {
    assert s[i..i + 1][1..] == [];
    s[i]
  }

  /** The high byte shifted by 8 plus the low byte. */
  function DecodeU16(s: seq<Byte>, i: nat): (r: U16)
    requires i + 2 <= |s|
    ensures r == Value(s[i..i + 2])
  {
    var w := s[i..i + 2];
    ValueSplit(w, 1);
    Pows();
    assert w[..1] == s[i..i + 1] && w[1..] == s[i + 1..i + 2];
    DecodeU8(s, i + 1) * 0x100 + DecodeU8(s, i)
  }

  /** The high half shifted by 16 plus the low half. */
  function DecodeU32(s: seq<Byte>, i: nat): (r: U32)
    requires i + 4 <= |s|
    ensures r == Value(s[i..i + 4])
  {
    var w := s[i..i + 4];
    ValueSplit(w, 2);
    Pows();
    assert w[..2] == s[i..i + 2] && w[2..] == s[i + 2..i + 4];
    DecodeU16(s, i + 2) * 0x1_0000 + DecodeU16(s, i)
  }

  /** The high half shifted by 32 plus the low half. */
  function DecodeU64(s: seq<Byte>, i: nat): (r: U64)
    requires i + 8 <= |s|
    ensures r == Value(s[i..i + 8])
  {
    var w := s[i..i + 8];
    ValueSplit(w, 4);
    Pows();
    assert w[..4] == s[i..i + 4] && w[4..] == s[i + 4..i + 8];
    DecodeU32(s, i + 4) * 0x1_0000_0000 + DecodeU32(s, i)
  }

  /** The eight bytes read as unsigned, then reinterpreted as two's
      complement: the signed value congruent to them modulo 2^64. */
  function DecodeI64(s: seq<Byte>, i: nat): (r: I64)
    requires i + 8 <= |s|
    ensures r % 0x1_0000_0000_0000_0000 == Value(s[i..i + 8])
  {
    var u := DecodeU64(s, i);
    if u < 0x8000_0000_0000_0000 then
      DivModUnique(u, 0x1_0000_0000_0000_0000, 0, u);
      u
    else
      DivModUnique(u - 0x1_0000_0000_0000_0000, 0x1_0000_0000_0000_0000, -1, u);
      u - 0x1_0000_0000_0000_0000
  }

  /** The bytes of a field of n bytes up to the first NUL. */
  function DecodeStr(s: seq<Byte>, i: nat, n: nat): (r: seq<Byte>)
    requires i + n <= |s|
    ensures |r| <= n && r == s[i..i + |r|]
    ensures 0 !in r
    ensures |r| < n ==> s[i + |r|] == 0
  {
    UntilNul(s[i..i + n])
  }

  function UntilNul(s: seq<Byte>): (r: seq<Byte>)
    ensures |r| <= |s| && r == s[..|r|]
    ensures 0 !in r
    ensures |r| < |s| ==> s[|r|] == 0
  {
    if s == [] || s[0] == 0 then [] else [s[0]] + UntilNul(s[1..])
  }

  // ---------------------------------------------------------------------
  // Encoders. Each writes its bytes at start, leaves the rest of the
  // buffer alone and returns the position past what it wrote.

  method EncodeU8(buf: array<Byte>, start: nat, v: Byte) returns (next: nat)
    requires start + 1 <= buf.Length
    modifies buf
    ensures next == start + 1 && buf[start..next] == LittleEndian(v, 1)
    ensures forall j | 0 <= j < buf.Length && !(start <= j < next) :: buf[j] == old(buf[j])
  {
    buf[start] := v;
    next := start + 1;
  }

  /** The low byte, then the byte above it. */
  method EncodeU16(buf: array<Byte>, start: nat, v: U16) returns (next: nat)
    requires start + 2 <= buf.Length
    modifies buf
    ensures next == start + 2 && buf[start..next] == LittleEndian(v, 2)
    ensures forall j | 0 <= j < buf.Length && !(start <= j < next) :: buf[j] == old(buf[j])
  {
    buf[start] := v % 0x100;
    buf[start + 1] := (v / 0x100) % 0x100;
    next := start + 2;
  }

  /** The four bytes from the least significant up. */
  method EncodeU32(buf: array<Byte>, start: nat, v: U32) returns (next: nat)
    requires start + 4 <= buf.Length
    modifies buf
    ensures next == start + 4 && buf[start..next] == LittleEndian(v, 4)
    ensures forall j | 0 <= j < buf.Length && !(start <= j < next) :: buf[j] == old(buf[j])
  {
    buf[start] := v % 0x100;
    buf[start + 1] := (v / 0x100) % 0x100;
    buf[start + 2] := (v / 0x1_0000) % 0x100;
    buf[start + 3] := (v / 0x100_0000) % 0x100;
    next := start + 4;
    Pows();
    forall j | 0 <= j < 4 ensures buf[start + j] == LittleEndian(v, 4)[j] {
      LittleEndianAt(v, 4, j);
    }
  }

  /** Eight times: write the low byte, then shift right by 8. */
  method EncodeI64(buf: array<Byte>, start: nat, v: I64) returns (next: nat)
    requires start + 8 <= buf.Length
    modifies buf
    ensures next == start + 8 && buf[start..next] == LittleEndian(v, 8)
    ensures forall j | 0 <= j < buf.Length && !(start <= j < next) :: buf[j] == old(buf[j])
  {
    var value: int := v;
    var i := 0;
    while i < 8
      invariant 0 <= i <= 8
      invariant LittleEndian(value, 8 - i) == LittleEndian(v, 8)[i..]
      invariant forall j | 0 <= j < i :: buf[start + j] == LittleEndian(v, 8)[j]
      invariant forall j | 0 <= j < buf.Length && !(start <= j < start + 8) :: buf[j] == old(buf[j])
    {
      buf[start + i] := value % 0x100;
      value := value / 0x100;
      i := i + 1;
    }
    next := start + 8;
  }

  /** The first min(|str|, n) bytes of str, then NUL padding up to n bytes. */
  function Padded(str: seq<Byte>, n: nat): (r: seq<Byte>)
    ensures |r| == n
    ensures forall j :: 0 <= j < n ==> r[j] == (if j < |str| then str[j] else 0)
  {
    if n == 0 then []
    else if str == [] then [0] + Padded([], n - 1)
    else [str[0]] + Padded(str[1..], n - 1)
  }

  /** Copy while both the text and the field last, then pad with NUL. */
  method EncodeStr(buf: array<Byte>, start: nat, str: seq<Byte>, n: nat) returns (next: nat)
    requires start + n <= buf.Length
    modifies buf
    ensures next == start + n && buf[start..next] == Padded(str, n)
    ensures forall j | 0 <= j < buf.Length && !(start <= j < next) :: buf[j] == old(buf[j])
  {
    var i := 0;
    while i < |str| && i < n
      invariant 0 <= i <= n && i <= |str|
      invariant forall k | start <= k < start + i :: buf[k] == str[k - start]
      invariant forall j | 0 <= j < buf.Length && !(start <= j < start + n) :: buf[j] == old(buf[j])
    {
      buf[start + i] := str[i];
      i := i + 1;
    }
    while i < n
      invariant 0 <= i <= n && (i < n ==> i >= |str|)
      invariant forall k | start <= k < start + i :: buf[k] == (if k - start < |str| then str[k - start] else 0)
      invariant forall j | 0 <= j < buf.Length && !(start <= j < start + n) :: buf[j] == old(buf[j])
    {
      buf[start + i] := 0;
      i := i + 1;
    }
    next := start + n;
    assert forall j | 0 <= j < n :: buf[start..next][j] == Padded(str, n)[j];
  }

  // ---------------------------------------------------------------------
  // Arithmetic behind the round trips

  /** Writing v in n little-endian bytes keeps v modulo 256^n. */
  lemma {:induction false} ValueOfLittleEndian(v: int, n: nat)
    ensures Value(LittleEndian(v, n)) == v % Pow256(n)
    decreases n
  {
    if n > 0 {
      var s := LittleEndian(v, n);
      assert s[1..] == LittleEndian(v / 256, n - 1);
      ValueOfLittleEndian(v / 256, n - 1);
      DivMod(v, 256, Pow256(n - 1));
    }
  }

  /** Byte j of the little-endian form of v is v shifted right by 8 j bits,
      masked to 8 bits. */
  lemma {:induction false} LittleEndianAt(v: int, n: nat, j: nat)
    requires j < n
    ensures LittleEndian(v, n)[j] == (v / Pow256(j)) % 256
    decreases n
  {
    if j > 0 {
      LittleEndianAt(v / 256, n - 1, j - 1);
      DivMod(v, 256, Pow256(j - 1));
    }
  }

  /** A little-endian number splits into its low k bytes and the rest. */
  lemma {:induction false} ValueSplit(s: seq<Byte>, k: nat)
    requires k <= |s|
    ensures Value(s) == Value(s[..k]) + Pow256(k) * Value(s[k..])
  {
    if k > 0 {
      var t, low := s[1..], s[..k];
      var p, hi := Pow256(k - 1), Value(s[k..]);
      ValueSplit(t, k - 1);
      assert t[..k - 1] == low[1..];
      assert t[k - 1..] == s[k..];
      assert Value(t) == Value(low[1..]) + p * hi;
      assert Value(low) == s[0] + 256 * Value(low[1..]);
      MulAssoc(256, p, hi);
    }
  }

  /** The first n bytes of v's n-byte form followed by anything read back as
      v, when v fits in n bytes. */
  lemma ReadBack(v: int, n: nat, rest: seq<Byte>)
    requires 0 <= v < Pow256(n)
    ensures Value((LittleEndian(v, n) + rest)[0..n]) == v
  {
    assert (LittleEndian(v, n) + rest)[0..n] == LittleEndian(v, n);
    ValueOfLittleEndian(v, n);
    DivModUnique(v, Pow256(n), 0, v);
  }

  // ---------------------------------------------------------------------
  // Round trips: what an encoder writes, the matching decoder reads back.

  lemma RoundTripU8(v: Byte, rest: seq<Byte>)
    ensures DecodeU8(LittleEndian(v, 1) + rest, 0) == v
  {
  }

  lemma RoundTripU16(v: U16, rest: seq<Byte>)
    ensures DecodeU16(LittleEndian(v, 2) + rest, 0) == v
  {
    Pows();
    ReadBack(v, 2, rest);
  }

  lemma RoundTripU32(v: U32, rest: seq<Byte>)
    ensures DecodeU32(LittleEndian(v, 4) + rest, 0) == v
  {
    Pows();
    ReadBack(v, 4, rest);
  }

  lemma RoundTripU64(v: U64, rest: seq<Byte>)
    ensures DecodeU64(LittleEndian(v, 8) + rest, 0) == v
  {
    Pows();
    ReadBack(v, 8, rest);
  }

  /** The two's complement bytes of a signed value read back as that value. */
  lemma RoundTripI64(v: I64, rest: seq<Byte>)
    ensures DecodeI64(LittleEndian(v, 8) + rest, 0) == v
  {
    var s := LittleEndian(v, 8) + rest;
    assert s[0..8] == LittleEndian(v, 8);
    ValueOfLittleEndian(v, 8);
    Pows();
    var r := DecodeI64(s, 0);
    var m: int := 0x1_0000_0000_0000_0000;
    if v >= 0 {
      DivModUnique(v, m, 0, v);
    } else {
      DivModUnique(v, m, -1, v + m);
    }
    if r >= 0 {
      DivModUnique(r, m, 0, r);
    } else {
      DivModUnique(r, m, -1, r + m);
    }
  }

  /** A text field without NUL reads back as its first n bytes. */
  lemma RoundTripStr(str: seq<Byte>, n: nat, rest: seq<Byte>)
    requires 0 !in str
    ensures DecodeStr(Padded(str, n) + rest, 0, n) == if |str| <= n then str else str[..n]
  {
  }
}
