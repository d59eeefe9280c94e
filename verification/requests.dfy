/** Building and reading the parts of Cboe BOE messages that do not depend
    on the per-message field tables: the request header, the enum-to-
    character maps of a new order, the base-36 rendering of an execution
    ID and the single-byte response decoders. */
module Requests {
  import opened Codec
  import opened Seqs

  datatype RequestType = New

  datatype Side = Buy | Sell
  datatype OrdType = Market | Limit | Pegged
  datatype TimeInForce = Day | IOC | GTD
  datatype Capacity = Agency | Principal | RisklessPrincipal

  datatype LiquidityIndicator = Added | Removed

  datatype RestatementReason =
    Reroute | LockedInCross | Wash | Reload | LiquidityUpdated | Unknown

  const StartOfMessage: Byte := 0xBA
  const HeaderSize := 10

  /** Size of a new-order message: the header and its fixed and optional
      fields. */
  const NewOrderSize := 78

  /** The message type byte; the switch's fall-back 0 is never reached. */
  function EncodeRequestType(t: RequestType): (b: Byte)
    ensures b != 0
    ensures t == New ==> b == 0x38
  {
    match t
    case New => 0x38
  }

  // ---------------------------------------------------------------------
  // Request header

  /** StartOfMessage twice, the length truncated to 16 bits little-endian,
      the message type, matching unit 0, then the 32-bit sequence number
      little-endian. */
  function Header(length: U32, t: RequestType, seqNo: U32): (h: seq<Byte>)
    ensures |h| == HeaderSize
  {
    [StartOfMessage, StartOfMessage] + LittleEndian(length % 0x1_0000, 2)
      + [EncodeRequestType(t), 0] + LittleEndian(seqNo, 4)
  }

  method AddRequestHeader(buf: array<Byte>, start: nat, length: U32, t: RequestType, seqNo: U32)
    returns (next: nat)
    requires start + HeaderSize <= buf.Length
    modifies buf
    ensures next == start + HeaderSize && buf[start..next] == Header(length, t, seqNo)
    ensures forall j | 0 <= j < buf.Length && !(start <= j < next) :: buf[j] == old(buf[j])
  {
    buf[start] := StartOfMessage;
    buf[start + 1] := StartOfMessage;
    ghost var len := LittleEndian(length % 0x1_0000, 2);
    var p := EncodeU16(buf, start + 2, length % 0x1_0000);
    assert buf[start + 2] == len[0] && buf[start + 3] == len[1] by {
      assert buf[start + 2..start + 4][0] == buf[start + 2];
      assert buf[start + 2..start + 4][1] == buf[start + 3];
    }
    p := EncodeU8(buf, p, EncodeRequestType(t));
    assert buf[start + 4] == buf[start + 4..start + 5][0];
    buf[p] := 0;
    p := p + 1;
    next := EncodeU32(buf, p, seqNo);
    ghost var h := Header(length, t, seqNo);
    forall j | 0 <= j < HeaderSize ensures buf[start..next][j] == h[j] {
      if 6 <= j {
        assert buf[start + 6..start + 10][j - 6] == buf[start + j];
      }
    }
  }

  /** Reading a header back: the start marker, the truncated length, the
      type byte, matching unit 0 and the sequence number. */
  lemma ParseHeader(length: U32, t: RequestType, seqNo: U32, rest: seq<Byte>)
    ensures var m := Header(length, t, seqNo) + rest;
      && m[0] == m[1] == StartOfMessage
      && DecodeU16(m, 2) == length % 0x1_0000
      && DecodeU8(m, 4) == EncodeRequestType(t)
      && DecodeU8(m, 5) == 0
      && DecodeU32(m, 6) == seqNo
  {
    var m := Header(length, t, seqNo) + rest;
    var len := length % 0x1_0000;
    assert m[2..4] == LittleEndian(len, 2);
    assert m[6..10] == LittleEndian(seqNo, 4);
    Pows();
    ReadBack(len, 2, []);
    ReadBack(seqNo, 4, []);
    assert LittleEndian(len, 2) + [] == LittleEndian(len, 2);
    assert LittleEndian(seqNo, 4) + [] == LittleEndian(seqNo, 4);
  }

  /** The header part of a new-order message: the length field counts every
      byte after itself, that is the message size less 2. The fields after
      the header are not part of this model. */
  method NewOrderHeader(seqNo: U32) returns (msg: array<Byte>)
    ensures msg.Length == NewOrderSize
    ensures msg[..HeaderSize] == Header(NewOrderSize - 2, New, seqNo)
  {
    msg := new Byte[NewOrderSize];
    var p := AddRequestHeader(msg, 0, msg.Length - 2, New, seqNo);
    assert msg[..HeaderSize] == msg[0..p];
  }

  /** A new order's header declares 76 bytes after the length field and
      message type 0x38. */
  lemma NewOrderLength(seqNo: U32, rest: seq<Byte>)
    ensures DecodeU16(Header(NewOrderSize - 2, New, seqNo) + rest, 2) == 76
    ensures DecodeU8(Header(NewOrderSize - 2, New, seqNo) + rest, 4) == 0x38
  {
    ParseHeader(NewOrderSize - 2, New, seqNo, rest);
  }

  // ---------------------------------------------------------------------
  // Enum-to-character maps

  function ConvertSide(side: Side): (c: char)
    ensures c != 0 as char && c in "12"
  {
    match side
    case Buy => '1'
    case Sell => '2'
  }

  function ConvertOrdType(ordType: OrdType): (c: char)
    ensures c != 0 as char && c in "12P"
  {
    match ordType
    case Market => '1'
    case Limit => '2'
    case Pegged => 'P'
  }

  function ConvertTimeInForce(tif: TimeInForce): (c: char)
    ensures c != 0 as char && c in "036"
  {
    match tif
    case Day => '0'
    case IOC => '3'
    case GTD => '6'
  }

  function ConvertCapacity(capacity: Capacity): (c: char)
    ensures c != 0 as char && c in "APR"
  {
    match capacity
    case Agency => 'A'
    case Principal => 'P'
    case RisklessPrincipal => 'R'
  }

  /** Each map sends distinct values to distinct characters, so the
      receiver can tell them apart. */
  lemma ConvertsAreInjective()
    ensures forall a: Side, b: Side :: ConvertSide(a) == ConvertSide(b) ==> a == b
    ensures forall a: OrdType, b: OrdType :: ConvertOrdType(a) == ConvertOrdType(b) ==> a == b
    ensures forall a: TimeInForce, b: TimeInForce :: ConvertTimeInForce(a) == ConvertTimeInForce(b) ==> a == b
    ensures forall a: Capacity, b: Capacity :: ConvertCapacity(a) == ConvertCapacity(b) ==> a == b
  {
  }

  // ---------------------------------------------------------------------
  // Base-36 execution IDs

  function Base36Char(value: int): (r: char)
    requires 0 <= value < 36
    ensures '0' <= r <= '9' || 'A' <= r <= 'Z'
    ensures DigitValue(r) == value
  {
    if value < 10 then ('0' as int + value) as char else ('A' as int + value - 10) as char
  }

  /** The value of a base-36 digit, '0'..'9' then 'A'..'Z'. */
  function DigitValue(c: char): int
  {
    if c <= '9' then c as int - '0' as int else c as int - 'A' as int + 10
  }

  predicate IsDigit36(c: char)
  {
    '0' <= c <= '9' || 'A' <= c <= 'Z'
  }

  /** v in base 36, most significant digit first, empty for 0. */
  function Base36(v: nat): (r: string)
    ensures forall j :: 0 <= j < |r| ==> IsDigit36(r[j])
  {
    if v == 0 then [] else Base36(v / 36) + [Base36Char(v % 36)]
  }

  /** The number a string of base-36 digits denotes. */
  function ReadBase36(s: string): nat
  {
    if s == [] then 0
    else
      var d := DigitValue(s[|s| - 1]);
      ReadBase36(s[..|s| - 1]) * 36 + (if 0 <= d then d else 0)
  }

  /** Decode the eight-byte ID, then emit its digits least significant first
      and reverse them. */
  method DecodeBase36(s: seq<Byte>, start: nat) returns (answer: string)
    requires start + 8 <= |s|
    ensures answer == Base36(DecodeU64(s, start))
  {
    var value: nat := DecodeU64(s, start);
    ghost var v := value;
    var digits := [];
    while value != 0
      invariant Base36(value) + Reverse(digits) == Base36(v)
    {
      var c := Base36Char(value % 36);
      ReverseSnoc(digits, c);
      digits := digits + [c];
      value := value / 36;
    }
    answer := Reverse(digits);
  }

  /** The rendering is empty exactly for 0, starts with a non-zero digit
      otherwise, and reads back as the number. */
  lemma Base36RoundTrip(v: nat)
    ensures Base36(v) == [] <==> v == 0
    ensures v > 0 ==> Base36(v)[0] != '0'
    ensures ReadBase36(Base36(v)) == v
  {
    if v > 0 {
      Base36Leading(v);
    }
    Base36ReadBack(v);
  }

  /** A positive number's rendering starts with a non-zero digit. */
  lemma {:induction false} Base36Leading(v: nat)
    requires v > 0
    ensures Base36(v) != [] && Base36(v)[0] != '0'
  {
    var r, c := Base36(v), Base36Char(v % 36);
    assert r == Base36(v / 36) + [c];
    if v / 36 == 0 {
      assert v % 36 == v;
      assert DigitValue(c) != 0;
      assert r[0] == c;
    } else {
      Base36Leading(v / 36);
      assert r[0] == Base36(v / 36)[0];
    }
  }

  /** Reading the rendering back gives the number. */
  lemma {:induction false} Base36ReadBack(v: nat)
    ensures ReadBase36(Base36(v)) == v
  {
    if v > 0 {
      var r, c := Base36(v), Base36Char(v % 36);
      Base36ReadBack(v / 36);
      assert r == Base36(v / 36) + [c];
      assert r[..|r| - 1] == Base36(v / 36);
      assert r[|r| - 1] == c;
      assert DigitValue(c) == v % 36;
      assert ReadBase36(r) == ReadBase36(Base36(v / 36)) * 36 + v % 36;
      assert v == v / 36 * 36 + v % 36;
    }
  }

  // ---------------------------------------------------------------------
  // Single-byte response fields

  function DecodeLiquidityIndicator(s: seq<Byte>, i: nat): (r: LiquidityIndicator)
    requires i < |s|
    ensures r == Added <==> s[i] == 'A' as int
  {
    if s[i] == 'A' as int then Added else Removed
  }

  /** The code each known restatement reason is sent as. */
  function ReasonCode(reason: RestatementReason): (c: Byte)
    requires reason != Unknown
  {
    match reason
    case Reroute => 'R' as int
    case LockedInCross => 'X' as int
    case Wash => 'W' as int
    case Reload => 'L' as int
    case LiquidityUpdated => 'Q' as int
  }

  /** A known code decodes to its reason; any other byte to Unknown. */
  function DecodeRestatementReason(s: seq<Byte>, i: nat): (r: RestatementReason)
    requires i < |s|
    ensures r != Unknown ==> ReasonCode(r) == s[i]
    ensures r == Unknown ==> forall known: RestatementReason :: known != Unknown ==> ReasonCode(known) != s[i]
  {
    match s[i]
    case 82 => Reroute
    case 88 => LockedInCross
    case 87 => Wash
    case 76 => Reload
    case 81 => LiquidityUpdated
    case _ => Unknown
  }

  lemma RestatementRoundTrip(reason: RestatementReason)
    requires reason != Unknown
    ensures DecodeRestatementReason([ReasonCode(reason)], 0) == reason
  {
  }
}
