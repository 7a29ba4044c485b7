/**
 * The record shared by the in-kernel program and the user-space observers
 * (ebpfapp-common/src/lib.rs): the packed PacketLog and the two enumerations
 * it carries. The source shares the layout by reinterpreting raw memory; here
 * it is an explicit Encode/Decode pair over bytes, defined once.
 */
module Common {
  import opened Wrappers

  type u8 = x: int | 0 <= x < 0x100
  type u32 = x: int | 0 <= x < 0x1_0000_0000

  // ---------------------------------------------------------------------------
  // Byte order. The record is stored in native order and the BPF object is
  // built for the little-endian target, so every u32 field is little-endian.
  // ---------------------------------------------------------------------------

  /** The four wire bytes of a u32 field, least significant first. */
  function U32ToLe(x: u32): (b: seq<u8>)
    ensures |b| == 4
    ensures U32FromLe(b) == x
  {
    [x % 0x100, (x / 0x100) % 0x100, (x / 0x100 / 0x100) % 0x100, x / 0x100 / 0x100 / 0x100]
  }

  /** The u32 value of four wire bytes, least significant first. */
  function U32FromLe(b: seq<u8>): u32
    requires |b| == 4
  {
    b[0] as int + 0x100 * (b[1] as int + 0x100 * (b[2] as int + 0x100 * b[3] as int))
  }

  /** Reading four bytes and writing them back gives the same four bytes. */
  lemma LeDecodeEncode(b: seq<u8>)
    requires |b| == 4
    ensures U32ToLe(U32FromLe(b)) == b
  {
    var x := U32FromLe(b);
    var q2: int := b[2] as int + 0x100 * b[3] as int;
    var q1: int := b[1] as int + 0x100 * q2;
    assert x == b[0] as int + 0x100 * q1;
    assert x % 0x100 == b[0] && x / 0x100 == q1;
    assert q1 % 0x100 == b[1] && q1 / 0x100 == q2;
    assert q2 % 0x100 == b[2] && q2 / 0x100 == b[3];
  }

  // ---------------------------------------------------------------------------
  // PacketType: `#[repr(u8)]` with implicit discriminants in declaration order.
  // ---------------------------------------------------------------------------

  datatype PacketType = TCP | UDP | ICMP | UNKNOW

  /** The discriminant byte of a packet type. */
  function PacketTypeCode(t: PacketType): (c: u8)
    ensures c < 4
  {
    match t
    case TCP => 0
    case UDP => 1
    case ICMP => 2
    case UNKNOW => 3
  }

  /** The packet type a byte denotes; only the four discriminants are valid. */
  function PacketTypeFromCode(c: u8): (r: Option<PacketType>)
    ensures r.Some? <==> c < 4
  {
    if c == 0 then Some(TCP)
    else if c == 1 then Some(UDP)
    else if c == 2 then Some(ICMP)
    else if c == 3 then Some(UNKNOW)
    else None
  }

  /** Decoding a discriminant gives back the packet type, and only valid bytes decode. */
  lemma PacketTypeCodeRoundTrip(t: PacketType, c: u8)
    ensures PacketTypeFromCode(PacketTypeCode(t)) == Some(t)
    ensures PacketTypeFromCode(c).Some? ==> PacketTypeCode(PacketTypeFromCode(c).value) == c
  {
  }

  /** Distinct packet types have distinct discriminants. */
  lemma PacketTypeCodeInjective(s: PacketType, t: PacketType)
    ensures PacketTypeCode(s) == PacketTypeCode(t) <==> s == t
  {
    if PacketTypeCode(s) == PacketTypeCode(t) {
      PacketTypeCodeRoundTrip(s, 0);
      PacketTypeCodeRoundTrip(t, 0);
      assert Some(s) == PacketTypeFromCode(PacketTypeCode(t)) == Some(t);
    }
  }

  // ---------------------------------------------------------------------------
  // XdpAction: `#[repr(u32)]` with explicit codes.
  // ---------------------------------------------------------------------------

  datatype XdpAction = ABORTED | DROP | PASS | TX | REDIRECT

  /** The 32-bit code of an action. */
  function ActionCode(a: XdpAction): (c: u32)
    ensures c <= 4
  {
    match a
    case ABORTED => 0
    case DROP => 1
    case PASS => 2
    case TX => 3
    case REDIRECT => 4
  }

  /** The action a 32-bit word denotes; only the codes 0 to 4 are valid. */
  function ActionFromCode(w: u32): (r: Option<XdpAction>)
    ensures r.Some? <==> w <= 4
  {
    if w == 0 then Some(ABORTED)
    else if w == 1 then Some(DROP)
    else if w == 2 then Some(PASS)
    else if w == 3 then Some(TX)
    else if w == 4 then Some(REDIRECT)
    else None
  }

  /** Decoding an action code gives back the action, and only valid words decode. */
  lemma ActionCodeRoundTrip(a: XdpAction, w: u32)
    ensures ActionFromCode(ActionCode(a)) == Some(a)
    ensures ActionFromCode(w).Some? ==> ActionCode(ActionFromCode(w).value) == w
  {
  }

  /** Distinct actions have distinct codes. */
  lemma ActionCodeInjective(a: XdpAction, b: XdpAction)
    ensures ActionCode(a) == ActionCode(b) <==> a == b
  {
    if ActionCode(a) == ActionCode(b) {
      ActionCodeRoundTrip(a, 0);
      ActionCodeRoundTrip(b, 0);
      assert Some(a) == ActionFromCode(ActionCode(b)) == Some(b);
    }
  }

  // ---------------------------------------------------------------------------
  // PacketLog: `#[repr(packed)]`, four fields in declaration order, no padding.
  // ---------------------------------------------------------------------------

  datatype PacketLog = PacketLog(
    ipv4Address: u32,
    ipv4Destination: u32,
    action: XdpAction,
    packetType: PacketType)

  /** Bytes of one record: three u32 fields and one u8 field, unpadded. */
  const PacketLogSize: nat := 4 + 4 + 4 + 1

  /** Why a byte sequence is not a PacketLog. */
  datatype DecodeError =
    | Truncated(length: nat)
    | InvalidAction(actionCode: u32)
    | InvalidPacketType(typeCode: u8)

  /** The wire bytes of a record: source at 0, destination at 4, action at 8, type at 12. */
  function Encode(r: PacketLog): (b: seq<u8>)
    ensures |b| == PacketLogSize
    ensures U32FromLe(b[0..4]) == r.ipv4Address
    ensures U32FromLe(b[4..8]) == r.ipv4Destination
    ensures U32FromLe(b[8..12]) == ActionCode(r.action)
    ensures b[12] == PacketTypeCode(r.packetType)
  {
    var src, dst, act := U32ToLe(r.ipv4Address), U32ToLe(r.ipv4Destination), U32ToLe(ActionCode(r.action));
    var b := src + dst + act + [PacketTypeCode(r.packetType)];
    assert b[0..4] == src && b[4..8] == dst && b[8..12] == act;
    b
  }

  /**
   * The record at the start of a buffer. Bytes after the first PacketLogSize
   * are not read. The action word is checked before the type byte.
   */
  function Decode(b: seq<u8>): (r: Result<PacketLog, DecodeError>)
    ensures r.Ok? <==> |b| >= PacketLogSize && U32FromLe(b[8..12]) <= 4 && b[12] < 4
    ensures r == Err(Truncated(|b|)) <==> |b| < PacketLogSize
  {
    if |b| < PacketLogSize then Err(Truncated(|b|))
    else
      var code := U32FromLe(b[8..12]);
      match ActionFromCode(code)
      case None => Err(InvalidAction(code))
      case Some(action) =>
        match PacketTypeFromCode(b[12])
        case None => Err(InvalidPacketType(b[12]))
        case Some(packetType) =>
          Ok(PacketLog(U32FromLe(b[0..4]), U32FromLe(b[4..8]), action, packetType))
  }

  /** Every record survives the trip through its wire bytes. */
  lemma DecodeEncode(r: PacketLog)
    ensures Decode(Encode(r)) == Ok(r)
  {
    var b := Encode(r);
    ActionCodeRoundTrip(r.action, 0);
    PacketTypeCodeRoundTrip(r.packetType, 0);
    assert ActionFromCode(U32FromLe(b[8..12])) == Some(r.action);
    assert PacketTypeFromCode(b[12]) == Some(r.packetType);
  }

  /** A buffer that decodes holds, in its first PacketLogSize bytes, exactly the encoding of what it decodes to. */
  lemma EncodeDecode(b: seq<u8>)
    requires Decode(b).Ok?
    ensures Encode(Decode(b).value) == b[..PacketLogSize]
  {
    var r := Decode(b).value;
    var e := Encode(r);
    ActionCodeRoundTrip(r.action, U32FromLe(b[8..12]));
    PacketTypeCodeRoundTrip(r.packetType, b[12]);
    LeDecodeEncode(b[0..4]);
    LeDecodeEncode(b[4..8]);
    LeDecodeEncode(b[8..12]);
    LeDecodeEncode(e[0..4]);
    LeDecodeEncode(e[4..8]);
    LeDecodeEncode(e[8..12]);
    assert e[0..4] == b[0..4];
    assert e[4..8] == b[4..8];
    assert e[8..12] == b[8..12];
    assert e[12] == b[12];
    assert e == e[0..4] + e[4..8] + e[8..12] + [e[12]];
    assert b[..PacketLogSize] == b[0..4] + b[4..8] + b[8..12] + [b[12]];
  }

  /** Decoding looks only at the first PacketLogSize bytes. */
  lemma DecodeReadsPrefix(b: seq<u8>, c: seq<u8>)
    requires |b| >= PacketLogSize && |c| >= PacketLogSize
    requires b[..PacketLogSize] == c[..PacketLogSize]
    ensures Decode(b) == Decode(c)
  {
    assert b[0..4] == c[0..4] by { assert forall i :: 0 <= i < 4 ==> b[i] == b[..PacketLogSize][i]; }
    assert b[4..8] == c[4..8] by { assert forall i :: 4 <= i < 8 ==> b[i] == b[..PacketLogSize][i]; }
    assert b[8..12] == c[8..12] by { assert forall i :: 8 <= i < 12 ==> b[i] == b[..PacketLogSize][i]; }
    assert b[12] == b[..PacketLogSize][12];
  }
}
