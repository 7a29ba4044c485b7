/**
 * The observer's view of a record (ebpfapp/src/parser.rs): a Packet whose
 * addresses are IPv4 addresses rather than raw words, the display names of
 * packet types, and parse_buf as a checked decoder.
 */
module Parser {
  import opened Wrappers
  import opened Common

  /** An IPv4 address as its four octets, in the order they are written a.b.c.d. */
  datatype Ipv4Addr = Ipv4Addr(a: u8, b: u8, c: u8, d: u8)

  /** `u32::from(Ipv4Addr)`: the octets read as a big-endian number. */
  function Ipv4ToU32(ip: Ipv4Addr): u32
  {
    ((ip.a as int * 0x100 + ip.b as int) * 0x100 + ip.c as int) * 0x100 + ip.d as int
  }

  /** `Ipv4Addr::from(u32)`: the octets are the big-endian bytes of the word. */
  function Ipv4FromU32(x: u32): (ip: Ipv4Addr)
    ensures Ipv4ToU32(ip) == x
  {
    Ipv4Addr(x / 0x100 / 0x100 / 0x100, (x / 0x100 / 0x100) % 0x100, (x / 0x100) % 0x100, x % 0x100)
  }

  /** Turning an address into a word and back gives the same address. */
  lemma Ipv4RoundTrip(ip: Ipv4Addr)
    ensures Ipv4FromU32(Ipv4ToU32(ip)) == ip
  {
    var q2: int := ip.a as int * 0x100 + ip.b as int;
    var q1: int := q2 * 0x100 + ip.c as int;
    var x: int := Ipv4ToU32(ip);
    assert x == q1 * 0x100 + ip.d as int;
    assert x % 0x100 == ip.d && x / 0x100 == q1;
    assert q1 % 0x100 == ip.c && q1 / 0x100 == q2;
    assert q2 % 0x100 == ip.b && q2 / 0x100 == ip.a;
  }

  /**
   * A u32 stored little-endian and shown as an address: the octets are the
   * four stored bytes in reverse order.
   */
  lemma Ipv4OfLeBytes(w: seq<u8>)
    requires |w| == 4
    ensures Ipv4FromU32(U32FromLe(w)) == Ipv4Addr(w[3], w[2], w[1], w[0])
  {
    LeDecodeEncode(w);
    var le := U32ToLe(U32FromLe(w));
    assert le[0] == w[0] && le[1] == w[1] && le[2] == w[2] && le[3] == w[3];
  }

  /** The display name of a packet type (`PacketToString::to_str`). */
  function ToStr(t: PacketType): string
  {
    match t
    case TCP => "TCP"
    case UDP => "UDP"
    case ICMP => "ICMP"
    case UNKNOW => "UNKNOW"
  }

  /** The four display names are pairwise distinct, so a name identifies its packet type. */
  lemma ToStrInjective(s: PacketType, t: PacketType)
    ensures ToStr(s) == ToStr(t) <==> s == t
  {
    if s != t {
      assert ToStr(s)[0] != ToStr(t)[0] || |ToStr(s)| != |ToStr(t)|;
    }
  }

  /** What an observer derives from one record; `action` stays the raw 32-bit code. */
  datatype Packet = Packet(
    source: Ipv4Addr,
    destination: Ipv4Addr,
    action: u32,
    packetType: PacketType)

  /**
   * `parse_buf`: read the record at the start of the buffer and present its
   * addresses as IPv4 addresses. A buffer too short for a record, or holding
   * an invalid action or type code, is a decode error rather than undefined
   * behaviour.
   */
  function ParseBuf(buf: seq<u8>): (r: Result<Packet, DecodeError>)
    ensures r.Ok? <==> Decode(buf).Ok?
    ensures r.Err? ==> r.error == Decode(buf).error
    ensures r.Ok? ==> r.value.source == Ipv4Addr(buf[3], buf[2], buf[1], buf[0])
    ensures r.Ok? ==> r.value.destination == Ipv4Addr(buf[7], buf[6], buf[5], buf[4])
    ensures r.Ok? ==> r.value.action == U32FromLe(buf[8..12]) && r.value.action <= 4
    ensures r.Ok? ==> PacketTypeCode(r.value.packetType) == buf[12]
  {
    match Decode(buf)
    case Err(e) => Err(e)
    case Ok(log) =>
      Ipv4OfLeBytes(buf[0..4]);
      Ipv4OfLeBytes(buf[4..8]);
      PacketTypeCodeRoundTrip(log.packetType, buf[12]);
      ActionCodeRoundTrip(log.action, U32FromLe(buf[8..12]));
      Ok(PacketView(log))
  }

  /** The Packet fields of a decoded record: addresses converted, action and type copied. */
  function PacketView(log: PacketLog): Packet
  {
    Packet(Ipv4FromU32(log.ipv4Address), Ipv4FromU32(log.ipv4Destination), ActionCode(log.action), log.packetType)
  }

  /** The bytes after the first PacketLogSize do not affect parse_buf. */
  lemma ParseBufReadsPrefix(buf: seq<u8>, rest: seq<u8>)
    requires |buf| >= PacketLogSize
    ensures ParseBuf(buf + rest) == ParseBuf(buf)
  {
    assert (buf + rest)[..PacketLogSize] == buf[..PacketLogSize];
    DecodeReadsPrefix(buf + rest, buf);
  }

  /**
   * What an encoder writes is what the observer reads: a buffer that
   * starts with an encoded record, whatever follows it, parses to that
   * record's view, and the addresses convert back to the record's raw words.
   */
  lemma ParseEncoded(log: PacketLog, rest: seq<u8>)
    ensures ParseBuf(Encode(log) + rest) == Ok(PacketView(log))
    ensures Ipv4ToU32(PacketView(log).source) == log.ipv4Address
    ensures Ipv4ToU32(PacketView(log).destination) == log.ipv4Destination
  {
    ParseBufReadsPrefix(Encode(log), rest);
    DecodeEncode(log);
  }
}
