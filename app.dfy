/**
 * The user-space control loop (ebpfapp/src/main.rs): observers turn each
 * decoded record into a Command, and a single updater applies the commands,
 * in arrival order, to the ACTION_LIST table that the in-kernel program can consult.
 * The channel between them is a sequence of commands; the table is a map
 * from the source address, as a u32, to an action code.
 */
module App {
  import opened Wrappers
  import opened Common
  import opened Parser

  /** A request to change the policy for one source address. */
  datatype Command = Block(ip: Ipv4Addr) | Allow(ip: Ipv4Addr)

  // ---------------------------------------------------------------------------
  // Observer
  // ---------------------------------------------------------------------------

  /** The observer rule: block the source of an ICMP packet, allow the source of any other. */
  function Decide(p: Packet): (c: Command)
    ensures c.ip == p.source
    ensures c.Block? <==> p.packetType == ICMP
    ensures c.Allow? <==> p.packetType != ICMP
  {
    if p.packetType == ICMP then Block(p.source) else Allow(p.source)
  }

  /** The table key a command writes: `u32::from(ip)`. */
  function KeyOf(c: Command): (k: u32)
    ensures Ipv4FromU32(k) == c.ip
  {
    Ipv4RoundTrip(c.ip);
    Ipv4ToU32(c.ip)
  }

  /** The action code a command writes: DROP for Block, PASS for Allow. */
  function ValueOf(c: Command): (v: u32)
    ensures v == 1 <==> c.Block?
    ensures v == 2 <==> c.Allow?
    ensures ActionFromCode(v) == Some(if c.Block? then DROP else PASS)
  {
    match c
    case Block(_) => ActionCode(DROP)
    case Allow(_) => ActionCode(PASS)
  }

  /**
   * The command derived from a record names, as its key, the record's raw
   * source word (not its destination word), and blocks exactly when the record
   * is ICMP.
   */
  lemma CommandOfRecord(buf: seq<u8>)
    requires ParseBuf(buf).Ok?
    ensures KeyOf(Decide(ParseBuf(buf).value)) == Decode(buf).value.ipv4Address
    ensures ValueOf(Decide(ParseBuf(buf).value)) == if Decode(buf).value.packetType == ICMP then 1 else 2
  {
    var log := Decode(buf).value;
    assert ParseBuf(buf).value == PacketView(log);
    Ipv4RoundTrip(Ipv4FromU32(log.ipv4Address));
  }

  /**
   * One batch of an observer (`for i in 0..events.read`): one command per
   * read buffer, in buffer order. The source reads each buffer as a record
   * without checking it, so every read buffer is required to hold one.
   */
  method ObserveBatch(buffers: seq<seq<u8>>, read: nat) returns (cmds: seq<Command>)
    requires read <= |buffers|
    requires forall i :: 0 <= i < read ==> Decode(buffers[i]).Ok?
    ensures |cmds| == read
    ensures forall i :: 0 <= i < read ==> cmds[i] == Decide(ParseBuf(buffers[i]).value)
    ensures forall i :: 0 <= i < read ==> KeyOf(cmds[i]) == Decode(buffers[i]).value.ipv4Address
    ensures forall i :: 0 <= i < read ==> (cmds[i].Block? <==> Decode(buffers[i]).value.packetType == ICMP)
  {
    cmds := [];
    for i := 0 to read
      invariant |cmds| == i
      invariant forall j :: 0 <= j < i ==> cmds[j] == Decide(ParseBuf(buffers[j]).value)
      invariant forall j :: 0 <= j < i ==> KeyOf(cmds[j]) == Decode(buffers[j]).value.ipv4Address
    {
      var packet := ParseBuf(buffers[i]).value;
      CommandOfRecord(buffers[i]);
      if packet.packetType == ICMP {
        cmds := cmds + [Block(packet.source)];
      } else {
        cmds := cmds + [Allow(packet.source)];
      }
    }
  }

  // ---------------------------------------------------------------------------
  // Updater: the specification
  // ---------------------------------------------------------------------------

  /** The value stored under a key, if any. */
  function Get(m: map<u32, u32>, k: u32): Option<u32>
  {
    if k in m then Some(m[k]) else None
  }

  /** The table after one command; `accepted` is whether the kernel took the insert. */
  function Applied(m: map<u32, u32>, c: Command, accepted: bool): (r: map<u32, u32>)
    ensures accepted ==> Get(r, KeyOf(c)) == Some(ValueOf(c))
    ensures !accepted ==> r == m
    ensures forall k :: k != KeyOf(c) ==> Get(r, k) == Get(m, k)
  {
    if accepted then m[KeyOf(c) := ValueOf(c)] else m
  }

  /** The table after a sequence of commands, applied first to last. */
  function ApplyAll(m: map<u32, u32>, cmds: seq<Command>, accepted: seq<bool>): map<u32, u32>
    requires |accepted| == |cmds|
    decreases |cmds|
  {
    if cmds == [] then m
    else
      var n := |cmds| - 1;
      Applied(ApplyAll(m, cmds[..n], accepted[..n]), cmds[n], accepted[n])
  }

  /**
   * The index of the last accepted command that names key k, or -1 when no
   * accepted command names it.
   */
  function LastWriter(cmds: seq<Command>, accepted: seq<bool>, k: u32): (w: int)
    requires |accepted| == |cmds|
    ensures -1 <= w < |cmds|
    ensures w >= 0 ==> accepted[w] && KeyOf(cmds[w]) == k
    ensures forall j :: w < j < |cmds| ==> !(accepted[j] && KeyOf(cmds[j]) == k)
    decreases |cmds|
  {
    if cmds == [] then -1
    else
      var n := |cmds| - 1;
      if accepted[n] && KeyOf(cmds[n]) == k then n
      else LastWriter(cmds[..n], accepted[..n], k)
  }

  /**
   * Last writer wins: after a sequence of commands each key holds the value of
   * the last accepted command naming it; a key no accepted command names is
   * exactly as it was, present or absent. Rejected inserts leave no trace and
   * do not stop later commands.
   */
  lemma {:induction false} LastWriterWins(m: map<u32, u32>, cmds: seq<Command>, accepted: seq<bool>, k: u32)
    requires |accepted| == |cmds|
    ensures var w := LastWriter(cmds, accepted, k);
      Get(ApplyAll(m, cmds, accepted), k) == if w >= 0 then Some(ValueOf(cmds[w])) else Get(m, k)
  {
    if cmds != [] {
      var n := |cmds| - 1;
      LastWriterWins(m, cmds[..n], accepted[..n], k);
    }
  }

  /** Every value the updater leaves in the table that was not there before is DROP (1) or PASS (2). */
  lemma {:induction false} WrittenValuesArePolicyCodes(m: map<u32, u32>, cmds: seq<Command>, accepted: seq<bool>)
    requires |accepted| == |cmds|
    ensures var r := ApplyAll(m, cmds, accepted);
      forall k :: k in r ==> (k in m && r[k] == m[k]) || r[k] == 1 || r[k] == 2
  {
    var r := ApplyAll(m, cmds, accepted);
    forall k | k in r
      ensures (k in m && r[k] == m[k]) || r[k] == 1 || r[k] == 2
    {
      LastWriterWins(m, cmds, accepted, k);
    }
  }

  /** The updater only adds keys: those already present and those some accepted command names. */
  lemma {:induction false} KeysAfterApply(m: map<u32, u32>, cmds: seq<Command>, accepted: seq<bool>)
    requires |accepted| == |cmds|
    ensures ApplyAll(m, cmds, accepted).Keys
         == m.Keys + set i | 0 <= i < |cmds| && accepted[i] :: KeyOf(cmds[i])
  {
    var r := ApplyAll(m, cmds, accepted);
    var named := set i | 0 <= i < |cmds| && accepted[i] :: KeyOf(cmds[i]);
    forall k | k in r ensures k in m.Keys + named {
      LastWriterWins(m, cmds, accepted, k);
    }
    forall k | k in m.Keys + named ensures k in r {
      LastWriterWins(m, cmds, accepted, k);
      if k !in m {
        var i :| 0 <= i < |cmds| && accepted[i] && KeyOf(cmds[i]) == k;
        assert LastWriter(cmds, accepted, k) >= i;
      }
    }
  }

  /**
   * Observer and updater together: when the commands of a batch are applied,
   * the raw source word of record i ends up mapped to DROP if that record is
   * ICMP and to PASS otherwise, provided its insert was accepted and no later
   * accepted command in the batch comes from the same source.
   */
  lemma {:induction false} PolicyAfterBatch(m: map<u32, u32>, buffers: seq<seq<u8>>, cmds: seq<Command>, accepted: seq<bool>, i: nat)
    requires |cmds| == |accepted| <= |buffers|
    requires forall j :: 0 <= j < |cmds| ==> Decode(buffers[j]).Ok?
    requires forall j :: 0 <= j < |cmds| ==> cmds[j] == Decide(ParseBuf(buffers[j]).value)
    requires i < |cmds| && accepted[i]
    requires forall j :: i < j < |cmds| && accepted[j] ==>
      Decode(buffers[j]).value.ipv4Address != Decode(buffers[i]).value.ipv4Address
    ensures var log := Decode(buffers[i]).value;
      Get(ApplyAll(m, cmds, accepted), log.ipv4Address) == Some(if log.packetType == ICMP then 1 else 2)
  {
    var k := Decode(buffers[i]).value.ipv4Address;
    CommandOfRecord(buffers[i]);
    forall j | i < j < |cmds| && accepted[j] ensures KeyOf(cmds[j]) != k {
      CommandOfRecord(buffers[j]);
    }
    LastWriterWins(m, cmds, accepted, k);
    assert LastWriter(cmds, accepted, k) == i;
  }

  // ---------------------------------------------------------------------------
  // Updater: the table and its single consumer
  // ---------------------------------------------------------------------------

  /** Why the kernel refused an insert; the updater ignores it. */
  datatype InsertError = InsertRejected

  /** The ACTION_LIST table as seen by its only writer. */
  class ActionList {
    var entries: map<u32, u32>

    constructor (initial: map<u32, u32>)
      ensures entries == initial
    {
      entries := initial;
    }

    /** `insert(key, value, 0)`: overwrite the entry if the kernel accepts the write, else change nothing. */
    method Insert(key: u32, value: u32, accepted: bool) returns (r: Result<(), InsertError>)
      modifies this
      ensures r.Ok? <==> accepted
      ensures entries == if accepted then old(entries)[key := value] else old(entries)
    {
      if accepted {
        entries := entries[key := value];
        r := Ok(());
      } else {
        r := Err(InsertRejected);
      }
    }

    /** The loop body of the updater: Block writes DROP, Allow writes PASS, the outcome is discarded. */
    method Apply(c: Command, accepted: bool)
      modifies this
      ensures entries == Applied(old(entries), c, accepted)
    {
      var ignored: Result<(), InsertError>;
      match c {
        case Block(ip) =>
          ignored := Insert(Ipv4ToU32(ip), ActionCode(DROP), accepted);
        case Allow(ip) =>
          ignored := Insert(Ipv4ToU32(ip), ActionCode(PASS), accepted);
      }
    }

    /** The updater task: apply the commands in arrival order, each with its insert outcome. */
    method Drain(cmds: seq<Command>, accepted: seq<bool>)
      requires |accepted| == |cmds|
      modifies this
      ensures entries == ApplyAll(old(entries), cmds, accepted)
    {
      var i := 0;
      while i < |cmds|
        invariant 0 <= i <= |cmds|
        invariant entries == ApplyAll(old(entries), cmds[..i], accepted[..i])
      {
        Apply(cmds[i], accepted[i]);
        assert cmds[..i + 1][..i] == cmds[..i];
        assert accepted[..i + 1][..i] == accepted[..i];
        i := i + 1;
      }
      assert cmds[..i] == cmds && accepted[..i] == accepted;
    }
  }
}
