# ebpfapp: decision records and the policy-table updater, in Dafny

ebpfapp is a small XDP firewall. Its user-space side expects an in-kernel
program to emit one fixed-layout `PacketLog` record per frame on the `EVENTS`
perf array. User-space observers read these records, turn each into a
`Command` (block the source of an ICMP packet, allow any other source), and one
updater task applies the commands to the `ACTION_LIST` table that maps a
source address to an XDP action code. The in-kernel program in this repository
(ebpfapp-ebpf/src/main.rs) passes every frame and emits nothing.

The model covers that user-space chain:

- `common.dfy`, module `Common` (ebpfapp-common/src/lib.rs): the enumerations
  `PacketType` (discriminants 0 to 3) and `XdpAction` (codes 0 to 4), and the
  packed 13-byte `PacketLog`. The layout is written as an explicit `Encode`/`Decode`
  pair over bytes. The byte order is fixed once: the record is in native order
  and the BPF object is built for the little-endian `bpfel` target.
- `parser.dfy`, module `Parser` (ebpfapp/src/parser.rs): `Ipv4Addr` with the
  standard library's `u32` conversions (big-endian octets), `to_str`, the
  `Packet` view, and `parse_buf` as a checked decoder.
- `app.dfy`, module `App` (ebpfapp/src/main.rs): `Command`. The observer rule
  and one batch of an observer form a method with a loop. The table is a class
  `ActionList` holding a `map<u32, u32>`, with `Insert`, `Apply` (one step of the
  updater loop) and `Drain` (the updater loop over a sequence of commands).
  They are specified by the pure functions `Applied`/`ApplyAll`. Lemmas state
  last-writer-wins, "keys never named are unchanged", and that only DROP and
  PASS are written.
- `wrappers.dfy`, module `Wrappers`: `Option` and `Result`.

Modelling decisions:

- Integers are `u8`/`u32` subset types of `int`. No arithmetic in the chain
  wraps.
- The source reads the record with an unchecked unaligned read.
  - A buffer shorter than 13 bytes, an action word above 4 or a type byte
    above 3 would be undefined behaviour there.
  - Here `Decode` and `ParseBuf` return `Err(Truncated)`, `Err(InvalidAction)` or
    `Err(InvalidPacketType)`, checked in field order.
  - One observer batch has no error path in the source, so `ObserveBatch`
    requires every read buffer to hold a valid record.
- Whether the kernel accepts an `insert` is outside the program. It is the
  parameter `accepted`. A refused insert changes nothing and the updater goes
  on.
- The commands from all observers reach the updater as one sequence in
  arrival order. Any interleaving of the observers is such a sequence.

Facts about the code that the model keeps:

- `PacketType` is encoded by its declaration-order discriminant (0 to 3), not
  by an IP protocol number.
- The action field is a 32-bit word.
- `ACTION_LIST`'s capacity is set where the map is defined, outside ebpfapp's
  user-space code, so the table is modelled without a bound.
- The in-kernel program (ebpfapp-ebpf/src/main.rs) classifies nothing (see
  "Left out").

The user-space crate does not compile as written, and the model resolves each
problem:

- `Packet.action` is declared `u32` (ebpfapp/src/parser.rs:8) but is given an
  `XdpAction` (ebpfapp/src/parser.rs:36). The model stores the action's 32-bit code.
- ebpfapp/src/main.rs:19 imports `ParserToString`, while the trait is
  `PacketToString` (ebpfapp/src/parser.rs:12).
- ebpfapp/src/main.rs:88 calls `to_str` on that `u32` action. This is part of
  the printing, which is not modelled.

## Model

| member | source | states |
|---|---|---|
| Common.U32ToLe | ebpfapp/src/main.rs:111-113 | a u32 field occupies four little-endian bytes, and reading them back gives the value |
| Common.LeDecodeEncode | ebpfapp/src/main.rs:111-113 | any four bytes read as a little-endian u32 and written back are the same four bytes |
| Common.PacketTypeCode | ebpfapp-common/src/lib.rs:13-19 | a packet type's discriminant byte is below 4 |
| Common.PacketTypeFromCode | ebpfapp-common/src/lib.rs:13-19 | a type byte denotes a packet type exactly when it is below 4 |
| Common.PacketTypeCodeRoundTrip | ebpfapp-common/src/lib.rs:13-19 | decoding a discriminant gives the packet type back, and a valid byte is the discriminant of what it decodes to |
| Common.PacketTypeCodeInjective | ebpfapp-common/src/lib.rs:12-19 | two packet types have equal discriminants exactly when they are the same variant |
| Common.ActionCode | ebpfapp-common/src/lib.rs:22-29 | an action's code is at most 4 |
| Common.ActionFromCode | ebpfapp-common/src/lib.rs:22-29 | a 32-bit word denotes an action exactly when it is at most 4 |
| Common.ActionCodeRoundTrip | ebpfapp-common/src/lib.rs:22-29 | decoding an action code gives the action back, and a valid word is the code of what it decodes to |
| Common.ActionCodeInjective | ebpfapp-common/src/lib.rs:23-29 | two actions have equal codes exactly when they are the same action |
| Common.Encode | ebpfapp-common/src/lib.rs:3-10 | a record is 13 bytes: source word at 0, destination word at 4, action word at 8, type byte at 12, no padding |
| Common.Decode | ebpfapp-common/src/lib.rs:3-10 | bytes decode exactly when there are at least 13, the action word is at most 4 and the type byte is below 4; fewer than 13 bytes is the Truncated error |
| Common.DecodeEncode | ebpfapp-common/src/lib.rs:3-10 | decoding the encoding of any record gives that record |
| Common.EncodeDecode | ebpfapp-common/src/lib.rs:3-10 | a buffer that decodes starts with exactly the encoding of the decoded record |
| Common.DecodeReadsPrefix | ebpfapp/src/parser.rs:28-29 | two buffers that agree on their first 13 bytes decode alike |
| Parser.Ipv4FromU32 | ebpfapp/src/parser.rs:30-31 | the address built from a word converts back to that word |
| Parser.Ipv4RoundTrip | ebpfapp/src/main.rs:44-47 | converting an address to a word and back gives the same address |
| Parser.Ipv4OfLeBytes | ebpfapp/src/parser.rs:30-31 | an address built from a stored little-endian word has the stored bytes, reversed, as its octets |
| Parser.ToStrInjective | ebpfapp/src/parser.rs:16-24 | the four display names are distinct: equal names mean equal packet types |
| Parser.ParseBuf | ebpfapp/src/parser.rs:27-39 | parsing succeeds exactly when the record decodes, and otherwise fails with the decoder's error; source and destination octets are bytes 3..0 and 7..4; action is the raw word at 8 (at most 4); the type is the one whose discriminant is byte 12 |
| Parser.ParseBufReadsPrefix | ebpfapp/src/parser.rs:28-29 | bytes after the first 13 do not change the result |
| Parser.ParseEncoded | ebpfapp/src/parser.rs:27-39 | a buffer starting with an encoded record parses to that record's view whatever follows, and the view's addresses convert back to the record's raw words |
| App.Decide | ebpfapp/src/main.rs:66-71 | the command is Block exactly when the packet is ICMP and Allow otherwise, and names the packet's source |
| App.KeyOf | ebpfapp/src/main.rs:43-48 | the key a command writes is the word whose address is the command's address |
| App.ValueOf | ebpfapp/src/main.rs:43-48 | Block writes 1 (DROP), Allow writes 2 (PASS), and the value decodes to that action |
| App.CommandOfRecord | ebpfapp/src/main.rs:65-71 | the command for a record is keyed by the record's raw source word (not its destination word) and writes DROP exactly for ICMP |
| App.ObserveBatch | ebpfapp/src/main.rs:61-73 | one command per read buffer, in buffer order, each the decision for that buffer's record, keyed by its raw source word, Block exactly for ICMP |
| App.Applied | ebpfapp/src/main.rs:42-49 | an accepted command sets its key to its value; a refused one changes nothing; other keys never change |
| App.LastWriter | ebpfapp/src/main.rs:41-50 | the index found is an accepted command naming the key, and no later accepted command names it |
| App.LastWriterWins | ebpfapp/src/main.rs:41-50 | after a command sequence each key holds the value of the last accepted command naming it; keys never named are unchanged, present or absent |
| App.WrittenValuesArePolicyCodes | ebpfapp/src/main.rs:43-48 | every entry after the updater is either unchanged from before or 1 or 2 |
| App.KeysAfterApply | ebpfapp/src/main.rs:41-50 | the table's keys afterwards are the old keys plus the keys of the accepted commands |
| App.PolicyAfterBatch | ebpfapp/src/main.rs:40-73 | after a batch's commands are applied, a record's raw source maps to DROP if it is ICMP and to PASS otherwise, when its insert was accepted and no later accepted record shares its source |
| App.ActionList.constructor | ebpfapp/src/main.rs:36 | the table starts with the given contents |
| App.ActionList.Insert | ebpfapp/src/main.rs:44 | an accepted insert overwrites the key and reports success; a refused one reports failure and changes nothing |
| App.ActionList.Apply | ebpfapp/src/main.rs:42-49 | one updater step leaves the table as Applied describes, discarding the insert's outcome |
| App.ActionList.Drain | ebpfapp/src/main.rs:40-51 | applying commands in arrival order leaves the table as ApplyAll describes |

## Left out

- The in-kernel program (ebpfapp-ebpf/src/main.rs) returns XDP_PASS for every
  frame and does no header parsing, table lookup or record emission
  (ebpfapp-ebpf/src/main.rs:18-20). No classifier is modelled.
- xtask (xtask/src/main.rs) dispatches to its build_ebpf, codegen and run
  modules, which are build tooling.
- Process setup is I/O and foreign calls: option parsing, logging, loading and
  attaching the BPF object, waiting for Ctrl-C (ebpfapp/src/main.rs:93-127).
- Concurrency is not modelled: the tokio tasks, the channel of capacity 32, the
  per-CPU perf buffers, `online_cpus` and `read_events`. One observer's batch is
  a method. The updater consumes one arrival-ordered sequence.
- A failed `tx.send` is an ignored loss at shutdown and is not modelled.
- All `println!` output of `parse_and_log_packet` is left out. Without it that
  function is `parse_buf`, so `ObserveBatch` calls `ParseBuf` directly.
- The `to_str` result computed at ebpfapp/src/parser.rs:32 is discarded, so it
  has no counterpart in `ParseBuf`.
- The aya `HashMap` is an unbounded map. Its capacity is set where the map is
  defined, outside ebpfapp's user-space code, and the kernel's reasons for
  refusing an insert lie outside the program. Both are summarised by the
  `accepted` flag.
- The `unsafe` unaligned read and the `aya::Pod` impl are replaced by the
  explicit decoder.
- ObserveBatch: excludes, by precondition, buffers that do not hold a valid
  record. The source reads them without a check, and the result is undefined.
