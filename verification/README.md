# A verified model of xdpacket

xdpacket matches and rewrites Ethernet frames. Its users name *fields* (extents in a packet), *rules* (match
and write operations over fields, shared states and literal values), *interfaces* and *processes* (an input
interface and a list of rule and output pairs). This project models the engine behind that in Dafny and proves
what it promises. `dafny verify dfyconfig.toml` checks all of it.

The model has three layers.

* **Primitives.** `OnesComplement` and `Checksum` are the Internet checksum of section 2 of RFC 1071 as the
  daemon computes it in place: host-order loads on a little-endian host, a 32-bit accumulator, two carries at
  the end, the pseudo-headers of RFC 9293, RFC 768 and section 8.1 of RFC 8200 summed from where their parts
  lie. `Receiver` tells the result from fixed places of the frame. `Bits` and `Operations` are the masked compare and copy between packet, state buffers and literals, over
  arrays. `Memory`, `MemoryLaws` and `Exchange` say what those operations mean and which laws they obey.
* **A reference machine by name.** `Engine` is the daemon as its user sees it: no addresses, no reference
  counts, no compiled sets; a packet is processed by looking up process, rules, fields and states by name.
  `Machine` runs it on any sequence of commands and packets and proves what all its configurations have in
  common; `Commands` says what each command does with its arguments, `Accounting` which rule gets a packet and
  what the counters tell, `Outcomes` how much of that the packets alone decide. `Registration` follows two kinds
  of rules from their command to the frame that is sent.
* **The daemon.** `Fields`, `States`, `Rules`, `Ifaces`, `Processes` and `Routs` keep the registries as the
  source does: objects updated in place, counted references, compiled sets holding addresses. `Daemon`,
  `Packets` and `Lifecycle` prove that every command, every packet, every run and the shutdown do to these
  objects what the reference machine does to the names.

`Numbers`, `Values` and `Forms` cover the text side: what is emitted for a field, an operation or a value is
read back as the same thing, or exactly when it is.

Library code appears as the parameter `Engine.Library` (whether a name is kept whole, and what a literal parses
to) and as booleans (whether a socket opens, whether a send succeeds). The macro `XDPACKET_DISALLOW_CLOBBER` is
defined in the source, so only the branches it selects are modelled.

Where code and manual disagree the model follows the code: a field of length 0 matches every packet, also one
that does not reach up to its offset (`MemoryLaws.ZeroLengthField`).

## Model

| member | source | states |
|---|---|---|
| OnesComplement.OnesSum | src/checksums.c:68-84 | the loop adds the little-endian word sum of the octets, padded if odd, to the accumulator modulo 2^32 |
| OnesComplement.TwoCarriesSuffice | src/checksums.c:90-98 | for every 32-bit accumulator two carries and a complement give the complement of the fully folded sum |
| OnesComplement.FoldUnique | src/checksums.c:90-98 | the folded sum is the only 16-bit value congruent to the true sum modulo 65535 that is zero only if the sum is |
| OnesComplement.WordSumConcat | src/checksums.c:63-67 | chunks of even length can be summed one after the other |
| OnesComplement.AccumulatorNeverWraps | src/checksums.c:143 | the accumulator cannot wrap over pseudo-header and segment of any length the guard admits |
| OnesComplement.StoredCheckAccepted | src/checksums.c:236-248 | the check stored over a zeroed field makes the receiver accept, also when 0xFFFF replaces 0 |
| OnesComplement.CutCheckAccepted | src/checksums.c:236-237 | if the data ends inside its check field the receiver accepts exactly if the octet cut off is zero |
| OnesComplement.ByteOrderIndependent | src/checksums.c:70-84 | the check from host-order words is the byte swap of the one from network-order words, trailing octet included |
| Checksum.LengthGuardMeans | src/checksums.c:160-166 | in a frame that holds its IP header the wrapping length comparison says exactly that the lengths fit |
| Checksum.SumPseudo4 | src/checksums.c:184-189 | summing addresses, protocol and length from where they lie equals summing the 12-octet pseudo-header |
| Checksum.SumPseudo6 | src/checksums.c:219-223 | likewise for the 40-octet pseudo-header of IPv6 |
| Checksum.Checksum | src/checksums.c:106-266 | return code and final frame of the in-place code are those of the reference `Checksummed`, on all paths |
| Checksum.ReceiverAccepts | src/checksums.c:155-254 | after success header and pseudo-header with segment pass the receiver's check if the segment covers its check field |
| Checksum.ReceiverVerdict | src/checksums.c:235-258 | the receiver's verdict on the segment for every accepted frame, as a condition on the frame that comes in: the segment covers its check field, or ends inside it and its folded sum is at least 0xFF00 (for UDP not 0xFFFF), or ends before it and passed already |
| Checksum.CutFrameRefused | src/checksums.c:240-247 | a UDP frame with a segment of 7 octets is reported as a success and refused by the receiver |
| Checksum.UdpCheckNotZero | src/checksums.c:243-247 | the UDP check sent is never zero |
| Checksum.NetworkOrderResult | src/checksums.c:171-258 | read in network order, the stored checks are those of the big-endian reference sums |
| Checksum.ChangesOnlyChecks | src/checksums.c:106-266 | on every path at most the IP header check and one layer-4 check change; nothing changes when a guard refuses |
| Checksum.ChecksumIdempotent | src/checksums.c:106-266 | a second run returns the same code and leaves the frame as it is |
| Receiver.ReturnCode | src/checksums.c:142-263 | the return code for every frame, from its length and the octets at 12-14, 16-20 and 23 alone; the wrapping comparisons become plain bounds |
| Receiver.HeaderSums4 | src/checksums.c:171-174 | the IPv4 header sent is accepted by the receiver, also if the protocol behind it is unknown |
| Receiver.ReceiverSums4 | src/checksums.c:155-254 | in the final frame octets 26-33, the protocol at 23, the length and the segment fold to 0xFFFF for TCP, UDP and ICMPv6, the segment alone for ICMP; a UDP check is not zero |
| Receiver.ReceiverSums6 | src/checksums.c:203-258 | the same for the IPv6 branch, with the addresses at 22-53 and the length at 18-19 |
| Receiver.ChangedOctets | src/checksums.c:171-258 | only octets 24-25 of an IPv4 frame can change, and two octets of the segment: at 16 for TCP, 6 for UDP, 2 for both ICMPs |
| Receiver.TcpFrameSent | src/checksums.c:155-238 | one TCP frame from 10.0.0.1 to 10.0.0.2, octet by octet |
| Operations.OpCommon | src/operations.c:38-62 | fails exactly if there is something to do and a packet side does not hold its field, counted from the start or back from the end; otherwise each address leaves room for its own field and the longer length is used |
| Operations.OpMatch | src/operations.c:67-84 | zero exactly if both sides fit the packet and there is nothing to compare, or each octet before the last equals its counterpart and the last ones agree under their masks |
| Operations.OpWrite | src/operations.c:89-105 | the target buffer gets the source octets, the last one blended by the masks; zero exactly if both sides fit the packet |
| MemoryLaws.ZeroLengthField | src/operations.c:43-47 | a field of length 0 always matches; it agrees with the manual exactly on packets that reach up to its offset |
| MemoryLaws.ZeroLengthFieldShort | man/xdpacket.md:180 | a packet of 3 octets matches a field of length 0 at offset 100, which the manual denies |
| MemoryLaws.MatchMeans | src/operations.c:67-84 | an operation that does not fit the packet never matches; any other matches exactly if it has no octets, or all octets agree, the last ones under their masks |
| MemoryLaws.MatchIffWriteIdle | src/operations.c:67-105 | under one mask and between disjoint regions an operation matches exactly if writing it would change nothing |
| MemoryLaws.EqualLengthsInBounds | src/operations.c:38-62 | with fields of one length no octet outside packet, state or literal is read or written |
| MemoryLaws.InsideExactly | src/operations.c:38-62 | the exact pairs of fields for which the bounds checks suffice on all packets, for every choice of packet or buffer on either side: equal lengths, a field no packet holds, or a shorter field that lies where the longer length fits too |
| MemoryLaws.UnequalLengthsOutOfBounds | src/operations.c:57-60 | an instance on a packet of 2 octets: the checks pass for 2 and 4 octets are used |
| MemoryLaws.ExecSuccess | src/rout.c:64-72 | a write list succeeds exactly if every operation fits the packet length |
| MemoryLaws.SuccessIgnoresContents | src/rout.c:64-72 | success depends on lengths and the list alone, never on contents |
| MemoryLaws.ExecConcat | src/rout.c:64-72 | a list of writes is the composition of its parts, from left to right |
| MemoryLaws.WriteFrame | src/operations.c:89-105 | a write changes nothing outside its target |
| MemoryLaws.WriteKeepsUnmasked | src/operations.c:102-103 | in the last octet of its target only bits of the target's mask change |
| MemoryLaws.ExecFrame | src/rout.c:64-72 | a write list changes nothing outside the targets of its operations |
| MemoryLaws.ExecKeepsUnmasked | src/rout.c:64-72 | of every octet a write list changes at most the bits in the union of what its writes cover there: the mask in a last octet, all bits in the others |
| MemoryLaws.MatchAfterWrite | src/operations.c:67-105 | after a write between disjoint regions the same operation matches exactly if no source bit was lost to the target's mask |
| MemoryLaws.WriteIdempotent | src/operations.c:89-105 | writing again between disjoint regions changes nothing |
| MemoryLaws.WritesCommute | src/operations.c:89-105 | two writes commute if neither target overlaps a region of the other |
| MemoryLaws.ReorderInRule | src/rout.c:64-72 | swapping two such neighbours anywhere in a rule never changes whether it succeeds; it leaves the same memory exactly if both or neither fit the packet, or the one that fits changes nothing |
| MemoryLaws.ReorderLeavesTrace | src/rout.c:64-72 | a rule where the swap changes what is left in a state, because one of the two writes does not fit |
| Exchange.SwapProgramExchanges | test/op_test.c:113-133 | the three writes through a state exchange two disjoint fields of one extent and touch no other bit of the packet |
| Exchange.ExchangedLastOctets | src/operations.c:102-103 | in the last octets of the two fields the mask bits change places and all other bits stay |
| Exchange.SwapProgramTwice | test/op_test.c:113-133 | run twice they restore the packet |
| Exchange.SwapRuleResolves | src/memref.c:108-131 | a rule with this program exists only for fields of one length and mask, and its writes resolve to the program |
| Exchange.SwapRuleExchanges | test/op_test.c:113-133 | in every sound configuration such a rule exchanges the two fields of each packet that holds them apart |
| Registration.SwapBuildsExactly | src/operations.c:149-174 | the three writes of a swap can all be created exactly if the fields have one length and mask and the state is new or has that extent |
| Registration.SwapSession | src/rule.c:182-204 | from the command to the wire: rule and process are accepted, and the next packet that the rule matches leaves with the two fields exchanged and its checks filled in |
| Registration.ValueSession | src/rule.c:171-204 | a rule that tests one field for a value and sets another takes exactly the packets that hold the value; they leave with the other field set, or as they came if it does not fit them |
| Fields.FieldTable.New | src/field.c:46-104 | a field is registered exactly if the name is free and the values fit; 0xff stands in for a zero mask |
| Fields.FieldTable.Delete | src/field.c:13-31 | a field goes exactly if nothing refers to it |
| States.StateTable.Get | src/memref.c:116-154 | an existing state needs the field's length and mask, a new one starts as zeroes; one more reference, or nothing changes |
| States.StateTable.Release | src/memref.c:26-58 | the last reference takes the state out of the registry, others leave it |
| States.StatesDetermined | src/memref.c:26-58 | which states are registered is determined by the references held |
| Rules.RuleTable.OpNew | src/operations.c:125-179 | succeeds exactly when the reference does, with the same states; a failure leaves all counts and registries as they were |
| Rules.RuleTable.OpFree | src/operations.c:109-120 | gives every reference of the op back and keeps all other counts exact |
| Rules.RuleTable.RuleNew | src/rule.c:69-108 | takes charge of its ops: registered with them, or all of them freed |
| Rules.RuleTable.DeleteRule | src/rule.c:35-55 | refused while referenced; states no other rule names go with the rule |
| Rules.RuleTable.DeleteField | src/field.c:218-227 | the count that guards deletion is zero exactly if no rule names the field |
| Ifaces.HandlerRegister | src/iface.c:228-238 | refused exactly if a different handler context is installed |
| Ifaces.HandlerClear | src/iface.c:242-252 | refused unless the same handler context is installed |
| Processes.Router.RoutNew | src/rout.c:98-125 | a rout exists exactly if both names do; otherwise the reference taken is given back |
| Processes.Router.ProcessNew | src/process.c:71-117 | takes charge of its routs: installed as handler with their compiled queue, or all of them freed |
| Processes.Router.ProcessFree | src/process.c:30-55 | handler, interface reference, registration and all routs of the process go, and nothing else |
| Daemon.AddField | src/field.c:207-216 | answer and resulting configuration are those of the reference machine; all invariants are kept |
| Daemon.DelField | src/field.c:218-227 | likewise |
| Daemon.AddRule | src/rule.c:201-210 | likewise, the states that its operations create included |
| Daemon.DelRule | src/rule.c:212-221 | likewise, the states that disappear included |
| Daemon.AddIface | src/iface.c:324-336 | likewise |
| Daemon.DelIface | src/iface.c:338-352 | likewise: an interface goes exactly if no process is on it or outputs to it |
| Daemon.AddProcess | src/process.c:195-204 | likewise |
| Daemon.DelProcess | src/process.c:206-214 | likewise |
| Daemon.FieldCountExact | src/field.c:109-126 | a field's count is the number of op slots in registered rules that refer to it |
| Daemon.StateCountExact | src/memref.c:26-58 | a registered state's count is the number of such slots, and positive |
| Daemon.RuleCountExact | src/rule.c:113-129 | a rule's count is the number of routs in registered processes that use it |
| Daemon.IfaceCountExact | src/iface.c:181-197 | an interface's count is the number of routs that output to it plus one if a process is on it |
| Packets.QueuedIsCompiled | src/rout.c:23-38 | the compiled lists and output of every queued rout are those its rule and interface have by name |
| Packets.HandlerKnown | src/process.c:111-115 | the handler of an interface is its process, called with the compiled queue of that process |
| Packets.RoutSetMatch | src/rout.c:46-56 | over the compiled list: true exactly if the rule, looked up by name, matches; then one counter rises and nothing else |
| Packets.RoutSetExec | src/rout.c:64-72 | over the compiled list: result, packet and states are those of the rule looked up by name |
| Packets.IfaceOutput | src/iface.c:256-283 | fate, counters and frame are those of the reference |
| Packets.ProcessExec | src/process.c:123-139 | the hot path over compiled sets equals the interpreter by name: fate, configuration, packet |
| Packets.IfaceCallback | src/iface.c:202-223 | the same for a received packet, the counters of the interface included |
| Lifecycle.Start | src/process.c:10 | the daemon starts sound, with nothing configured |
| Lifecycle.Serve | src/xdpacket.c:130-192 | from start over any commands and packets to shutdown: the answers of the reference machine, and no refused free at the end |
| Lifecycle.Run | src/xdpacket.c:175-180 | any run of commands and packets gives the answers, packets and configuration of the reference machine |
| Lifecycle.Shutdown | src/xdpacket.c:182-190 | in the order of main() no free is refused and the five registries end up empty |
| Machine.EmptySound | src/process.c:10 | the empty configuration is sound, so every configuration reached from it is |
| Machine.StepSound | src/operations.c:125-180 | every command and packet keeps names resolvable, states fitting their fields and exactly the states in use |
| Commands.AcceptedExactly | src/field.c:46-104 | when each command is accepted, from its own arguments and the names in use (for rules src/rule.c:201-221, interfaces src/iface.c:324-352, processes src/process.c:195-214); a refused command changes nothing |
| Commands.AcceptedDoes | src/field.c:207-227 | what each accepted command, of fields as of rules, interfaces and processes, puts in place or takes away; everything else stays as it is |
| Commands.BuildsExactly | src/operations.c:125-179 | an operation is created exactly if its parts are a combination the manual lists, its fields exist, its states suit them, and its value can be read |
| Commands.BuildLeaves | src/memref.c:116-154 | exactly the states it names come into being, filled with zeroes, and no other state changes |
| Commands.NewStatesZeroed | src/memref.c:116-154 | a list of operations leaves the states that were there as they are, and starts all others as zeroes |
| Commands.OpsKeepOrder | src/rule.c:170-187 | the operations registered are those that can be created at their turn, in the order they were written in |
| Commands.RuleAsWritten | src/rule.c:201-204 | a rule whose operations can all be created holds exactly the two lists given |
| Commands.RuleKeepsOrder | src/rule.c:201-204 | a rule holds, of each list, exactly the operations that can be created, in order |
| Commands.RoutsKeepOrder | src/process.c:169-183 | a process has one rout for each pair whose two names exist, in the order given, its counter at zero |
| Machine.BuildOpsFit | src/operations.c:149-174 | the operations that could be built resolve and fit the states left behind; each new state is named by one of them |
| Machine.EqualLengthsInside | src/operations.c:149-174 | in any sound configuration an operation on one field stays inside packet, states and literals for all packets |
| Machine.InsideOnAllPackets | src/operations.c:149-174 | an operation of a sound configuration is defined on all packets exactly if its two fields are such a pair |
| Machine.UnequalLengthsAccepted | src/operations.c:125-179 | op_new() accepts a 4-octet source for a 2-octet target at the end of a 60-octet frame, and the write leaves the frame |
| Machine.RegularDefined | src/process.c:123-139 | with such pairs of fields and copies between regions apart, selection and writes are defined for all contents |
| Machine.ReceiveSame | src/iface.c:202-223 | a packet changes counters and contents of states, nothing else of the configuration |
| Accounting.SelectIsFirst | src/process.c:123-139 | the rule selected is the one with the least index, in queue order, all of whose matches hold |
| Accounting.FirstHitHasIt | src/process.c:123-139 | the first rule that hits has the packet: its writes run and no other's, its counter rises and no other, and success of the writes, return code of the checksum and success of the send, in this order, give the fate, the final octets and the output named by that rule |
| Outcomes.FateByInput | src/iface.c:202-223 | which packets are empty, outgoing or without a process is decided by the packet and the names alone; they stay as they are |
| Outcomes.CountersByInput | src/iface.c:209-221 | over any run of packets count_out rises by the non-empty outgoing packets on an interface and count_in by the incoming ones, counted from the input |
| Outcomes.SendsDecide | src/iface.c:256-283 | a packet whose first matching rule can be written and checked is sent if the interface takes it and dropped if not; no other packet is |
| Outcomes.SendsDecideRun | src/iface.c:256-283 | over any run, commands included, the packets sent and those dropped are counted by whether the interface takes them |
| Accounting.EveryPacketHasOneFate | src/process.c:123-139 | over any run, commands included, the packets that arrive for a process = unmatched + write-failed + check-failed + send-failed + sent |
| Accounting.AllArriveFor | src/iface.c:202-223 | without commands in between these are all non-empty incoming packets on its interface |
| Accounting.RunCounts | src/iface.c:256-283 | over any run of packets the counters of routs and interfaces move by exactly the packets of their class, modulo their width |
| Accounting.TakenBySomeone | src/rout.c:46-56 | summed over its routs, the packets counted are the packets matched |
| Accounting.FailuresAddUp | src/iface.c:256-283 | over any run of packets the failures summed over the interfaces are those summed over the processes, for checksums as for sends |
| Accounting.FailureCountersAddUp | src/iface.c:256-283 | so the failure counters of the interfaces rise in sum by the two output-failure classes, modulo their width |
| Numbers.DecimalRead | src/field.c:264-265 | a printed decimal is read back by strtol() with base 0 as the same number, never as octal |
| Numbers.HexRead | src/field.c:270 | the same for 0x%x |
| Numbers.OctalRead | src/field.c:187 | a leading zero is read as octal |
| Numbers.SpaceSkipped | src/field.c:187 | white space in front of a number does not matter |
| Numbers.DecimalThen | src/field.c:187 | text behind a decimal number does not matter |
| Values.IntegerOctetsMean | src/value.c:111-160 | which integers fit which lengths, and that the octets are two's complement in network order |
| Values.DecimalParses | src/value.c:102-161 | the decimal text of any integer gives its octets, most significant first, exactly if it fits a length of 1, 2, 4 or 8; otherwise it is refused |
| Values.RenderRoundTrip | src/value.c:209-226 | parsing a rendered value of up to 8 octets gives it back exactly for lengths 0, 1, 2, 4, and 8 with the first bit clear; all others are refused |
| Forms.FieldParse | src/field.c:170-203 | the loop over a mapping reads what the reference reads, the last of equal keys counting; a number that is no scalar is undefined behaviour and reported as such |
| Forms.FieldArguments | src/field.c:180-203 | each argument comes from the last pair with its own key, long or short, and from no other pair |
| Forms.FieldReadsExactly | src/field.c:186-199 | reading ends early exactly if one of the number keys has no number |
| Forms.ShortFieldKeys | src/field.c:182-195 | replacing short keys by long ones never changes what is read |
| Forms.FieldRoundTrip | src/field.c:254-278 | reading an emitted field and creating it anew yields the same offset, length and mask |
| Forms.OpParse | src/operations.c:184-247 | the nested loops read what the reference reads |
| Forms.SideArguments | src/operations.c:200-238 | each part of a side comes from the last pair with its own key, the other side is untouched, and only an unknown key ends the reading |
| Forms.OpArguments | src/operations.c:196-245 | an operation is read exactly if all its keys are known, inside and out; each of its five parts is then the last one given for it on its own side |
| Forms.ShortOpKeys | src/operations.c:196-238 | replacing short keys by long ones, inside and out, never changes what is read |
| Forms.OpRoundTrip | src/operations.c:252-292 | reading an emitted operation yields the same five names |
| Forms.OpRebuilt | src/operations.c:184-292 | in the configuration it came from it can be built again, joins the same states and resolves to the same addresses and extents |

## Left out

- Sockets, ioctl, epoll, signals, `main` itself and the read loop of `src/parse2.c`: I/O; opening and sending are booleans.
- libyaml and the dispatch of commands by key: commands are values of `Machine.Command`, mappings are lists of pairs; `match` lists are built before `write` lists.
- The 16384-octet receive buffer: `Packets.IfaceCallback` starts from what recvfrom() has left in it.
- Judy arrays: registries are maps and queues are sequences; iteration order over a registry is left open.
- nstralloc() and all branches of value_parse() but the integer one: library code, represented by `Engine.Library` and `Values.Parsed.OtherForm`.
- Daemon.AddIface: refuses a name that is not kept whole; before it does, src/iface.c:91-94 calls iface_free() on an interface with descriptor 0 and no hardware address, so the code closes descriptor 0 and its log message reads a null address.
- Allocation failure, and the wrap-around of 32-bit reference counts.
- The abort paths of src/rule.c:195 and src/process.c:189, and routs parsed when deleting or printing, which do not give back what they took: only complete commands are modelled.
- Accesses outside a buffer, which only fields of different lengths can cause, and overlapping copies within a packet: undefined behaviour in C, excluded by `Memory.CanRead` and `Memory.CanWrite`. `MemoryLaws.InsideExactly` says which fields cause the first.
- Frames too short for the headers they announce: the code reads past them; excluded by `Checksum.InFrame`.
- IPv6 beyond its pseudo-header: src/checksums.c:147 refuses its ethertype, so the IPv6 branch, which is modelled, is reached only by frames that carry the IPv4 one.
- field_hash() and FNV: not on the packet path.
- Logging, the emit functions' YAML layout beyond keys and values, and the read-only print commands.
- Concurrency: the daemon is single-threaded.
