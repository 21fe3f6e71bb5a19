# A model of ebpfdivert in Dafny

ebpfdivert gives Linux the WinDivert interface: an application opens a handle with a filter
expression, and packets (or socket and flow events) that the filter accepts are diverted to it,
observed or dropped. Inside the kernel only simple masked rules can be matched, so the library
lowers each filter to rules that must never lose a packet the filter accepts, and checks again in
user space whatever the rules could not decide. This project models that path and the protocols
around it, and proves what the code promises.

The main results, in the order a packet meets them:

- **Compiling** (`Simplify`, `Compile`, `Filter`). Every and/or/?: expression whose folded tests fit
  in 256 instructions compiles to an object that the evaluator decides as the expression reads
  (`Compile.CompileFilter`, `Compile.CompileThenExecute`). Folding a test by the range of its field
  is exact where the field is defined; where it is not, `Simplify.SimplifyIff` says exactly when the
  truth changes.
- **Reading** (`Packets`, `Wire`, `HeaderFields`, `Values`, `Ends`, `Payload`). The readers undo a writer that
  lays packets out most significant byte first (`Wire.Written4`, `Written6`); every header field but one has
  the value of the bits the standards give it (`Values.FieldsAreBits`), the compiler's table of ranges is the
  range of those bits (`HeaderFields.RangeIsBits`), and which ends of which ranges packets show is settled
  (`Ends.EndsOccur`, `EndsMissed`).
- **Lowering** (`Range`, `Addr`, `Cube`, `Constrain`, `Split`, `SplitEvent`, `Walk`, `Prefix`,
  `Encode`, `EncodeAddress`, `Tight`, `Exactness`, `Lower`, `EventRules`, `Foreign`). The walk over the decision graph finds
  the cubes `Walk.CubesOf` unless they exceed its budget; they catch every accepted input, and those
  still marked exact hold only accepted inputs. The rules are a superset of the filter and equal to
  it when flagged exact (`Walk.Context.Walk`, `Lower.Lower`, `EventRules.LowerEvents`), with the exact
  conditions on addresses under which the encoding keeps this promise (`EncodeAddress.Sound4Iff`,
  `Exact4Iff`, `Exact128Iff`), conditions on the literals that imply them, and filters that fail them
  (`Foreign`). Exact or not, a cube keeps every test of its path but those it has no place for
  (`Tight.BranchTight`, `Tight.Traced`, `Lower.RenderedOnPaths`), and it stays exact unless there is one
  (`Exactness.BranchExact`, `Exactness.WalkExact`).
- **Capturing** (`Rules`, `Capture`, `Reach`, `Open`). Compiling, analysing, lowering, matching
  in the kernel and re-evaluating in user space together do what the expression says to every packet
  that is offered to the handle and fits the ring (`Open.FilterPacket`), from the packet's bytes as two
  different parsers read them (`Open.FilterBytes`).
- **Chaining** (`Chain`). Handles that divert and re-inject one packet do so in strictly increasing
  TC priority in every run, through the lo redirect as well, exactly when there is no forward-layer
  handle or no interface without programs can be named by a redirect; at one hook each network-layer
  handle is offered the packet exactly once. Automatic priorities are the least free ones, and
  handles opened that way meet what this asks of priorities while there are numbers left.
- **Queueing and closing** (`Queue`, `Close`), as a class with its history and as interleavings; a handle
  that is being closed is never freed too early and can always be freed.
- **Text and numbers** (`Codec`, `Stream`, `Reload`, `BigNum`, `Decimal`, `Hex`, `Ipv4Text`, `Ipv6Text`,
  `Ipv6Grammar`, `Ipv6Bounds`, `Checksum`): the object format, 128-bit decimal and hexadecimal numbers, addresses and
  Internet checksums.

The hypotheses are named predicates. `Cube.AgreeingPacket` and `AgreeingEvent` say that evaluator and
kernel see the same input; `Cube.Unmapped` (asked only of filters that test `localAddr` or `remoteAddr`
for equality with an IPv4 literal) that an IPv6 packet carries no IPv4-mapped address, because the code
tells the family by the literal; `Walk.Lowerable` that jumps go forward and no literal is negative where
it is taken as unsigned, which every compiled object satisfies; `Lower.Encodable` and `Clean` are the
exact conditions on the cubes of a filter, and `Walk.LiteralsFit` and `LiteralsClean` conditions on its
literals that imply them; `Simplify.OthersTyped` that field values are in the ranges the compiler assumes,
which holds of a packet iff it has at most 65575 bytes and of every event (`Values.PacketsAreTyped`,
`Values.EventsAreTyped`).

Where the code departs from its design, the model follows the code. The places, each with its
condition or an example, are: an IPv4 rule for an address interval with a hole that is no IPv4
address loses packets (`LowerHole`, `Sound4Iff`); a prefix that neither contains nor lies in
`::ffff:0:0/96` is matched too widely on IPv4 although flagged exact (`LowerPrefix`, `Exact4Iff`); so
is exactly that block with a hole on IPv6 (`LowerBlock`, `Exact128Iff`); a folded test on a missing
header can come out true (`FoldedOnMissingHeader`, `SimplifyIff`); the IPv6 flow label is read right, on a
little-endian machine, exactly when it is zero, and then need not be in its range (`FlowLabelIff`,
`FlowLabelMisread`); the eight bits of the type of service are given a range of sixteen (`RangeIsBits`); seven fields are missing from the
table of ranges, so their literals are cut to one word (`LiteralKeptIff`); `0` and `-0` compare equal
in the lowering only (`ZeroTestIsMeets`); an object of 256 tests is written as empty
(`FilterRoundTrip`); a text that fills its buffer exactly loses its last character unreported
(`Stream.Writer.SerializeFilter`); an IPv4 octet is judged by its low 32 bits (`OctetWraps`); behind
eight groups and a colon the IPv6 parser accepts any text (`AnythingAfterEight`,
`AcceptedIff`), and for seven groups and an IPv4 address behind a leading `::` it reads one
element behind its array (`StrayIff`, `OutOfBounds`); a forwarded packet redirected to an interface
without programs can be diverted twice (`DivertedTwice`, `IncreaseIff`); an IPv6 packet that carries an
IPv4-mapped address escapes a filter on its local or remote address (`Split.GuessVersion`).

`dafny verify dfyconfig.toml` covers all files.

## Model

| member | source | states |
|---|---|---|
| `Words.Cmp128` | src/prefilter.c:242-253 | the sign returned orders the 128-bit numbers |
| `Words.Inc128` | src/prefilter.c:268-273 | the next number, all ones wrapping to zero |
| `Words.Dec128` | src/prefilter.c:275-280 | the previous number, zero wrapping to all ones |
| `Words.MappedIsInterval` | src/prefilter.c:518-521 | a value is IPv4-mapped exactly when it lies in `::ffff:0:0/96` |
| `Filter.ExecuteFilter` | src/wd/windivert_shared.c:998-1736 | answers 1 iff execution reaches ACCEPT; the step budget never ends it, so -1 only for a field invalid at the layer |
| `Filter.CompareBig` | src/wd/windivert_shared.c:911-960 | on non-negative operands the word-wise comparison is the comparison of the numbers |
| `Range.Normalize` | src/prefilter.c:103-151 | the same values, with no hole outside or on an edge; an empty range has one form; which range it is |
| `Range.Apply` | src/prefilter.c:153-225 | no value of the range that meets the test is lost; the result is exact unless a fifth hole was dropped, and exactly then the flag is cleared |
| `Addr.Apply` | src/prefilter.c:282-370 | no address that meets the test is lost; the result is exact unless a second hole was dropped, and exactly then the flag is cleared; ends only move inwards |
| `Constrain.SetVer` | src/prefilter.c:387-395 | the cube's inputs of that version, or none |
| `Constrain.SetProto` | src/prefilter.c:397-402 | the cube's inputs of that protocol |
| `Constrain.Number` | src/prefilter.c:153-225 | the cube's inputs whose number meets the test; the exact flag is cleared iff a hole is asked for that has no room, and then that value is kept |
| `Constrain.Address` | src/prefilter.c:282-370 | the same for an address, the flag cleared iff a second hole is asked for, with what happens to the ends of the interval |
| `Constrain.CubeHasHeaderIsSound` | src/prefilter.c:410-448 | a header the cube is said to imply is there on all its inputs |
| `Constrain.RequireHeader` | src/prefilter.c:450-516 | the cube's inputs that have the field's header, and only those |
| `Constrain.ApplyBool` | src/prefilter.c:523-556 | a known or unknown bit keeps exactly the values that meet the test |
| `Constrain.ZeroTestIsMeets` | src/prefilter.c:558-571 | the shortcut for a zero value agrees with the evaluator iff the literal is not a negative zero |
| `Split.TruthBounds` | src/wd/windivert_shared.c:1001-1722 | on an agreeing packet the kernel's view bounds the evaluator's test from both sides |
| `Split.Widen` | src/prefilter.c:1057-1066 | an inexpressible test keeps the cube and clears the exact flag |
| `Split.DirectionArm` | src/prefilter.c:811-823 | the inputs that may pass an inbound or outbound test, exactly |
| `Split.LoopbackArm` | src/prefilter.c:824-826 | the same for loopback |
| `Split.VersionArm` | src/prefilter.c:827-838 | the same for ip and ipv6 |
| `Split.ProtocolArm` | src/prefilter.c:839-886 | the same for tcp, udp, icmp and icmpv6, the failing case split into other protocol and other version |
| `Split.NumberArm` | src/prefilter.c:887-913 | the same for protocol, TTL, ports, ICMP type and code; whether or not the cube is exact, the result lies inside it and inside the test, unless that is a TTL order test or one hole too many |
| `Split.FlagArm` | src/prefilter.c:914-934 | the same for a TCP flag |
| `Split.AddressArm` | src/prefilter.c:935-965 | the same for an address; IPv4 holes stay IPv4, and IPv4 intervals keep the shape that makes their encoding honest |
| `Split.ClampMapped` | src/prefilter.c:947-962 | clamping an IPv4 interval to the mapped block changes none of its packets |
| `Split.EndpointAddrArm` | src/prefilter.c:966-1056 | local and remote addresses split by direction: complete, but for IPv6 packets with an IPv4-mapped address and an equality with an IPv4 literal; precise where exact; the same shapes kept |
| `Split.GuessVersion` | src/prefilter.c:1031-1041 | of the packets equal to the literal, guessing the family by it loses exactly the IPv6 ones with an IPv4-mapped address |
| `Split.EndpointPortArm` | src/prefilter.c:966-1056 | local and remote ports split by protocol and direction: complete, precise where exact |
| `Split.Absent` | src/prefilter.c:600-666 | the inputs without the field's header: all of them, and only them where exact |
| `Split.PacketBranch` | src/prefilter.c:736-1067 | one outcome of one test: every input with that outcome is in a cube, exact cubes hold only such inputs, addresses stay clean, and which cubes they are |
| `Split.NegativeBranch` | src/prefilter.c:762-795 | a failed test is the missing header or the negated test, both covered |
| `Split.ZeroBranch` | src/prefilter.c:747-754 | a constant test goes one way only |
| `SplitEvent.EventBranch` | src/prefilter.c:672-734 | one outcome of one test on an event: complete and precise as for packets |
| `Walk.SplitOn` | src/prefilter.c:736-760 | the same for either kind of layer |
| `Walk.Context.Emit` | src/prefilter.c:1086-1094 | records the cube unless there is no room, which is reported |
| `Walk.Context.Continue` | src/prefilter.c:584-594 | from a label on: accepted inputs are captured, exact cubes faithful |
| `Walk.Context.Branch` | src/prefilter.c:736-1067 | the same for one outcome of a test |
| `Walk.Context.Walk` | src/prefilter.c:1069-1084 | the cubes of all accepting paths in order, over the budget iff they or the tests visited are too many; every accepted input of the cube lies in one, every exact one holds only accepted inputs, earlier cubes stay, and the walk ends on any object |
| `Range.NarrowHas` | src/prefilter.c:153-225 | what is left of a range are its values that pass the test, or all of them iff there is no room for the hole |
| `Addr.NarrowHas` | src/prefilter.c:282-370 | the same for an address interval |
| `Tight.ArmsTight` | src/prefilter.c:797-1066 | every cube of an arm, exact or not, lies inside its cube and inside what may pass, unless the test is dropped: a TTL order test, a hole without room, a local or remote address of open version |
| `Tight.BranchTight` | src/prefilter.c:736-1067 | for one outcome of a test: every packet of every cube comes from the cube before, and the test comes out that way, unless this outcome is one the cubes cannot keep |
| `Tight.Traced` | src/prefilter.c:1069-1084 | every packet of every cube a walk finds takes an accepting path on which each test it can express comes out as the path says |
| `Tight.SelectedIsAccepted` | src/prefilter.c:1069-1084 | where no outcome is lost on the way, such a packet is accepted |
| `Exactness.BranchExact` | src/prefilter.c:736-1067 | a packet test clears the exact flag only for an outcome its cubes cannot keep |
| `Exactness.EventTight` | src/prefilter.c:672-734 | both for a test on an event: inside the cube and the test unless that is dropped, and exact unless so |
| `Exactness.WalkExact` | src/prefilter.c:1069-1084 | all cubes of a filter are exact unless some path has an outcome its cube cannot keep |
| `Prefix.CoverPrefix` | src/prefilter.c:1133-1162 | base and length of the prefix the ends share, exact iff the interval is the prefix |
| `Prefix.CoverIsSmallest` | src/prefilter.c:1133-1162 | no longer prefix contains the interval |
| `Prefix.Mask128` | src/prefilter.c:1164-1173 | the mask of a prefix length |
| `Rules.LoadAgree` | src/ebpfdivert.bpf.c:387-398 | comparing little-endian 64-bit loads under a mask is comparing bytes |
| `Rules.NumberAgree` | src/ebpfdivert.bpf.c:387-398 | so is comparing the numbers the bytes denote in network order |
| `Rules.NetCompare` | src/ebpfdivert.bpf.c:387-398 | the kernel's comparison of network bytes is the masked comparison of the 128-bit numbers |
| `Encode.EncodeRange` | src/prefilter.c:1100-1131 | no value is lost; complete iff there is no hole, or one in a full range; otherwise just the holes are dropped |
| `Encode.EncodeValue` | src/prefilter.c:1233-1249 | the same for single-valued rule fields, where nothing is kept of what does not fit |
| `Encode.AssembleMatches` | src/ebpfdivert.bpf.c:347-357 | the assembled rule matches what its slots and bits say |
| `Encode.EncodeCommon` | src/prefilter.c:1225-1304 | the rule matches exactly what its fields make of the cube: every input of it, and only those when complete |
| `Encode.EncodeAddr` | src/prefilter.c:1175-1202 | which of the three encodings is chosen, with its prefix and completeness |
| `EncodeAddress.Sound128` | src/prefilter.c:1175-1202 | no 128-bit address of the interval is lost |
| `EncodeAddress.Exact128Iff` | src/prefilter.c:1175-1202 | a complete encoding is the interval iff it is not the mapped block with a hole |
| `EncodeAddress.Sound4Iff` | src/prefilter.c:1306-1348 | the IPv4 rule keeps every address of the interval iff no foreign hole is encoded as "all but" |
| `EncodeAddress.Exact4Iff` | src/prefilter.c:1306-1348 | a complete IPv4 encoding is the interval iff it contains or lies in the block and has no foreign hole |
| `EncodeAddress.WholeIsClaimed` | src/prefilter.c:1175-1202 | an encoding claims to be complete iff the interval is full, a whole prefix, or full or the mapped block but for one hole |
| `EncodeAddress.ShapedIsClean4` | src/prefilter.c:1306-1348 | an interval narrowed by IPv4 literals only is encoded right whenever its encoding claims to be complete |
| `EncodeAddress.ForeignHole` | src/prefilter.c:1184-1197 | the IPv4 encoding of "not 2001:db8::5" misses 0.0.0.5 |
| `EncodeAddress.ForeignPrefix` | src/prefilter.c:1318-1333 | the IPv4 encoding of 2001:db8::1 matches 0.0.0.1 and claims to be complete |
| `EncodeAddress.HoledBlock` | src/prefilter.c:1184-1197 | the encoding of the mapped block with a hole matches `::1` and claims to be complete |
| `Lower.EmitV4` | src/prefilter.c:1306-1348 | the rule matches the cube's IPv4 packets when the addresses are sound, and only those when complete and clean; which packets in any case |
| `Lower.EmitV6` | src/prefilter.c:1350-1392 | the rule matches the cube's IPv6 packets, and only those when complete and clean |
| `Lower.EmitTables` | src/prefilter.c:1425-1468 | one rule per cube and family in order, or the capture-all fallback iff a family has more than 64; together they match the cubes; flagged exact iff every cube is and its rules are complete, and then they match only the cubes if these are clean |
| `Lower.Fallback` | src/prefilter.c:1458-1467 | matches every packet and is not exact |
| `Lower.WalkedIsClean` | src/prefilter.c:1394-1468 | fitting literals leave only encodable cubes, clean literals only clean ones |
| `Lower.Lower` | src/prefilter.c:1394-1468 | refuses other layers; the tables are those of the filter's cubes, or the fallback iff walk or rules exceed their limits; a superset of the filter if its cubes are encodable or its literals fit, and the filter itself when flagged exact if its cubes or literals are clean; exact or not, short of the fallback all they match lies on a path as in `Tight.Traced` or in what is left of a cube no rule can hold |
| `Lower.RenderedOnPaths` | src/prefilter.c:1394-1468 | that last claim, from the rules of the cubes |
| `Foreign.HoleCubes` | src/prefilter.c:1069-1084 | the cubes of `ip and outbound and localAddr != 2001:db8::5`, and of the same with `ipv6` |
| `Foreign.PrefixCubes` | src/prefilter.c:1069-1084 | the cubes of `ip and outbound and localAddr == 2001:db8::1` |
| `Foreign.BlockCubes` | src/prefilter.c:1069-1084 | the cubes of a filter for `::ffff:0:0/96` but one address |
| `Foreign.LowerHole` | src/prefilter.c:1394-1468 | lowering the first loses an accepted packet from 0.0.0.5 |
| `Foreign.LowerPrefix` | src/prefilter.c:1394-1468 | lowering the second captures a rejected packet from 0.0.0.1, flagged exact |
| `Foreign.LowerBlock` | src/prefilter.c:1394-1468 | lowering the third captures a rejected packet from `::1`, flagged exact |
| `Foreign.LowerRemote` | src/prefilter.c:1394-1468 | `outbound and remoteAddr == x` is lowered exactly and flagged so, for every IPv4 address |
| `Foreign.HoleInIpv6` | src/prefilter.c:1394-1468 | with `ipv6` the exclusion of 2001:db8::5 is encodable and clean |
| `EventRules.NetRoundTrip` | src/handle.c:1587-1593 | reading an address into words undoes writing it in network order |
| `EventRules.NetMatchIsMasked` | src/ebpfdivert_events.bpf.c:144-154 | the event's comparison of halves is the masked comparison of the numbers |
| `EventRules.EncodeRange32` | src/prefilter.c:1472-1498 | no value is lost; complete iff there is no hole, or one in a full range |
| `EventRules.EventMask` | src/prefilter.c:1508-1518 | the mask holds exactly the events of the range |
| `EventRules.EmitEventRule` | src/prefilter.c:1500-1597 | the rule matches every event of the cube; it says exactly when it is complete, and then matches only those if the addresses are clean |
| `EventRules.EmitEventRules` | src/prefilter.c:1616-1636 | when exact, some rule matches iff some cube holds the event |
| `EventRules.LowerEvents` | src/prefilter.c:1599-1636 | one rule per cube, or none iff walk or rules exceed their limits; exact iff every cube is and its rule is complete; exact rules block every accepted event, and only accepted ones if the cubes are clean or no literal touches one of the two ends of the mapped block |
| `EventRules.ShouldBlock` | src/ebpfdivert_events.bpf.c:185-198 | the search answers whether an installed rule matches |
| `EventRules.BlockByFilter` | src/handle.c:1743-1756 | a handle opens for blocking iff no outcome of the undecided tests accepts a LISTEN or ACCEPT event, walk and rules are within their limits, and every cube is exact and fits its rule; then an event is blocked iff the filter accepts it |
| `Capture.LoadRules` | src/handle.c:1338-1379 | the maps are the tables with the handle's action bits |
| `Capture.ActKeepsMatching` | src/handle.c:1361-1373 | action bits change no match |
| `Capture.FirstMatch` | src/ebpfdivert.bpf.c:638-653 | some rule of the family matches iff one is found, and it carries the handle's action |
| `Capture.ProcessPacket` | src/ebpfdivert.bpf.c:543-687 | passes what is not concerned or not matched; drops, copies or diverts what is; fragments go to user space if their family has a rule |
| `Capture.RingCallback` | src/handle.c:687-743 | exact records are queued; others are queued or discarded iff the filter accepts, and put back iff it rejects and they were diverted |
| `Capture.Deliver` | src/handle.c:687-743 | one packet end to end: delivered, observed or discarded iff accepted; a rejected one passes or is put back, never both, and is never delivered |
| `Simplify.CompareIsRank` | src/wd/windivert_shared.c:911-960 | the full signed comparison orders values as numbers, a negative zero just below zero |
| `Simplify.RankIsSigned` | src/wd/windivert_shared.c:911-960 | that order is the order of integers but for zero against negative zero |
| `Simplify.VerdictExact` | src/wd/windivert_helper.c:1497-1775 | a test is folded to an outcome iff every value in the field's range gives it |
| `Simplify.SurvivorInRange` | src/wd/windivert_helper.c:1696-1774 | the literal of a test that is not folded lies in the field's range |
| `Simplify.LiteralKeptIff` | src/wd/windivert_shared.c:1695-1722 | for fields without a range, one-word comparison is right for every value iff the literal has one of the forms named |
| `Simplify.SurvivorEvaluates` | src/wd/windivert_shared.c:1695-1722 | a test that is not folded is evaluated as the 128-bit comparison it reads |
| `Simplify.ValuesTyped` | src/wd/windivert_shared.c:1001-1694 | field values are in the compiler's ranges and of the evaluator's width |
| `Simplify.SimplifyIff` | src/wd/windivert_helper.c:1497-1779 | a simplified test keeps its meaning on an input iff it was not folded, or the field is defined and in range, or the replacing flag does not show the folded outcome; only a flow label can be out of range |
| `Simplify.FoldedMeans` | src/wd/windivert_helper.c:1784-1828 | where all its tests are settled, a folded expression means the expression |
| `Simplify.FoldedOnMissingHeader` | src/wd/windivert_helper.c:1776-1778 | `tcp.SrcPort > 70000` is true of every packet without TCP |
| `Compile.Flattener.Flatten` | src/wd/windivert_helper.c:1784-1828 | from the returned label, running the stack goes to succ or fail as the folded expression says; fails exactly when the tests do not fit or a label is a failure; earlier tests stay |
| `Compile.EmitTestTruth` | src/wd/windivert_helper.c:2017-2087 | the emitted instruction has the truth of the flattened test, array index included |
| `Compile.EmitFilter` | src/wd/windivert_helper.c:2092-2119 | forward jumps only, at most 256 instructions, and the object accepts what the stack accepts |
| `Compile.CompileFilter` | src/wd/windivert_helper.c:2378-2395 | refuses exactly what does not fit; the object decides as the folded expression and as the expression where settled; it can be lowered, and tests only fields of the layer |
| `Compile.CompileThenExecute` | src/wd/windivert_helper.c:2517-2677 | compiling and evaluating gives the expression's truth value |
| `Reach.MaySound` | src/wd/windivert_helper.c:2223-2317 | what the backward pass rules out, the evaluator rejects |
| `Reach.MayTight` | src/wd/windivert_helper.c:2223-2317 | what it does not rule out, some outcome of the undecided tests accepts |
| `Reach.CondExecFilter` | src/wd/windivert_helper.c:2223-2317 | both directions for the loop that fills the result array, and TRUE for an empty object |
| `Reach.AnalyzeFilter` | src/wd/windivert_helper.c:2124-2217 | a direction, family or event is flagged iff some consistent outcome of the undecided tests accepts it; so every accepted packet or event has its own flagged, a forwarded packet both directions |
| `Open.OpenFilter` | src/handle.c:1530-1580 | object, rules and skipped hooks of a handle: a hook is skipped iff no outcome of the undecided tests accepts a packet there, so no accepted packet comes through it; the rules are a superset of the filter, and the filter when flagged exact, under the conditions of `Lower.Lower` |
| `Open.FilterPacket` | src/ebpfdivert.bpf.c:543-687 | from the expression to the fate of the packet |
| `Open.FilterBytes` | src/ebpfdivert.bpf.c:543-687 | the same from the packet's bytes: on an unfragmented packet with complete headers of at most 65575 bytes, both parsers, the field readers and the rules together do what the expression says of the packet |
| `Packets.KernelExtensions` | src/ebpfdivert.bpf.c:245-278 | follows up to four option headers to the transport protocol and its place |
| `Packets.KernelParse` | src/ebpfdivert.bpf.c:175-309 | on packets with complete headers, reads what the standards lay out |
| `Packets.UserExtensions` | src/wd/windivert_shared.c:423-465 | the same place and protocol from the evaluator's loop |
| `Packets.UserParse` | src/wd/windivert_shared.c:363-547 | on the same packets, reads the same headers at the same place |
| `Packets.ParsersAgree` | src/wd/windivert_shared.c:363-547 | both parsers describe one agreeing packet |
| `Wire.AddressBytes` | src/ebpfdivert.bpf.c:225-243 | the words read from sixteen bytes are those bytes in network order |
| `Wire.Written4` | src/ebpfdivert.bpf.c:175-223 | for all header values, the IPv4 packet written from them most significant byte first is laid out as such and read as them: addresses, TTL, protocol, ports or type and code |
| `Wire.Written6` | src/ebpfdivert.bpf.c:225-309 | the same for IPv6 behind up to four option headers |
| `Wire.FlagsRead` | src/wd/windivert_shared.c:1389-1406 | each named TCP flag is read as it was written |
| `Wire.ReadWritten4` | src/wd/windivert_shared.c:363-547 | so both parsers find in a written packet the values it was written from |
| `HeaderFields.ReadIsBits` | src/wd/windivert_shared.c:1276-1430 | every header field but the flow label is read as the bits the standards give it |
| `HeaderFields.FlowLabelIff` | src/wd/windivert_shared.c:1323-1326 | the flow label is read right iff it is zero, and within its range iff its last 16 bits are below 16 |
| `HeaderFields.FlowLabelMisread` | src/wd/windivert_shared.c:1323-1326 | the label 0x12345 is read as 0x23450100 |
| `HeaderFields.RangeIsBits` | src/wd/windivert_helper.c:1525-1649 | the compiler's range of a header field is all numbers of as many bits as it has, twice as many for the type of service |
| `HeaderFields.BothEnds` | src/wd/windivert_helper.c:1525-1649 | bytes of ones show the upper end of a field's range, bytes of zeroes the lower |
| `HeaderFields.PlacedTyped` | src/wd/windivert_shared.c:1276-1430 | whatever its bytes, a header field has a value as the compiler assumes |
| `Values.FieldsAreBits` | src/wd/windivert_shared.c:1001-1430 | on every packet a header field has the value of its bits if its header is there, and none otherwise |
| `Values.PacketsAreTyped` | src/wd/windivert_shared.c:1001-1694 | all fields outside the lowering are as the compiler assumes iff the packet has at most 65575 bytes |
| `Values.EventsAreTyped` | src/wd/windivert_shared.c:1001-1694 | the same for an event iff its code is one of the ten |
| `Values.RandomParts` | src/wd/windivert_shared.c:1115-1126 | the three random fields are disjoint parts of the hash |
| `Values.PayloadFits` | src/wd/windivert_shared.c:543-545 | the payload's length survives its sixteen bits |
| `Ends.EndsOccur` | src/wd/windivert_helper.c:1525-1690 | for every field with a range and either end, unless listed as missed, some packet shows it |
| `Ends.EndsMissed` | src/wd/windivert_helper.c:1525-1690 | no unfragmented packet with complete headers shows one that is listed |
| `Payload.DataIsBits` | src/wd/windivert_helper.c:2501-2513 | an element of a byte array field is the bits at its index, most significant first |
| `Payload.DataFromEnd` | src/wd/windivert_helper.c:2501-2513 | a negative index counts from the end |
| `Payload.Payload4` | src/wd/windivert_shared.c:473-545 | the payload found in a written IPv4 packet is the data it was written from |
| `Payload.Payload6` | src/wd/windivert_shared.c:473-545 | the same for IPv6 |
| `Payload.PayloadFields` | src/wd/windivert_shared.c:1144-1164 | the payload fields are the array elements of those bytes alone |
| `Chain.DivertsIncrease` | src/ebpfdivert.bpf.c:555-577 | in every run with inbound injection aimed at interfaces with programs, diverting priorities strictly increase and the packet always carries the last one |
| `Chain.StepKeepsChain` | src/ebpfdivert.bpf.c:689-709 | every step keeps the mark that carries the diverting priority, through REDIRECT, REDIRECTED and LOOP_PREVENTION |
| `Chain.RedirectRun` | src/handle.c:1228-1250 | inbound injection reaches the target's ingress hook with the injector's priority |
| `Chain.LocalDivertsIncrease` | src/ebpfdivert.bpf.c:564-590 | without forward-layer handles outside lo the order is kept in every run, wherever injection aims |
| `Chain.DivertedTwice` | src/ebpfdivert.bpf.c:689-709 | a run in which a forward-layer handle diverts a packet twice, through an interface without programs |
| `Chain.IncreaseIff` | src/ebpfdivert.bpf.c:555-709 | all runs keep the order iff there is no such handle or no such interface can be named |
| `Chain.OfferedOnceInOrder` | src/ebpfdivert.bpf.c:555-590 | however they decide, the network-layer handles of a hook are offered a packet they put back in priority order, none twice, and all by the time it passes |
| `Chain.Priorities.MaxInUse` | src/handle.c:458-473 | the highest priority number of the registry and of this process |
| `Chain.Priorities.Choose` | src/handle.c:1381-1403 | explicit priorities in reverse; an automatic one is the least number from 30001 on above all in use, or 65535 if that is taken |
| `Chain.Priorities.OpenMany` | src/handle.c:1381-1403 | a run of automatic opens: the n-th gets the n-th number above the highest, capped at 65535 |
| `Chain.DistinctIff` | src/handle.c:1395-1401 | those numbers increase strictly iff the last is not capped |
| `Chain.OpenedAreDistinct` | src/handle.c:1381-1403 | handles opened so meet the condition on priorities of `OfferedOnceInOrder` |
| `Codec.NumberRoundTrip` | src/wd/windivert_helper.c:2742-2770 | every 32-bit number is read back from base 32, whatever follows, within the digits allowed |
| `Codec.TestRoundTrip` | src/wd/windivert_helper.c:2803-2897 | a test is read back with its unused literal words cleared |
| `Codec.ParseFilter` | src/wd/windivert_helper.c:2937-2983 | whatever the text, an accepted object has 1 to 256 tests and forward jumps only |
| `Codec.FilterRoundTrip` | src/wd/windivert_shared.c:346-358 | an object is read back iff it has fewer than 256 tests |
| `Stream.Writer.PutChar` | src/wd/windivert_shared.c:196-205 | the buffer holds the text as far as it fits, overflow tells the rest |
| `Stream.Writer.PutNul` | src/wd/windivert_shared.c:222-232 | terminates; a full buffer is cut without report |
| `Stream.Writer.SerializeNumber` | src/wd/windivert_shared.c:247-271 | writes the number's text |
| `Stream.Writer.SerializeLabel` | src/wd/windivert_shared.c:276-291 | writes the label's text |
| `Stream.Writer.SerializeTest` | src/wd/windivert_shared.c:296-341 | writes the test's text |
| `Stream.Writer.SerializeFilter` | src/wd/windivert_shared.c:346-358 | overflow iff the text is longer than the buffer; the text is complete iff there is room for its terminator |
| `Stream.Reader.DeserializeNumber` | src/wd/windivert_helper.c:2742-2770 | reads what the format's grammar says, and advances past it |
| `Stream.Reader.DeserializeLabel` | src/wd/windivert_helper.c:2775-2798 | the same for a label |
| `Stream.Reader.DeserializeTest` | src/wd/windivert_helper.c:2803-2897 | the same for a test |
| `Stream.Reader.DeserializeHeader` | src/wd/windivert_helper.c:2902-2932 | the same for the header |
| `Stream.Reader.DeserializeFilter` | src/wd/windivert_helper.c:2937-2983 | the same for an object |
| `Reload.CanonAccepts` | src/wd/windivert_helper.c:2839-2888 | clearing the unused words changes no decision of a compiled object |
| `Reload.CompileToText` | src/wd/windivert_helper.c:2434-2496 | the text written stands for the expression when read back, with its three exceptions |
| `BigNum.MulRound` | src/wd/wd_port.c:304-314 | adds a product at a word; the carry never leaves the array |
| `BigNum.TenthIsExact` | src/wd/wd_port.c:317-320 | ten times the constant is 2^160 + 4 |
| `BigNum.TenthDivides` | src/wd/wd_port.c:315-343 | the reciprocal gives quotient and remainder for every 128-bit value |
| `BigNum.DivTen128` | src/wd/wd_port.c:315-343 | quotient in place, remainder returned, exactly |
| `BigNum.Mul128` | src/wd/wd_port.c:192-203 | the product modulo 2^128, false iff it did not fit |
| `BigNum.Add128` | src/wd/wd_port.c:205-216 | the sum modulo 2^128, false iff it did not fit |
| `Decimal.AToI` | src/wd/wd_port.c:218-248 | fails iff there is no digit or the number needs more than 128 bits; hands out the low words |
| `Decimal.FormatDecNumber` | src/wd/windivert_helper.c:3506-3531 | the decimal text of every 128-bit number; its buffer is large enough |
| `Decimal.FormatThenRead` | src/wd/windivert_helper.c:3506-3531 | reading a formatted number gives the number back |
| `Ipv4Text.ParseIPv4Address` | src/wd/windivert_helper.c:270-305 | accepts exactly four dotted octets, each judged by its low word |
| `Ipv4Text.OctetWraps` | src/wd/windivert_helper.c:283-287 | the exact set of numbers accepted as a first octet |
| `Ipv4Text.FormatDecNumber32` | src/wd/windivert_helper.c:3484-3501 | the decimal text of a 32-bit number |
| `Ipv4Text.FormatIPv4Addr` | src/wd/windivert_helper.c:3569-3578 | the dotted text |
| `Ipv4Text.V4RoundTrip` | src/wd/windivert_helper.c:270-305 | parsing undoes formatting for every IPv4 address |
| `Ipv6Text.FindZeroes` | src/wd/windivert_helper.c:3598-3617 | the longest run of zero groups, of several the first |
| `Hex.FormatHexNumber` | src/wd/windivert_helper.c:3536-3564 | the hexadecimal text of every 128-bit number, without leading zeroes |
| `Hex.ReadHex` | src/wd/windivert_helper.c:361-377 | up to four digits and the group they stand for |
| `Ipv6Text.FormatIPv6Addr` | src/wd/windivert_helper.c:3583-3630 | the text with that run compressed; mapped addresses in dotted form |
| `Ipv6Text.ReadGroups` | src/wd/windivert_helper.c:310-400 | the groups left and right of `::`, as the grammar says |
| `Ipv6Text.ParseIPv6Address` | src/wd/windivert_helper.c:310-432 | the address those groups denote, given what memory holds behind the array |
| `Ipv6Bounds.TextFits` | src/wd/windivert_helper.c:337-396 | at most eight groups are read, and at most seven in front of an IPv4 address |
| `Ipv6Bounds.BoundsIff` | src/wd/windivert_helper.c:404-415 | assembling stays inside the array iff not seven groups and an IPv4 address follow a leading `::` |
| `Ipv6Bounds.StrayIff` | src/wd/windivert_helper.c:404-426 | the result depends on memory behind the array iff the text leaves it and is an address when that is zero |
| `Ipv6Bounds.OutOfBounds` | src/wd/windivert_helper.c:404-426 | a family of such texts, read or refused by what is found |
| `Ipv6Bounds.StrayText` | src/wd/windivert_helper.c:404-426 | `::0:0:0:0:0:0:0:1.2.3.4` is one of them |
| `Ipv6Bounds.AnythingAfterEight` | src/wd/windivert_helper.c:337-396 | eight groups and a colon are an address whatever follows |
| `Ipv6Grammar.AcceptedIff` | src/wd/windivert_helper.c:310-400 | a text is read as given groups iff a grammar of its own derives it so: what may stand left and right of a gap and at the end |
| `Ipv6Text.V6RoundTrip` | src/wd/windivert_helper.c:310-432 | parsing undoes formatting wherever the compressed run is |
| `Ipv6Text.FormatThenParse` | src/wd/windivert_helper.c:931-947 | every 128-bit address survives formatting and the tokenizer's reading, whatever memory holds |
| `Checksum.SumWords` | src/wd/windivert_shared.c:722-746 | the 32-bit accumulator holds the sum of any packet up to 65575 bytes |
| `Checksum.TwoFolds` | src/wd/windivert_shared.c:748-751 | two folds are the whole one's-complement reduction |
| `Checksum.CalcChecksum` | src/wd/windivert_shared.c:720-752 | the complement of the one's-complement sum |
| `Checksum.ChecksumVerifies` | src/wd/windivert_shared.c:720-752 | stored in its field, it makes pseudo header and data sum to all ones; but for the second form of zero no other value does |
| `Checksum.CsumFold32` | src/handle.c:914-919 | folding until done is the reduction |
| `Checksum.CsumAdd` | src/handle.c:921-929 | adds the network-order sum |
| `Checksum.ByteOrderIndependence` | src/handle.c:914-929 | the network-order sum is the byte swap of the memory-order one |
| `Checksum.PatchIsRecomputed` | src/wd/windivert_shared.c:777-785 | the patch of a computed checksum is the recomputed one |
| `Checksum.DecrementTTL` | src/wd/windivert_shared.c:757-804 | when it succeeds, what it changes, and that the header's checksum stays computed or valid |
| `Queue.ReceiveQueue.WakeUpdate` | src/handle.c:628-641 | readable iff the queue is not empty or shut down |
| `Queue.ReceiveQueue.Push` | src/handle.c:666-685 | appended iff there is room in number and bytes, else counted as dropped; the invariant is kept |
| `Queue.ReceiveQueue.Pop` | src/handle.c:745-764 | the oldest entry in time, those before it dropped; deliveries stay in arrival order |
| `Queue.ReceiveQueue.Shutdown` | src/handle.c:2099-2120 | what was queued stays, and receivers are woken |
| `Queue.ReceiveQueue.SetParam` | src/handle.c:2129-2157 | a limit changes iff the value is allowed |
| `Queue.OrderedArrival` | src/handle.c:666-685 | arrivals are delivered, waiting or dropped, in order, whichever way a push goes |
| `Queue.OrderedHead` | src/handle.c:745-764 | the same for taking the head |
| `Close.HeartbeatRemove` | src/handle.c:319-330 | the list without the first entry for the handle |
| `Close.FreedUnused` | src/handle.c:2066-2097 | in every interleaving, other handles coming and going, a freed handle has no call running, is off the heartbeat list and off the round in progress |
| `Close.NoneAdmitted` | src/handle.c:216-227 | once closing is set it stays, and no call is admitted |
| `Close.CloseCompletes` | src/handle.c:2066-2097 | from every reachable state with closing set some run of the closing thread, the heartbeat and the calls still in flight frees the handle; with none in flight, without any call |
| `Close.TouchedIsLive` | src/handle.c:265-288 | whatever the heartbeat thread or a returning call touches is not freed |

## Left out

- Interface numbers, identifiers, timestamps and the hash behind the random fields: parameters of the evaluator's input.
- Values.PacketsAreTyped: of unfragmented packets with complete headers; the fields of others are not modelled.
- Tight.Traced: for packets; of events it is stated step by step (`Exactness.EventTight`), since rules that are not exact are never installed for them.
- Tokenizer, expression parser, heap pools and error positions: expressions start as trees.
- `WinDivertHelperFormatFilter` and its decompiler: large, and not needed by any property here.
- Detection of the link-layer header: the parsers are given the start of the IP header.
- BPF helpers, ring buffer, TC and cgroup attachment, sockets, epoll, eventfd errors and the registry file: abstract steps that succeed, or inputs.
- Fragments in the lowering theorems: only that they reach user space when their family has a rule, and are judged there by the filter.
- Split.EndpointAddrArm: for an equality with an IPv4 literal complete only on packets satisfying `Cube.Unmapped`, because the code tells the family by the literal (`Split.GuessVersion`).
- Lower.Lower: superset and exactness are conditional on the filter's cubes or literals, because they fail without (`Foreign`); per cube the conditions are exact (`EncodeAddress`), but an unsound cube need not spoil a filter whose other cubes make up for it.
- Ipv6Text.ParseIPv6Address: what memory holds behind an array is a parameter.
- Stream.Reader.DeserializeTest: array indices wrap modulo 2^32 where the code relies on signed arithmetic.
- Chain.OfferedOnceInOrder: priorities at the hook are distinct; handles that share one are skipped after the first.
- Filter marks set by other software, and changes of interfaces during a run: not modelled in `Chain`.
- Wall-clock time: an input of each step.
- Batch receive, GSO preparation, packet hashes, the pinned global mode and the command line: easy or tabular.
