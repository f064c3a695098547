# Verified models of INET components

Dafny models of eight self-contained parts of this INET fork for OMNeT++, with proofs of what
they promise. Each part that works by changing state is a class with the fields of the original
and a method for each operation. Where an operation has a simple statement of its own, the method
is proved against that statement. Where it is one step of a protocol, the method is also proved equal
to a function on the state; lemmas say what holds of that function over all runs, and the method's
contract carries what they say of the single step.

| files | part |
|---|---|
| `GooseIed`, `GooseBits`, `GooseConvergence`, `GooseSystem`, `GooseStart` | The GOOSE application: P&C, interlocking and command devices that follow and correct one another over alarm bits, and their retransmissions (section 18.1 of IEC 61850-8-1). |
| `Topology`, `ShortestPaths`, `HopCounts`, `TopologySearch`, `Lists` | The mutable graph with its two-sided link lists, the weighted search with the hand-sorted list, and breadth-first search. |
| `Words`, `Shifts`, `Int128`, `Int128Text` | The 128-bit integer on two words, its arithmetic, printing and reading. |
| `DhcpServer`, `DhcpClient`, `DhcpTimers`, `DhcpSystem`, `DhcpAnswers`, `DhcpClientLaws`, `DhcpGrants`, `DhcpSharing`, `DhcpExchange`, `DhcpServerModule`, `DhcpClientModule` | The DHCP server and client (sections 4.3 and 4.4 of RFC 2131), the timer discipline, the whole system over an unreliable network, and the exchanges in which nothing is lost. |
| `Macho`, `MachoRuns`, `MachoEngine` | The engine for hierarchical state machines. |
| `PatternMeaning`, `PatternSyntax`, `PatternGrammar`, `PatternNotations`, `PatternEscapes`, `PatternMatcher` | Glob patterns: their meaning, their compilation, the documented notations, escaping and the backtracking matcher. |
| `Reassembly` | The reassembly buffer for datagram fragments (section 3.2 of RFC 791). |
| `Lifecycle`, `LifecycleRuns`, `LifecycleController` | The controller of staged operations with the node status as a participant. |
| `ByteArrayBuffer` | The byte queue held as a list of slices. |

`dafny verify dfyconfig.toml` checks the whole project.

## Hypotheses

- GOOSE: one P&C device, one interlocking device and any number of command devices, configured so
  that each lists its partners under the right role only, all initialized at time zero with a
  destination address that reaches all others; no frame is lost, but the order of delivery is
  arbitrary. A frame to the unspecified address reaches nobody, as
  `EtherMACBase::dropFrameNotForUs` has it unless an interface is promiscuous. Times and intervals
  are exact reals, and the time to live is the value before it is cut down to an integer.
- Topology: link weights are positive and node weights non-negative or infinite, as the assertions
  in the search demand; arithmetic is exact.
- DHCP: one server that keeps its table, clients whose interfaces have distinct MAC addresses other
  than the unspecified one and no IP address at first, transaction ids that are not zero and not
  repeated. Messages may be lost, duplicated and reordered, and clients may be halted and
  restarted at any time. Events happen in the order of time; timers that one acknowledgement
  schedules for the same time expire in the order of scheduling. That no runtime error happens
  needs a positive lease time and a pool without the unspecified address.
- Macho: a tree of bounded depth, whose inits request only proper substates, as the assertion in the
  engine demands.
- Lifecycle: callbacks are not invoked during the traversal itself.
- Byte queue: a read's offset plus length is below 2^32; `CopyInsideExactlyWhen` says that this is
  exactly what keeps a copy inside its slice.

## Where code and documentation differ

- The comment on `receivePacket` says that a P&C device must not process GOOSE messages. The code
  makes it resend its state to an interlocking device that contradicts it, and convergence relies on
  that. The model follows the code.
- A GOOSE device looks up its destination only when it handles its START message, and anything that
  makes it send before cancels that message. By default START comes one full interval after the
  beginning. Of a device that sends before, no frame ever reaches anybody:
  `GooseIed.HeardExactlyWhen`, `GooseStart.EarlyAlarmIsLost`; what that means for agreement is
  `GooseStart.AgreementAtRestExactlyWhen`.
- The documentation of patterns says that a backslash takes away the special meaning of the next
  character. It does not before a bracket that opens a numeric range, and there only:
  `PatternEscapes.MarkingIsExactlyWhen`, `PatternSyntax.EscapedRangeMissesItself`.
- The client's comment says that T1 is always before T2 "by definition". The error it means to
  exclude can occur exactly if an acknowledgement has a rebinding time below its renewal time and
  not above its lease time: `DhcpTimers.WrongStateErrorExactlyWhen`. Those of the server have not.
- A DHCP client takes over the hardware address of its interface only if its node is up at first.
  Clients that are down at first all use the unspecified address, and the server gives them the
  same lease: `DhcpSharing.AddressSharedExactlyWhen`.
- `getAvailableLease` says that it allocates a requested address if that is not allocated already.
  The code takes it over in either case; when an address is lost that way, exactly, is
  `DhcpSystem.AddressLostExactlyWhen`.
- The reassembly buffer says that fragments cannot overlap. Of those that do it drops some:
  `Reassembly.HasExactlyWhen`.
- `set` takes one letter too many as a digit, so that "a" is ten in decimal:
  `Int128Text.ReadAsDigitExactlyWhen`, `Int128Text.ForeignDigitCarries`.
- `toString` prints the most negative number as "-0", and `div` has no result for it as divisor:
  `Int128Text.DecimalRoundTrip`, `Int128Arithmetic.NoExitForMinDivisor`.

## Model

| member | source | states |
|---|---|---|
| GooseIed.EventKeepsInterval | iec61850InetV2.6/inet/src/applications/ethernet/EtherAppGoose.cc:170-174 | every handler, scheduling included, keeps the interval at the configured one halved at most five times |
| GooseIed.EtherAppGoose.SetAlarmState | iec61850InetV2.6/inet/src/applications/ethernet/EtherAppGoose.cc:467-485 | a generator flips its alarm bit, goes on to the next state number and sends exactly one frame with the new bit, whose time to live is 1/32 of the interval; from there every retransmission is due on the doubling schedule; other devices do nothing |
| GooseIed.EtherAppGoose.HandleTimer | iec61850InetV2.6/inet/src/applications/ethernet/EtherAppGoose.cc:103-122 | a START looks up the destination, and without a usable one the device stays silent for good; otherwise a timer event sends exactly one frame, with the alarm bit unchanged, that announces the gap to the next one unless the stop time cuts it off |
| GooseIed.HeardExactlyWhen | iec61850InetV2.6/inet/src/applications/ethernet/EtherAppGoose.cc:107-118 | in the life of one device every frame it sends is addressed if the first one is sent by its timer, and none is, START being cancelled, if the first one is sent by an alarm or a correction |
| GooseIed.EtherAppGoose.ReceivePacket | iec61850InetV2.6/inet/src/applications/ethernet/EtherAppGoose.cc:506-564 | only a frame that contradicts a generator has an effect: by the first index at which its id is listed, the device takes over the alarm or repeats its own, and in both cases begins the fast retransmission, or ignores it |
| GooseIed.IntervalInEveryRun | iec61850InetV2.6/inet/src/applications/ethernet/EtherAppGoose.cc:170-174 | in every run of starts, timers, alarms, arrivals and stops the interval is the configured one halved at most five times |
| GooseIed.TtlIsGapToNextFrame | iec61850InetV2.6/inet/src/applications/ethernet/EtherAppGoose.cc:243 | a handler that sends appends exactly one frame, with the new alarm bit, state number and next sequence number, whose time to live is the gap to the next scheduled frame, unless the stop time cuts the transmission off |
| GooseIed.RetransmissionTimes | iec61850InetV2.6/inet/src/applications/ethernet/EtherAppGoose.cc:153-177 | after a burst the n-th undisturbed retransmission is due at (2^n - 1)/32 of the interval for n up to 6 and one interval later each time from then on, until the stop time |
| GooseIed.SteadyTimes | iec61850InetV2.6/inet/src/applications/ethernet/EtherAppGoose.cc:153-177 | undisturbed, a device with the full interval sends one frame each interval, from its START on, until the stop time |
| GooseIed.NumberingInEveryRun | iec61850InetV2.6/inet/src/applications/ethernet/EtherAppGoose.cc:427-475 | in every run frames are numbered from one without gaps, and the state number goes on exactly when the alarm changes |
| GooseSystem.OnlyIdAndBitMatter | iec61850InetV2.6/inet/src/applications/ethernet/EtherAppGoose.cc:515-564 | a receiver's reaction depends on the application id and the alarm bit of a frame only |
| GooseSystem.ScanByMembership | iec61850InetV2.6/inet/src/applications/ethernet/EtherAppGoose.cc:523-538 | when no id is in both lists, the interleaved scan of the interlocking device decides by membership, independent of the positions |
| GooseSystem.ReactionByRole | iec61850InetV2.6/inet/src/applications/ethernet/EtherAppGoose.cc:519-564 | with the ids of a site, a mismatching frame makes the follower of its sender toggle and the leader of its sender resend |
| GooseSystem.NextRefinesStep | iec61850InetV2.6/inet/src/applications/ethernet/EtherAppGoose.cc:103-564 | every step of the wired devices in which none sends before it has handled its START is the corresponding step on alarm bits and frames in flight |
| GooseSystem.StartedSendInTime | iec61850InetV2.6/inet/src/applications/ethernet/EtherAppGoose.cc:107-118 | once every device has handled its START, no step sends too early any more |
| GooseConvergence.StepKeepsInv | iec61850InetV2.6/inet/src/applications/ethernet/EtherAppGoose.cc:506-564 | every step keeps the invariant: a follower that disagrees has a repairing frame on its way |
| GooseConvergence.RestMeansAgreement | iec61850InetV2.6/inet/src/applications/ethernet/EtherAppGoose.cc:506-564 | when no frame is in flight all alarm bits are that of the P&C device |
| GooseConvergence.DeliveryLowersRank | iec61850InetV2.6/inet/src/applications/ethernet/EtherAppGoose.cc:506-564 | each delivery lowers a lexicographic measure over stale frames and disagreeing devices, however many frames it adds |
| GooseConvergence.StepDrifts | iec61850InetV2.6/inet/src/applications/ethernet/EtherAppGoose.cc:467-564 | no step but a change of the P&C alarm, retransmissions included, raises the head of the measure, and each change of another bit lowers it |
| GooseConvergence.CascadeIsFinite | iec61850InetV2.6/inet/src/applications/ethernet/EtherAppGoose.cc:506-564 | in any delivery order the frames that devices send to correct one another die out, in agreement |
| GooseConvergence.BitsFreeze | iec61850InetV2.6/inet/src/applications/ethernet/EtherAppGoose.cc:467-564 | in a lossless run with a steady P&C alarm only finitely many alarm bits ever change, although retransmissions never end |
| GooseConvergence.EventuallyAllFollow | iec61850InetV2.6/inet/src/applications/ethernet/EtherAppGoose.cc:467-564 | in such a run all bits are from some moment on, for ever, that of the P&C device |
| GooseSystem.AgreementAtRest | iec61850InetV2.6/inet/src/applications/ethernet/EtherAppGoose.cc:467-564 | in every run of the devices from their initialization, alarm changes included, in which each handles its START before anything else makes it send, an empty network means that all alarm states agree |
| GooseStart.AgreementAtRestExactlyWhen | iec61850InetV2.6/inet/src/applications/ethernet/EtherAppGoose.cc:107-118 | in every run in which the other devices send in time, an empty network means agreement exactly if the alarm of the P&C device is off or it never sent before handling its START |
| GooseStart.MuteIsNeverFollowed | iec61850InetV2.6/inet/src/applications/ethernet/EtherAppGoose.cc:107-118 | after a P&C device has sent too early, in every run from there on the others keep their first state, so all agree exactly while its alarm is off |
| GooseStart.EarlyAlarmIsLost | iec61850InetV2.6/inet/src/applications/ethernet/EtherAppGoose.cc:467-485 | one alarm before the start time leaves an empty network in which the P&C device and the interlocking device disagree |
| GooseSystem.CorrectionsDieOut | iec61850InetV2.6/inet/src/applications/ethernet/EtherAppGoose.cc:506-564 | from any state of the devices reached in time, the reactions to frames, as long as no device sends too early, form a finite cascade that ends in agreement |
| GooseSystem.DevicesConverge | iec61850InetV2.6/inet/src/applications/ethernet/EtherAppGoose.cc:467-564 | once the P&C alarm stops changing, if no device sends too early and no frame is lost, every device holds that alarm from some moment on |
| TopologyGraph.Topology.LowerBound | iec61850InetV2.6/inet/src/base/Topology.cc:356-363 | binary search: the first position whose key, the id as an unsigned number, is not below the one sought |
| TopologyGraph.Topology.AddNode | iec61850InetV2.6/inet/src/base/Topology.cc:240-255 | puts the node at one index that keeps the vector sorted, last if its id is -1, and nothing else moves |
| TopologyGraph.Topology.GetNodeFor | iec61850InetV2.6/inet/src/base/Topology.cc:356-363 | returns the node of a module exactly if there is one, by the order of Topology.h line 338 |
| TopologyGraph.Topology.AddLink | iec61850InetV2.6/inet/src/base/Topology.cc:283-300 | for a new link or one that is in the graph already, self-loops included: it ends up exactly once in the list of its source and once in that of its destination, in no other list, and a gate id survives only if its end does not change |
| TopologyGraph.Topology.DeleteLink | iec61850InetV2.6/inet/src/base/Topology.cc:325-346 | removes the link from both lists and changes no other entry |
| TopologyGraph.Topology.DeleteNode | iec61850InetV2.6/inet/src/base/Topology.cc:257-281 | removes the node and exactly the links that begin or end at it; no list mentions them any more and the order of the others is kept |
| ShortestPaths.RelaxKeepsInv | iec61850InetV2.6/inet/src/base/Topology.cc:441-464 | trying one link keeps the search invariant: sorted queue, finite distances explained by first links, taken nodes never changed |
| ShortestPaths.RelaxTouchesOpenNodesOnly | iec61850InetV2.6/inet/src/base/Topology.cc:448-457 | a link tried never improves a node that was taken before, so none goes back to the queue |
| ShortestPaths.TakeKeepsInv | iec61850InetV2.6/inet/src/base/Topology.cc:428-431 | the node taken from the queue is one not taken before, and the invariant is kept |
| ShortestPaths.InsertSorted | iec61850InetV2.6/inet/src/base/Topology.cc:458-463 | the insertion loop keeps the hand-made list sorted by distance |
| ShortestPaths.NoPathIsShorter | iec61850InetV2.6/inet/src/base/Topology.cc:409-467 | when the queue is empty no usable path is shorter than the recorded distance, transit nodes charging and ends not |
| ShortestPaths.FoundPath | iec61850InetV2.6/inet/src/base/Topology.cc:455-456 | the recorded first links lead along a path of exactly the recorded length |
| TopologySearch.CalculateWeightedSingleShortestPathsTo | iec61850InetV2.6/inet/src/base/Topology.cc:409-467 | fails without a target; otherwise every node's dist is the least cost of a usable path, infinity if there is none, and following outPath costs exactly that; the loop ends because no node is taken twice |
| TopologySearch.CalculateUnweightedSingleShortestPathsTo | iec61850InetV2.6/inet/src/base/Topology.cc:365-407 | fails without a target; otherwise every node's dist is the least number of usable links to it, and following outPath takes exactly that many |
| HopCounts.MeetIsRelax | iec61850InetV2.6/inet/src/base/Topology.cc:399-404 | on a graph of unit links and free nodes, first come first served does what the weighted search does |
| HopCounts.SearchesAgree | iec61850InetV2.6/inet/src/base/Topology.cc:365-467 | any two finished searches of one graph have recorded the same distance for every node |
| TopologySearch.BothSearches | iec61850InetV2.6/inet/src/base/Topology.cc:365-467 | on a topology of unit links and free nodes the unweighted search finds for every node the distance with which the weighted search ended |
| Int128Arithmetic.LessIsNumericExactlyWhen | iec61850InetV2.6/inet/src/util/int128.cc:396-407 | operator< compares the numbers, except exactly between two negative numbers with equal high words and low words that differ in the top bit |
| Int128Arithmetic.Int128.Neg | iec61850InetV2.6/inet/src/util/int128.cc:167-173 | the negated number modulo 2^128 |
| Int128Arithmetic.Int128.AddAssign | iec61850InetV2.6/inet/src/util/int128.cc:209-219 | the sum of the numbers modulo 2^128, carry included, also when the operand is this object |
| Int128Arithmetic.Int128.SubAssign | iec61850InetV2.6/inet/src/util/int128.h:128-131 | the difference modulo 2^128 |
| Int128Arithmetic.Int128.ShlAssign | iec61850InetV2.6/inet/src/util/int128.cc:363-394 | multiplication by 2^n modulo 2^128 for every shift count |
| Int128Arithmetic.Int128.ShrAssign | iec61850InetV2.6/inet/src/util/int128.cc:329-361 | floor division by 2^n for every shift count |
| Int128Arithmetic.Int128.Bit | iec61850InetV2.6/inet/src/util/int128.cc:300-309 | bit n of the two's complement representation, the sign from bit 128 on |
| Int128Arithmetic.Int128.SetBit | iec61850InetV2.6/inet/src/util/int128.cc:311-320 | adds 2^n exactly if bit n was clear, and changes nothing beyond bit 127 |
| Int128Arithmetic.Int128.MulAssign | iec61850InetV2.6/inet/src/util/int128.cc:221-243 | the product of the signed values modulo 2^128, also when the operand is this object |
| Int128Arithmetic.MulStep | iec61850InetV2.6/inet/src/util/int128.cc:234-240 | one shift-and-add round keeps the running sum congruent to the product of the bits seen |
| Int128Arithmetic.Int128.LeadingBits | iec61850InetV2.6/inet/src/util/int128.cc:267-274 | the first loop stops with the leading bits of the dividend in the remainder, at least the divisor and less than twice of it |
| Int128Arithmetic.Int128.LongDivision | iec61850InetV2.6/inet/src/util/int128.cc:276-290 | the second loop yields quotient and remainder; the partial remainder never overflows |
| Int128Arithmetic.Int128.Div | iec61850InetV2.6/inet/src/util/int128.cc:246-298 | for every dividend and every divisor but zero and the most negative number: quotient and remainder of truncating division, also when the remainder object is the dividend or the divisor; for the most negative dividend (0, dividend) |
| Int128Arithmetic.DivExactlyWhen | iec61850InetV2.6/inet/src/util/int128.cc:246-298 | the result of div satisfies the division law exactly if the dividend is not the most negative number |
| Int128Arithmetic.DivisionIsTruncation | iec61850InetV2.6/inet/src/util/int128.cc:246-298 | the division law determines the result: abs(n) / abs(d) and abs(n) mod abs(d), rounded toward zero |
| Int128Arithmetic.NoExitForMinDivisor | iec61850InetV2.6/inet/src/util/int128.cc:276-290 | with the most negative divisor every dividend passes the first test and the first loop is left at once; after every number of rounds the partial remainder is zero or the divisor, never below it, so the division never ends |
| Int128Arithmetic.Int128.DivAssign | iec61850InetV2.6/inet/src/util/int128.h:132-137 | /= assigns the truncated quotient |
| Int128Arithmetic.Int128.ModAssign | iec61850InetV2.6/inet/src/util/int128.h:138-142 | %= assigns the remainder of the old values although div writes it to the dividend itself, and although the divisor may be the same object |
| Int128Text.ToString | iec61850InetV2.6/inet/src/util/int128.cc:37-61 | the digits of the magnitude in the given radix with a sign, "0" for zero, a message for a bad radix; the buffer is long enough |
| Int128Text.PrintedDenotes | iec61850InetV2.6/inet/src/util/int128.cc:49-58 | in any radix up to 36 the print is a sign and digits of the radix, the first one not zero, that denote the magnitude |
| Int128Text.Set | iec61850InetV2.6/inet/src/util/int128.cc:63-112 | reads sign, radix prefix and digits up to the first character that is none |
| Int128Text.ParsedIsNumber | iec61850InetV2.6/inet/src/util/int128.cc:63-112 | with 0x the hexadecimal number, with another 0 the octal one, otherwise the decimal one, up to the first character that is no digit and modulo 2^128; a minus sign in front of all that, prefix included, negates |
| Int128Text.ReadAsDigitExactlyWhen | iec61850InetV2.6/inet/src/util/int128.cc:95-102 | a character is read as a digit exactly if it is a digit of the radix, or the letter for ten in decimal, or the letter for sixteen in hexadecimal, and always as what it stands for |
| Int128Text.AccumulatesNumber | iec61850InetV2.6/inet/src/util/int128.cc:92-107 | the loop arrives at the number written, of any length, modulo 2^128 |
| Int128Text.ForeignDigitCarries | iec61850InetV2.6/inet/src/util/int128.cc:95-107 | digits followed by such a letter are read as one more than the digits, and then a zero |
| Int128Text.DecimalRoundTrip | iec61850InetV2.6/inet/src/util/int128.cc:37-112 | reading back the decimal print gives the number exactly if it is not the most negative one |
| Int128Text.PrefixedRoundTrip | iec61850InetV2.6/inet/src/util/int128.cc:37-112 | reading back "0x" and the hexadecimal print, or "0" and the octal print, gives the number exactly if it is not negative |
| DhcpServerModule.DHCPServer.GetLeaseByMac | iec61850InetV2.6/inet/src/applications/dhcp/DHCPServer.cc:427-442 | the first lease of the client in the order of addresses, or none |
| DhcpServerModule.DHCPServer.GetAvailableLease | iec61850InetV2.6/inet/src/applications/dhcp/DHCPServer.cc:444-485 | an address asked for, even a taken one; otherwise none exactly if every address of the pool is leased, and else the first one that is unknown or not leased; a new record only where there is none to reuse |
| DhcpServerModule.DHCPServer.ProcessDHCPMessage | iec61850InetV2.6/inet/src/applications/dhcp/DHCPServer.cc:169-320 | a message as clients send it keeps the table in order and every address with its holder; every message gets exactly the answer that DhcpAnswers.AnsweredByLaw says, and no other record changes; a DISCOVER takes an address away exactly if it asks for one in the table and its client has none |
| DhcpAnswers.AnsweredByLaw | iec61850InetV2.6/inet/src/applications/dhcp/DHCPServer.cc:185-310 | an OFFER of the address of the client, else of the one it asks for, else of the first free one, and silence exactly if there is none; an ACK exactly if the address is on file, for an accepted offer on file for that client; silence for a reboot with an unknown address; otherwise a NAK; each under the id of the message, and only the record of the address answered changes |
| DhcpClientModule.DHCPClient.HandleDHCPMessage | iec61850InetV2.6/inet/src/applications/dhcp/DHCPClient.cc:423-537 | a message that is no reply, or under another transaction id than the last one, and any message while bound or down, changes nothing and is not answered; an awaited offer is accepted, an acknowledgement binds the client with its times, a refusal makes it start over, giving up the address it had when renewing or rebinding; a sound message never fails, and what the client claims stays on file with the server for it |
| DhcpClientModule.DHCPClient.HandleMessage | iec61850InetV2.6/inet/src/applications/dhcp/DHCPClient.cc:206-293 | when the response timer expires the client starts over with a new DISCOVER under the new id, all other timers cancelled; T1 asks for renewal, T2 for rebinding, the end of the lease takes the address off the interface and starts over; any next event is handled without a runtime error and leaves exactly the timers of the state pending |
| DhcpTimers.EventKeepsTimers | iec61850InetV2.6/inet/src/applications/dhcp/DHCPClient.cc:232-536 | no handler fails and the timers keep matching the state: T1 pending iff BOUND, T2 and the lease timer iff BOUND or RENEWING, the response timer iff an answer is awaited |
| DhcpTimers.TimersInEveryRun | iec61850InetV2.6/inet/src/applications/dhcp/DHCPClient.cc:232-709 | in every run from the start of the client, with timers expiring in the order they are due, no runtime error happens and some timer is always pending |
| DhcpTimers.T2IsNextExactlyWhen | iec61850InetV2.6/inet/src/applications/dhcp/DHCPClient.cc:680-709 | after an acknowledgement T2 can be the next event exactly if the rebinding time is below the renewal time and not above the lease time, with equal times in the order of scheduling; it is then the runtime error |
| DhcpTimers.WrongStateErrorExactlyWhen | iec61850InetV2.6/inet/src/applications/dhcp/DHCPClient.cc:279-283 | after an acknowledgement some continuation, sound from then on, ends in the runtime error exactly if the rebinding time is below the renewal time and not above the lease time; otherwise no continuation does |
| DhcpSystem.ServerKeepsTable | iec61850InetV2.6/inet/src/applications/dhcp/DHCPServer.cc:185-310 | a client's message leaves every lease under its own address, taken, in the pool and the only one of its client, takes nothing from anybody, and an offer goes out under the transaction id of the request |
| DhcpSystem.ClientKeepsOwnership | iec61850InetV2.6/inet/src/applications/dhcp/DHCPClient.cc:295-313 | a client takes an address only from an offer under its own current transaction id |
| DhcpSystem.StepKeepsInv | iec61850InetV2.6/inet/src/applications/dhcp/DHCPClient.cc:423-537 | every step of server, clients and lossy, duplicating, reordering network, halts and restarts included, keeps table, messages and clients consistent, each client under the hardware address it uses |
| DhcpSystem.AddressesAreUnique | iec61850InetV2.6/inet/src/applications/dhcp/DHCPServer.cc:189-307 | in every state of every run each claimed address, in a lease or on an interface, is filed under the hardware address its claimant uses and lies in the pool; no two clients claim one address unless both were down at first |
| DhcpGrants.BoundOnlyByOwnAck | iec61850InetV2.6/inet/src/applications/dhcp/DHCPClient.cc:430-488 | in every run, messages lost, duplicated and reordered, a client becomes BOUND only by an acknowledgement under the id of its own last message, which was a request for the address acknowledged, that of its lease |
| DhcpSharing.AddressSharedExactlyWhen | iec61850InetV2.6/inet/src/applications/dhcp/DHCPClient.cc:98-103 | some run brings two given clients to the same address exactly if the pool is not empty and both were down at first |
| DhcpClientModule.DHCPClient.StartApp | iec61850InetV2.6/inet/src/applications/dhcp/DHCPClient.cc:727-732 | starts at the configured time or at once if that is over, fails exactly on an interface with an address, and leaves the hardware address as it was |
| DhcpSystem.AddressLostExactlyWhen | iec61850InetV2.6/inet/src/applications/dhcp/DHCPServer.cc:448-461 | a DISCOVER takes an address from its holder exactly if it asks for an address in the table and its client has none; it then is that client's |
| DhcpSystem.NoRunFails | iec61850InetV2.6/inet/src/applications/dhcp/DHCPClient.cc:206-293 | in every run of the whole system, halts and restarts of clients included, no step ends in a runtime error, the check of the interface at a restart included, and every client that is up has some timer pending |
| DhcpExchange.ObtainsAddress | iec61850InetV2.6/inet/src/applications/dhcp/DHCPClient.cc:402-488 | a client that starts over, answered by a server with a free address or an old one for it, is bound after DISCOVER, OFFER, REQUEST and ACK to an address of the pool, its old one if it has one and the first free one otherwise, with all timers set |
| DhcpExchange.TimeoutObtains | iec61850InetV2.6/inet/src/applications/dhcp/DHCPClient.cc:250-259 | whatever the client was waiting for, after the response timer it comes to be bound if nothing is lost from then on |
| DhcpExchange.StartObtains | iec61850InetV2.6/inet/src/applications/dhcp/DHCPClient.cc:236-249 | a client without a lease obtains an address at its start |
| DhcpExchange.LeaseEndsAndObtains | iec61850InetV2.6/inet/src/applications/dhcp/DHCPClient.cc:284-290 | at the end of the lease the address leaves the interface, and the client obtains one anew |
| DhcpExchange.RebindsAddress | iec61850InetV2.6/inet/src/applications/dhcp/DHCPClient.cc:267-278 | at T2 a client whose renewal got no answer is bound to its address anew if the server knows it |
| DhcpExchange.RebindingRefused | iec61850InetV2.6/inet/src/applications/dhcp/DHCPClient.cc:500-519 | if the server does not know the address, a rebinding client gives it up and starts over |
| DhcpExchange.AcceptanceRefused | iec61850InetV2.6/inet/src/applications/dhcp/DHCPServer.cc:219-251 | the acceptance of an address that is not on file for the client is refused, and the client starts over |
| DhcpExchange.UnknownLeaseObtains | iec61850InetV2.6/inet/src/applications/dhcp/DHCPServer.cc:262-269 | after a reboot with an address the server does not know there is no answer, and the client obtains an address after the response timer |
| DhcpExchange.RenewsAddress | iec61850InetV2.6/inet/src/applications/dhcp/DHCPClient.cc:260-266 | at T1 a bound client is bound anew to the address it has |
| DhcpExchange.UnknownAddressGivenUp | iec61850InetV2.6/inet/src/applications/dhcp/DHCPServer.cc:286-305 | a renewal of an address the server does not know is refused; the client takes it off the interface and starts over |
| DhcpExchange.RebootConfirmsAddress | iec61850InetV2.6/inet/src/applications/dhcp/DHCPServer.cc:258-279 | a client that comes up with a lease the server knows has it confirmed and is bound to it |
| Macho.IsChildIsPrefix | iec61850InetV2.6/inet/src/util/Macho.h:798-802 | the recursion over parents decides whether one state lies on the path to the other |
| MachoEngine.Machine.ExitState | iec61850InetV2.6/inet/src/util/Macho.cc:157-175 | the exits run bottom-up to the innermost strict superstate of the target, the target itself included, and exactly the own boxes of the states left go |
| MachoEngine.Machine.SaveHistoryOf | iec61850InetV2.6/inet/src/util/Macho.h:274-296 | exactly the superstates that keep a history get their slot set, each by its own strategy |
| MachoEngine.Machine.PerformTransitions | iec61850InetV2.6/inet/src/util/Macho.cc:359-410 | the inner loop carries out the pending transition and what the inits, or the history in place of the first init, then request, each in turn; it ends because each goes deeper |
| MachoEngine.Machine.RattleOn | iec61850InetV2.6/inet/src/util/Macho.cc:352-422 | the pending transition and those requested by the handlers of the events are carried out one after the other, and nothing else happens |
| MachoEngine.Machine.Dispatch | iec61850InetV2.6/inet/src/util/Macho.h:1947-1957 | what the handler of the event requests is carried out, and then what the handlers of further events request |
| MachoEngine.Machine.SetState | iec61850InetV2.6/inet/src/util/Macho.cc:246-256 | a transition to the history of a state ends in what it remembers, by its strategy the last strict substate to be current or the first state on the way to it, or below it if its init says so; without memory, or without asking for it, in the state or where its init leads |
| MachoEngine.Machine.ClearHistoryDeep | iec61850InetV2.6/inet/src/util/Macho.cc:309-318 | empties exactly the slots of the state and its substates |
| MachoRuns.MoveAsks | iec61850InetV2.6/inet/src/util/Macho.cc:177-191 | the next request after a transition is the state that the target remembers, if its history is asked for and there is one, and otherwise what its init action says; what it remembers is its last strict substate to be current |
| MachoRuns.HistoryLeadsBack | iec61850InetV2.6/inet/src/util/Macho.cc:177-191 | a transition to the history of a state leads back to the state that was left, and stays there if that requests nothing more |
| MachoRuns.SettledCarriesOut | iec61850InetV2.6/inet/src/util/Macho.cc:357-410 | the log after a transition is a chain of inits, each that of the state asked for by the one before; the machine ends in the state whose init asks for nothing |
| MachoRuns.TransitionPath | iec61850InetV2.6/inet/src/util/Macho.cc:139-175 | a transition exits bottom-up to the innermost common strict superstate of the target and enters the target top-down from there, so that self transitions and transitions to a superstate exit and enter it again |
| MachoRuns.MoveKeepsInv | iec61850InetV2.6/inet/src/util/Macho.cc:359-398 | one transition keeps entry and exit order, boxes and history right |
| MachoRuns.EnteredAreCurrentAndAbove | iec61850InetV2.6/inet/src/util/Macho.cc:139-175 | after any run the states entered and not left are the current one and its superstates; none was entered while active, left while inactive or with an active substate, or initialized unless innermost |
| MachoRuns.BoxesLiveWithTheirStates | iec61850InetV2.6/inet/src/util/Macho.h:924-934 | after any run an own box is live exactly while its state is active, an empty or persistent one from the first entry on |
| MachoRuns.HistoryIsWhatWasLastLeft | iec61850InetV2.6/inet/src/util/Macho.cc:177-191 | after any run a slot is empty or a proper substate: the last strict substate to stop being current since the slot was used or cleared (deep), or the first state on the way to it (shallow) |
| MachoRuns.TransitionsArrive | iec61850InetV2.6/inet/src/util/Macho.cc:352-410 | a transition ends in the requested state or below it |
| MachoRuns.ShutdownLeavesEverything | iec61850InetV2.6/inet/src/util/Macho.cc:278-288 | after a shutdown no state is active and no own box is live |
| PatternMeaning.DenotesConcat | iec61850InetV2.6/inet/src/util/PatternMatcher.cc:223-314 | what a list of elements stands for is compositional: a line is cut between any two parts of the list |
| PatternMeaning.SubstringMode | iec61850InetV2.6/inet/src/util/PatternMatcher.cc:83-92 | the elements added around a pattern in substring mode make it match exactly the lines with a part that the pattern stands for |
| PatternGrammar.TokenRead | iec61850InetV2.6/inet/src/util/PatternMatcher.cc:57-81 | ?, *, **, a set of characters and ranges or a numeric range in braces, anywhere in a pattern, is read as the element it stands for, in dotted-path mode or not |
| PatternGrammar.TextRead | iec61850InetV2.6/inet/src/util/PatternMatcher.cc:139-183 | a text of plain and escaped characters, with any number of numeric ranges in square brackets in it, is read as the literals and numbers it stands for |
| PatternGrammar.CompilingInvertsSpelling | iec61850InetV2.6/inet/src/util/PatternMatcher.h:36-76 | whatever sequence of text, plain or escaped, ?, *, **, sets with ranges and enumerations, and numeric ranges in braces or square brackets is written out, the compiler gives back what it stands for |
| PatternNotations.NotationMatches | iec61850InetV2.6/inet/src/util/PatternMatcher.h:36-76 | a single notation matches exactly the lines documented: numbers between the bounds, both included, one character in or not in the set, any text with or without dots, the text itself with numbers for its bracketed ranges |
| PatternGrammar.UnclosedSetIsError | iec61850InetV2.6/inet/src/util/PatternMatcher.cc:133-134 | a set without its closing brace is an error, whatever is written before it |
| PatternGrammar.TrailingBackslashIsError | iec61850InetV2.6/inet/src/util/PatternMatcher.cc:145-149 | a backslash at the very end of a text leads past the end of the pattern |
| PatternSyntax.NoWildcardsMeansEquality | iec61850InetV2.6/inet/src/util/PatternMatcher.cc:370-375 | a pattern in which containsWildcards finds nothing matches exactly itself |
| PatternSyntax.EscapingIsExact | iec61850InetV2.6/inet/src/util/PatternMatcher.cc:139-154 | with a backslash before every character any text matches exactly itself |
| PatternEscapes.MarkingIsExactlyWhen | iec61850InetV2.6/inet/src/util/PatternMatcher.cc:139-154 | with a backslash before each ?, *, {, [ and backslash, a text matches exactly itself if and only if none of its brackets opens a numeric range |
| PatternSyntax.EscapedRangeMissesItself | iec61850InetV2.6/inet/src/util/PatternMatcher.cc:63-67 | an escaped range is compiled as a range all the same and does not match its own text |
| PatternSyntax.RangeExactlyWhen | iec61850InetV2.6/inet/src/util/PatternMatcher.cc:156-183 | a numeric range is recognized exactly where n..m stands up to the closing character, either bound missing or not, with the numbers written as bounds |
| PatternMatching.PatternMatcher.ParseNumRange | iec61850InetV2.6/inet/src/util/PatternMatcher.cc:156-183 | succeeds exactly where n..m stands up to the closing character, and then returns the numbers written and the end |
| PatternMatching.PatternMatcher.ParseLiteralString | iec61850InetV2.6/inet/src/util/PatternMatcher.cc:139-154 | the literal and where it ends |
| PatternMatching.PatternMatcher.ParseSet | iec61850InetV2.6/inet/src/util/PatternMatcher.cc:98-137 | the ranges of a set or the error of an unclosed one |
| PatternMatching.PatternMatcher.SetPattern | iec61850InetV2.6/inet/src/util/PatternMatcher.cc:50-96 | the compiled pattern: its elements, closed by END, or the error |
| PatternMatching.PatternMatcher.IsInSet | iec61850InetV2.6/inet/src/util/PatternMatcher.cc:209-221 | whether some stored range contains the character |
| PatternMatching.AnySeqLast | iec61850InetV2.6/inet/src/util/PatternMatcher.cc:281-282 | the first shortcut: a final ** takes any rest |
| PatternMatching.AnySeqLiteralLast | iec61850InetV2.6/inet/src/util/PatternMatcher.cc:283-284 | the second shortcut: between ** and the end a literal is an ending |
| PatternMatching.LiteralEnding | iec61850InetV2.6/inet/src/util/PatternMatcher.cc:326-338 | the check of the last two characters rejects only lines that do not match |
| PatternMatching.NumberTakesAllDigits | iec61850InetV2.6/inet/src/util/PatternMatcher.cc:269-276 | a number can only end where the digits end |
| PatternMatching.PatternMatcher.DoMatch | iec61850InetV2.6/inet/src/util/PatternMatcher.cc:223-314 | backtracking with its shortcuts answers exactly whether the rest of the line can be cut into pieces for the rest of the elements, and ends |
| PatternMatching.PatternMatcher.Matches | iec61850InetV2.6/inet/src/util/PatternMatcher.cc:316-342 | true exactly if the line can be cut into one piece for each element |
| Reassembly.ReassemblyBuffer.MergeFragments | iec61850InetV2.6/inet/src/base/ReassemblyBuffer.cc:83-128 | passes over the stored fragments until one changes nothing, and ends |
| Reassembly.ReassemblyBuffer.AddFragment | iec61850InetV2.6/inet/src/base/ReassemblyBuffer.cc:39-81 | with the pieces of one datagram the main region stays the longest received prefix and the stored fragments the other pieces; with any fragments, nothing the buffer has is lost, nothing is made up, and the new fragment is added unless it is neither adjacent to the main region nor disjoint from it |
| Reassembly.SweepHolds | iec61850InetV2.6/inet/src/base/ReassemblyBuffer.cc:91-125 | one pass keeps the main region a prefix of received pieces and loses no piece beyond it |
| Reassembly.AfterInOrder | iec61850InetV2.6/inet/src/base/ReassemblyBuffer.cc:47-128 | after any arrival order with any repetitions the main region is the longest received prefix and the stored fragments are exactly the other pieces received |
| Reassembly.CompleteExactlyWhenAllArrived | iec61850InetV2.6/inet/src/base/ReassemblyBuffer.cc:39-45 | complete exactly when every piece has arrived, and then the length is that of the datagram and nothing is left over |
| Reassembly.NothingIsMadeUp | iec61850InetV2.6/inet/src/base/ReassemblyBuffer.cc:39-128 | whatever fragments come in, overlapping ones included, the main region covers only offsets that some received fragment covers, and a datagram reported complete has been received at every offset below its length |
| Reassembly.HasExactlyWhen | iec61850InetV2.6/inet/src/base/ReassemblyBuffer.cc:47-128 | after any fragments whatever the buffer has exactly the offsets of those that, when they came in, were adjacent to the main region or disjoint from it |
| LifecycleModules.LifecycleController.InitiateOperation | iec61850InetV2.6/inet/src/base/LifecycleController.cc:85-92 | returns whether the operation is over already; if not, everybody has been asked for the stage begun and exactly the pending modules owe a callback |
| LifecycleModules.LifecycleController.DoOneStage | iec61850InetV2.6/inet/src/base/LifecycleController.cc:114-136 | asks exactly the participants of a module tree, each once in order; those not done at once are pending |
| LifecycleModules.LifecycleController.ModuleOperationStageCompleted | iec61850InetV2.6/inet/src/base/LifecycleController.cc:138-156 | one module fewer owes a callback; after the last one of a stage the next stages are begun, up to one that is pending, or all are over, the barrier holding throughout |
| Lifecycle.NodeStatus.HandleOperationStage | iec61850InetV2.6/inet/src/status/NodeStatus.cc:54-101 | throws at the first stage unless a node to be started is down and one to be shut down or to crash is up, and at a later last stage unless it is going up or down; otherwise the status is going up or down from the first stage on, and up or down from the last |
| LifecycleRuns.StageAsks | iec61850InetV2.6/inet/src/base/LifecycleController.cc:114-136 | a stage asks exactly the participants, each once, in the order of the traversal |
| LifecycleRuns.BarrierInEveryRun | iec61850InetV2.6/inet/src/base/LifecycleController.cc:94-156 | for any tree and any order of callbacks each participant is asked once per stage begun, and no stage begins before the previous one is finished everywhere |
| LifecycleRuns.NoticeExactlyWhen | iec61850InetV2.6/inet/src/base/LifecycleController.cc:108-111 | the completion notice comes exactly if one was asked for, the initiating call returned false and all callbacks have come since |
| LifecycleRuns.CallbacksUnsharedInEveryRun | iec61850InetV2.6/inet/src/base/LifecycleController.cc:119-128 | no two pending modules hold the same callback object, and the spare one is held by none |
| LifecycleRuns.StatusInEveryRun | iec61850InetV2.6/inet/src/status/NodeStatus.cc:54-101 | the status never errs in an operation that starts in the right one, and reaches UP or DOWN exactly in the last stage, after all earlier ones are finished everywhere |
| LifecycleRuns.StatusErrsExactlyWhen | iec61850InetV2.6/inet/src/status/NodeStatus.cc:54-101 | in every run the status errs exactly if the operation starts in the wrong one |
| ByteQueue.CopyInsideExactlyWhen | iec61850InetV2.6/inet/src/base/ByteArray.cc:52-61 | a copy stays inside its slice exactly if offset plus length does not wrap around at 2^32 |
| ByteQueue.GatheredIsWindow | iec61850InetV2.6/inet/src/base/ByteArrayBuffer.cc:51-71 | a walk over the slices reads exactly the window of the flat queue, wherever the slices are cut, empty ones included |
| ByteQueue.ByteArrayBuffer.Push | iec61850InetV2.6/inet/src/base/ByteArrayBuffer.cc:43-49 | appends the bytes to the queue |
| ByteQueue.ByteArrayBuffer.GetBytesToBuffer | iec61850InetV2.6/inet/src/base/ByteArrayBuffer.cc:51-71 | puts exactly the requested window into the buffer, leaves the rest of the buffer alone and returns its length |
| ByteQueue.ByteArrayBuffer.Drop | iec61850InetV2.6/inet/src/base/ByteArrayBuffer.cc:78-103 | removes exactly the first n bytes, and bytes pushed stay bytes removed followed by the contents |
| ByteQueue.ByteArrayBuffer.PopBytesToBuffer | iec61850InetV2.6/inet/src/base/ByteArrayBuffer.cc:73-76 | copies and removes the first bytes; together with Drop, what is popped is a prefix of what was pushed |

## Left out

- The OMNeT++ kernel: scheduling, gates, signals, display strings and logging. An event queue is a set of pending timers and a choice of the next step.
- Floating point: Int128 conversions from and to float, and rounding of distances and times.
- GOOSE: frame length accounting, all header fields that no receiver looks at, the sampled-value hook, several P&C devices that disagree, devices that are halted and started again, and the routes that frames take.
- Topology: extraction from a network, the overload of addLink for gates, which can throw after it has unlinked, and the plain accessors. A deleted object is one that no list or vector mentions any more.
- Int128Arithmetic.Int128.Div: says nothing about zero or the most negative number as divisor; the first raises a machine exception in the source, and the second never ends.
- Int128Arithmetic.Int128.SetBit: only sets; clearing a bit has no caller among the operators.
- Int128: assignment from negative 32- and 64-bit integers, increment and decrement, bitwise compound operators, and the printing radix 37, whose largest digit the reader cannot take.
- DHCP: releases, declines and expiry on the server, several servers, a server that is stopped and loses its table, association events of wireless interfaces, routing-table effects, and the options that neither side's decisions depend on.
- Macho: snapshots, the deprecated pending box, inits with parameters, and the dummy event of debug builds. States are named by their path from Root, and the fields of the state objects are maps from names; the tree of objects itself is not modelled. How handlers and inits react is a parameter.
- Macho.Machine.Dispatch: the handlers' reactions come from a finite script; handlers that dispatch a new event for ever are not modelled, because the outer loop then has no end.
- PatternMatching.PatternMatcher.Matches: case-sensitive mode only; characters are compared by code, and numbers beyond the range of long are read as its largest value, where C leaves the result open.
- PatternSyntax: a trailing backslash leads the source past the end of the text; the model reports it as an error of its own. patternPrefixMatches and debug output are not modelled.
- Reassembly: fragments that end before they begin; only `NothingIsMadeUp` speaks of them.
- Lifecycle: nested operations that share the spare callback, XML commands, and what participants other than the node status do.
- ByteQueue: slices are values, so sharing of a pushed array is not modelled; the 64-bit length counter is unbounded.
- HTTP tools, traffic generators, packet dumps and the other modules of the repository: input and output, statistics, or loops with easy claims.
