# CoLoR resource management, border routing and monitoring: a verified model

CoLoR routes packets between domains over inter-domain paths that are named by short-lived path
identifiers (PIDs). This project models, in Dafny, the parts of the system whose correctness is not
visible from a single function body, and proves what they promise:

* **The resource manager (RM).** Each domain has one. Two neighbouring RMs renegotiate the PIDs of the
  paths between them with four messages: the sponsor asks (change_request), the other end proposes
  (pid_a), the sponsor resolves conflicts with its own link table and answers (pid_b), and the other end
  either installs the list and acknowledges it (ack) or rejects it and proposes again (pid_a).
  `LinkTable`, `PidChain`, `Resolver` and `Negotiation` give the table, its per-neighbour index, the
  conflict-resolution loop and the four handlers as values. `ResourceManager` is the same RM as it runs:
  heap nodes, a table and buffers overwritten in place, every method tied to the value model. `Reactions`
  says what the handlers do in terms of what a manager holds. `Network`, `Agreement`, `TimerAgreement`,
  `Distinctness` and `Interleaving` are about all runs of any number of RMs joined by lossless
  first-in-first-out channels, with any number of overlapping negotiations.
* **PIDs in packets.** `PidStack` and `BorderRouter` model the PID that is appended to get and control
  packets, the PID stack in the middle of data packets, and the border router that reads, strips and pops
  them; `Forwarding` says what a router does to each kind of packet and follows packets over several
  routers; `WireKeys` joins this with the negotiation.
* **The monitoring agent.** `TimerSpec` and `TimerList` model the sorted, doubly linked, delta-coded timer
  list and its alarm handler; `InformSpec` and `Inform` the packing, fragmenting and decoding of inform
  requests; `TrapMonitor` the load and connection traps.
* **The data plane and its configuration.** `TxBuffer` is the transmit buffering of the RM, `Checksum` the
  two Internet checksums, the header tests and the forwarding patch. `ClickSpec` and `ClickConfig` model
  the generator of border-router configurations.

`Words` holds the machine integers. Random numbers, clock values, the number of packets a driver accepts
and what a user types are inputs, arbitrary in the range the code gives them.

## Where the code does not do what it seems to promise

Each of these is kept as the code has it. The condition under which the promise holds is proved in both
directions, for the wire keys the failure itself for every run, and an input at which it fails is given
where it can be written down in a line.

* Three loops of the RM count table rows in eight bits, so only the first `rows % 256` are reached: writing
  a list back misses a neighbour's rows beyond them (`PidChain.WriteBackReach`), announcing misses every
  border router and path beyond them (`Negotiation.AnnounceReachIff`), and conflict resolution misses PIDs
  that occur only there (`Negotiation.ResolveReachIff`). Of 256 rows none is reached
  (`PidChain.FullTableUnreached`).
* The timer of a pending proposal is one cell for all neighbours. An event puts the timer of a link out of
  step if and only if it takes in another neighbour's pid_a with a different timer while the link still
  relies on the cell (`Agreement.StepInStep`, over runs `Agreement.RunInStep`; for one manager
  `Interleaving.CrossingTimerIff`). When nothing is under way, the timers of the two ends agree if and only
  if the cell held the responder's own timer at its last ack (`TimerAgreement.TimersAgreeIff`).
* Nothing re-checks a pending proposal when its ack comes. The lists of a manager's neighbours are disjoint
  throughout a run if and only if every ack finds its proposal still clear of the others
  (`Interleaving.DisjointThroughoutIff`, `NetworkDisjointIff`); crossing negotiations with two neighbours can
  end with one PID at both (`CrossingBreaksDisjointness`).
* Negotiated PIDs are far below 2^24, so on the wire they start with a NUL byte, and the border router
  keys its table by C strings: in every reachable state a list is the one a manager started with or all its
  PIDs share the empty key (`WireKeys.ReachedListsShareOneKey`, `RouterMergesNegotiatedPids`).
* The alarm handler reads the head of an emptied list when every timer lies in the past
  (`TimerSpec.CrashIff`, `PastTimerCrashes`), and replacing a timer in the middle can leave a stale gap
  behind (`TimerSpec.InsertKeepsGapsIff`, `StaleGapFiresEarly`).
* Naming an item twice on an inform request takes its bit away again but is counted, and an unknown kind of
  information is counted but gets no tail; either way the request cannot be taken apart
  (`Inform.ReadableIffNamedOnce`, `InformSpec.TwiceNamed`).
* The decoder of inform requests has eight column names, but its items are numbered from 0 to 8: it stays
  inside its table if and only if every request is below 256 (`Inform.ParseInformMessage`), which the
  documented request for bandwidth utilisation is not (`Inform.BandwidthOutsideTable`). The sender here has
  no word for that item (`Inform.SentMeetsDecoder`).
* Every address label of a gateway configuration asks the rewriter for the pattern that only INTDNS
  defines (`ClickSpec.PatternsDefinedIff`, `StrayLabel`), and a translation rule named INTERNAL loses its
  port (`ClickSpec.SourceConnectedIff`, `InternalTranslated`).
* The forwarding patch breaks the header checksum for a time to live of 0 and a stored checksum of 0xffff
  (`Checksum.PatchKeepsHeaderIff`).

## Model

| member | source | states |
|---|---|---|
| LinkTable.CompareNidLoop | RM/wenxingbeng.c:180-195 | the byte loop returns 0 exactly for equal identifiers and a negative number exactly when the first differing byte is smaller |
| LinkTable.CompareTotalOrder | RM/wenxingbeng.c:180-195 | the comparison is a total order, so of two different domains exactly one passes the sponsor test |
| LinkTable.AlignConfigure | RM/wenxingbeng.c:200-224 | the in-place loop turns round exactly the rows that end at the local domain |
| LinkTable.AlignmentLaws | RM/wenxingbeng.c:200-224 | alignment is idempotent, keeps every undirected link in its place, and afterwards a row touches the local domain iff it starts there |
| PidChain.BuildGroups | RM/main.c:1815-1868 | for every table the chain built from it lists each neighbour once, numbered from 0, with exactly the PIDs of its rows in table order |
| PidChain.WriteBackGroups | RM/main.c:2520-2539 | installing a list and writing it back keeps the chain the grouping of the table and changes only the PIDs of that neighbour's rows |
| PidChain.WrittenPrefix | RM/main.c:2520-2539 | after any number of rows the neighbour's rows hold exactly the first PIDs of the new list |
| PidChain.OtherPids | RM/main.c:2532-2538 | the rows of every other neighbour keep their PIDs |
| PidChain.WriteBackReach | RM/main.c:2525-2538 | every list of the right length lands in full iff no row of the neighbour lies beyond the first (rows mod 256) |
| PidChain.FullTableUnreached | RM/main.c:2525 | a table of 256 rows, one of them the domain's only link, of which none is reached, so the link's PID cannot be written back |
| PidChain.BothEndsAgree | RM/main.c:1815-1868 | two domains that load the same table, each aligned to itself, list the same PIDs for each other in the same order |
| Resolver.ShiftsDistinct | RM/main.c:3045-3051 | adding a step of 1..101 in wrapping 32-bit arithmetic gives different values for the first 2^26 rounds |
| Resolver.BlockedBound | RM/main.c:3027-3052 | no more rounds than (PIDs x rows) can all meet a taken PID, so the loop stops for every input |
| Resolver.Resolve | RM/main.c:3027-3052 | the result is free of every PID of the table, keeps the length, and each of its PIDs is the proposed one plus q times the step modulo 2^32, for one q within the bound |
| Resolver.ResolveIsLeastShift | RM/main.c:3027-3052 | it is the first such list without a conflict: every smaller number of steps met a taken PID |
| Negotiation.ReactionFrame | RM/main.c:2932-3179 | every handler keeps the manager well-formed and leaves the list, timer and proposal of every other neighbour alone |
| Negotiation.InstallKeeps | RM/main.c:3122-3128 | an install keeps the chain the index of the table and the position of every neighbour |
| Negotiation.AnnouncedOnce | RM/main.c:2605-2644 | every row of the neighbour is announced exactly once to every border router, with its new PID, its two addresses and twice the change period as lifetime |
| Negotiation.WrittenIsAnnounceable | RM/main.c:2532-2538 | for tables of any size the rows reached hold a prefix of the list just written back, which is what announcing compares with |
| Negotiation.AnnounceReachIff | RM/main.c:2610-2634 | all rows are announced to all border routers iff no row of the local domain lies beyond the first (rows mod 256) |
| Negotiation.ResolveReachIff | RM/main.c:3024-3044 | every resolved list is clear of the whole table iff each PID beyond the first (rows mod 256) also occurs among them |
| Negotiation.AnyProposalStorable | RM/main.c:3014-3051 | in a well-formed manager any proposal fits its buffer and can be resolved |
| Network.OneSponsor | RM/main.c:2664-2700 | of two neighbouring managers exactly one asks the other, the one with the smaller identifier |
| Network.StepShape | RM/main.c:2929-3196 | every step keeps: managers well-formed, both ends know the link with equally many paths, messages travel the right way and carry as many PIDs |
| Network.NeverStuck | RM/main.c:2929-3196 | the oldest message of every channel of a reachable state can be handled, whatever random number is drawn |
| Network.InitialLink | RM/main.c:1815-1868 | managers that loaded the same table start with equal lists and timers for each other |
| Agreement.StepInStep | RM/main.c:2932-3196 | every event of any link keeps the lists in step: the newest pid_b carries the pending proposal; with only an ack under way the responder holds it; with nothing under way both ends agree; it keeps the timer in step iff it keeps the shared cell or finds the link not relying on it |
| Agreement.RunInStep | RM/main.c:2932-3196 | the lists of a link are in step throughout every run, its timer in exactly those runs whose every event keeps the cell |
| Agreement.Agreement | RM/main.c:2929-3196 | for every link table and every run, whenever both channels between two managers are empty they hold the same PID list for each other, and the same timer if every event kept the sponsor's cell for the link |
| TimerAgreement.TimersAgreeIff | RM/main.c:2994-3179 | for every table and run, with both channels empty the two ends hold the same timer iff no ack reached the sponsor or the last pid_a of any neighbour before the last ack carried the timer of the responder's own last pid_a |
| Reactions.ChangeRequestAnswered | RM/main.c:2943-2987 | a change_request is answered with a pid_a whose timer and PIDs are those held plus the number, modulo 2^32 and then 100 |
| Reactions.PidAAnswered | RM/main.c:2994-3063 | a pid_a is answered with its own timer and with its PIDs moved on past every PID of the table, both kept as pending; nothing is installed |
| Reactions.PidBAcceptedIff | RM/main.c:3091-3151 | a pid_b is acknowledged, and its list and timer installed, iff none of its PIDs is in use at any neighbour, the sender included; otherwise the answer is one pid_a made from the rejected list, and nothing changes |
| Reactions.AckInstalls | RM/main.c:3156-3176 | an ack installs the pending list and the timer of the shared cell, and is not answered |
| Reactions.AnnouncesIff | RM/main.c:3131-3179 | an ack and an accepted pid_b announce one item for each path and border router; every other message announces nothing |
| Reactions.AnnouncedAt | RM/main.c:2605-2644 | announcement c*h+q carries the c-th PID now held, the addresses of the c-th path and a lifetime of two periods, and goes to border router q |
| Reactions.RoutersAreLocal | RM/main.c:2625-2632 | the border routers told are those at the inner addresses of the rows of the local domain |
| Reactions.PidBDelivered | RM/main.c:3091-3151 | the same for every delivery in the network: ack and new list and timer, or a proposal and no manager changed |
| Reactions.NegotiationRound | RM/main.c:2929-3179 | an undisturbed round from request to ack ends the negotiation, with the offered list and timer at both ends and nothing under way, iff no offered PID is in use at the responder; otherwise both ends keep theirs and the next offer is under way |
| Distinctness.ProposeDistinctIff | RM/main.c:2969-2976 | a proposal has no repetition iff the current PIDs differ modulo 100 |
| Distinctness.ResolveGood | RM/main.c:3027-3058 | the shift of the resolver keeps a proposal distinct modulo 100 and without wrap-around |
| Distinctness.PidsStayDistinct | RM/main.c:2932-3179 | if the table's lists differ modulo 100 and leave room for the random number, every neighbour's PIDs are pairwise distinct in every reachable state |
| Distinctness.ListsGetShort | RM/main.c:2932-3179 | in every reachable state a neighbour's list is the one the manager started with or all its PIDs are below 2^24 |
| Interleaving.AckKeepsDisjointIff | RM/main.c:3156-3179 | an ack keeps the PIDs of different neighbours disjoint iff the pending proposal is still clear of the others |
| Interleaving.StepUncrossed | RM/main.c:2994-3179 | every accepted message, an ack only while its pid_a is fresh, keeps: neighbours disjoint, and fresh proposals clear of all other neighbours |
| Interleaving.NeighboursStayDisjoint | RM/main.c:3091-3179 | the PIDs of different neighbours stay disjoint in every run in which no other install falls between a pid_a and its ack |
| Interleaving.DisjointThroughoutIff | RM/main.c:3091-3179 | for every accepted message sequence the neighbours' lists are disjoint in every state iff every ack finds its proposal clear of the other neighbours |
| Interleaving.NetworkDisjointIff | RM/main.c:3091-3179 | the same for every manager in every run of a network |
| Interleaving.RunAtManager | RM/main.c:2929-3196 | a run of the network does to each manager exactly what the messages that arrive there do |
| Interleaving.NetworkStaysDisjoint | RM/main.c:3091-3179 | the same in every reachable state of a network whose table gives no PID to two neighbours |
| Interleaving.CrossingBreaksDisjointness | RM/main.c:3156-3179 | two crossing negotiations over one free list always end with a PID at two neighbours |
| Interleaving.CrossingTimerIff | RM/main.c:2891-3171 | whatever arrives between a neighbour's pid_a and its ack, the neighbour gets the timer it proposed iff the last pid_a taken in by then carried it |
| ResourceManager.Manager.constructor | RM/main.c:1815-1868 | aligning and building on the heap gives exactly the aligned table and its chain, well-formed |
| ResourceManager.Manager.ReadConfiguration | RM/main.c:1815-1868 | the linked nodes built in place are the chain of the table |
| ResourceManager.Manager.Search | RM/main.c:1714-1784 | the node of the neighbour, or null exactly if it has none |
| ResourceManager.Manager.TableConflict | RM/main.c:3028-3044 | the double loop finds a conflict iff there is one |
| ResourceManager.Manager.ShiftBuffer | RM/main.c:3045-3051 | the buffered PIDs are shifted and no other buffer cell changes |
| ResourceManager.Manager.ResolveBuffer | RM/main.c:3027-3052 | the loop terminates and leaves the least conflict-free shift in the buffer, all other buffers unchanged |
| ResourceManager.Manager.UpdateTable | RM/main.c:2520-2539 | the in-place loop writes back exactly the list |
| ResourceManager.Manager.Announce | RM/main.c:2605-2644 | with its early exit the loop sends exactly the announcements of the neighbour's rows among those the counters reach, for tables of any size |
| ResourceManager.Manager.HandleChangeRequest | RM/main.c:2932-2989 | the reply of the value model, nothing changed |
| ResourceManager.Manager.HandlePidA | RM/main.c:2994-3067 | new state and reply are those of the value model |
| ResourceManager.Manager.HandlePidB | RM/main.c:3068-3154 | install, ack and announcements, or a new proposal, as in the value model |
| ResourceManager.Manager.HandleAck | RM/main.c:3156-3179 | install of the pending proposal and announcements as in the value model |
| ResourceManager.Manager.Timer0 | RM/main.c:2648-2701 | the double loop selects the neighbours that pass the sponsor test, each once, in chain order |
| ResourceManager.Manager.SponsoredMeaning | RM/main.c:2673-2675 | those are exactly the neighbours to which a request may go out in the network model |
| ResourceManager.Manager.SponsoredInOrder | RM/main.c:2664-2700 | no neighbour is selected twice, and they come in the order of the chain |
| PidStack.PopRemovesLast | IPN/ipborderrouter.cc:111-134 | an inside hop removes exactly the last PID, lowers count and length, routes on that PID, and keeps the payload and all other header bytes |
| PidStack.AppendedPidIsRead | RM/main.c:2297-2311 | for every packet with a CoLoR length field, get or control, the PID appended by the sender is the one a border router reads at the length field plus 30; the packet is addressed as told and otherwise keeps all bytes but the length |
| PidStack.StripUndoesAppend | IPN/ipborderrouter.cc:236-247 | for every control packet, bare headers included, take(8), put(4) and the new length remove exactly the appended PID |
| PidStack.DecodeEncoded | RM/main.c:3014-3022 | whatever agrees with an encoded message behind the control header decodes to what was encoded |
| PidStack.UpdatePidIff | RM/wenxingbeng.c:482-498 | the length of a get packet stays header plus 4 per PID iff the eight-bit count had room; the new PID is what a router reads, and all other bytes are kept |
| PidStack.KeysEqualIff | IPN/ipborderrouter.cc:94-95 | two PIDs are one table key iff they agree up to their first NUL |
| Forwarding.DataFromInside | IPN/ipborderrouter.cc:111-140 | for every router and data packet addressed to it: with PIDs the packet goes where its last PID leads, without that PID, four bytes shorter, with the same payload; without PIDs nothing is sent |
| Forwarding.DataFromOutside | IPN/ipborderrouter.cc:141-173 | from outside, stack and payload stay as they were; the last PID, or without PIDs the network identifier, decides where the packet goes |
| Forwarding.GetForwarded | IPN/ipborderrouter.cc:85-109 | a get packet goes by the PID at its end, or from outside to the local manager, with nothing but its addresses changed |
| Forwarding.NegotiationForwarded | IPN/ipborderrouter.cc:220-247 | a negotiation message from inside goes by the PID at its end, unchanged; from outside it loses its last four bytes and goes to the local manager |
| Forwarding.AnnouncementStored | IPN/ipborderrouter.cc:183-208 | an announced PID leads to the address that is not the router's own, every other key leads where it led, and nothing is sent |
| Forwarding.OthersUntouched | IPN/ipborderrouter.cc:80-265 | packets for others pass unchanged; only the three kinds of own packets are sent on, and only an announcement changes the router |
| Forwarding.CrossUsesWholeStack | IPN/ipborderrouter.cc:111-137 | over routers each of which is where the one before it sends, hop i routes on PID n-1-i and leaves the first n-1-i PIDs, the original payload and a length lowered by 4(i+1) |
| Forwarding.MessageSurvivesPath | IPN/ipborderrouter.cc:220-247 | each of the four messages, appended to by the sender, pushed through the near router from inside and the far one from outside, reaches the far manager with its whole header but addresses and length, and a list message decodes to its timer and PIDs |
| WireKeys.NegotiatedPidsShareOneKey | IPN/ipborderrouter.cc:192-208 | every PID a sponsor settles on has the empty key, whatever it was shifted past |
| WireKeys.ReachedListsShareOneKey | IPN/ipborderrouter.cc:192-208 | in every reachable state of every network a neighbour's list is the initial one or all its PIDs have the empty key |
| WireKeys.RouterMergesNegotiatedPids | IPN/ipborderrouter.cc:192-208 | a router told about any number of such PIDs routes the packets of all their paths by the address of the last |
| BorderRouter.AddPidAndIp | RM/main.c:2297-2311 | the in-place append is the append of the byte model |
| BorderRouter.AddPid | RM/main.c:1323-1353 | the same for get packets, which keep their destination |
| BorderRouter.UpdatePidInPlace | RM/wenxingbeng.c:482-498 | the in-place update is that of the byte model |
| BorderRouter.IPBorderRouter.CutOut | IPN/ipborderrouter.cc:122-126 | copy out, pull and copy back over overlapping bytes remove exactly four bytes from the middle |
| BorderRouter.IPBorderRouter.PopData | IPN/ipborderrouter.cc:118-133 | the pop in the buffer is the pop of the byte model, to the port of the popped PID |
| BorderRouter.IPBorderRouter.StripControl | IPN/ipborderrouter.cc:236-241 | moving the end and rewriting the header is the strip of the byte model |
| BorderRouter.IPBorderRouter.PushControlPacket | IPN/ipborderrouter.cc:176-250 | tables, packet and output port for every control packet |
| BorderRouter.IPBorderRouter.PushDataPacket | IPN/ipborderrouter.cc:111-173 | packet and output port for every data packet, from either side |
| BorderRouter.IPBorderRouter.PushPacket | IPN/ipborderrouter.cc:46-265 | every branch of push, the packets of other routers included, for every packet that holds the bytes its branch reads |
| TimerSpec.InsertIsMapUpdate | NetworkMonitoringTools/stats_send_ver_test1/local_timer.c:46-166 | insertion replaces the timer with the same id and flag, keeps all others, and ignores a timer in the past |
| TimerSpec.InsertKeepsOrder | NetworkMonitoringTools/stats_send_ver_test1/local_timer.c:46-166 | the list stays sorted by time and free of duplicates |
| TimerSpec.InsertKeepsGapsIff | NetworkMonitoringTools/stats_send_ver_test1/local_timer.c:24-31 | the stored gaps stay right iff the timer replaced was not a middle one at another time than its predecessor whose place the new one does not take |
| TimerSpec.CrashIff | NetworkMonitoringTools/stats_send_ver_test1/main.c:100-131 | the alarm reads a null head iff there are timers and all lie in the past |
| TimerSpec.PastTimerCrashes | NetworkMonitoringTools/stats_send_ver_test1/main.c:105-120 | one past timer at which it does |
| TimerSpec.TickFires | NetworkMonitoringTools/stats_send_ver_test1/main.c:100-131 | which timers an alarm fires and keeps, for every list |
| TimerSpec.TickExactIff | NetworkMonitoringTools/stats_send_ver_test1/main.c:100-131 | an alarm fires exactly the due timers in order iff the stored gaps tell which are due |
| TimerSpec.TickWithGaps | NetworkMonitoringTools/stats_send_ver_test1/main.c:100-131 | with right gaps it does, and the gaps stay right |
| TimerSpec.CleanRunsFireOnTime | NetworkMonitoringTools/stats_send_ver_test1/main.c:91-132 | in every run without crash and stale gap the alarms fire exactly the due timers |
| TimerSpec.StaleGapFiresEarly | NetworkMonitoringTools/stats_send_ver_test1/local_timer.c:24-31 | a list and an insertion after which the next alarm fires a timer ten seconds early |
| TimerList.InsertATimer | NetworkMonitoringTools/stats_send_ver_test1/local_timer.c:46-166 | relinking in place gives the inserted list, linked in both directions |
| TimerList.DeleteRepeteTimer | NetworkMonitoringTools/stats_send_ver_test1/local_timer.c:3-39 | unlinks exactly the node, returns its successor, leaves all values alone |
| TimerList.DelATimer | NetworkMonitoringTools/stats_send_ver_test1/local_timer.c:168-228 | removes exactly the first timer with the number |
| TimerList.SigFunc | NetworkMonitoringTools/stats_send_ver_test1/main.c:91-132 | rest, fired timers and crash are those of the tick |
| InformSpec.CountedIffNamedOnce | NetworkMonitoringTools/stats_send_ver_test1/local_inform.c:52-93 | the request has as many bits as words were counted, and exactly those of the named items, iff no item is named twice |
| InformSpec.TwiceNamed | NetworkMonitoringTools/stats_send_ver_test1/local_inform.c:78-81 | a repeated item: no bit is set and two tails are counted |
| InformSpec.GroupsKeepPorts | NetworkMonitoringTools/stats_send_ver_test1/local_inform.c:258-355 | the datagrams hold all ports in order, each once |
| InformSpec.GroupsFull | NetworkMonitoringTools/stats_send_ver_test1/local_inform.c:322-354 | no datagram is longer than 1024 bytes, and none is sent while the next port still fits |
| InformSpec.DecodeRecords | NetworkMonitoringTools/stats_send_ver_test1/local_comm.c:106-149 | reading undoes packing, whatever follows in the buffer: the bit loop consumes exactly the tails written |
| InformSpec.FragmentsRoundTrip | NetworkMonitoringTools/stats_send_ver_test1/local_inform.c:258-358 | for every list of ports that can be read back the datagrams sent give back exactly those ports, whatever fills unwritten room, and none is longer than the buffer |
| InformSpec.ReplyFits | NetworkMonitoringTools/stats_send_ver_test1/local_comm.c:95-149 | a reply is at most 60/52 of the records it answers |
| InformSpec.ReplyAt | NetworkMonitoringTools/stats_send_ver_test1/local_comm.c:95-149 | where each port, each tail and each value stands in the reply |
| Inform.ReadRequest | NetworkMonitoringTools/stats_send_ver_test1/local_inform.c:294-320 | the character loop computes request and count of the words of the line |
| Inform.WordMeetsColumn | NetworkMonitoringTools/stats_send_ver_test1/local_inform.c:52-93 | the words read are the eight known ones, and the decoder's column (local_comm.c:71-81) for the bit of a word is the word behind an underscore, packets_loss in the singular |
| Inform.ColumnsMeetWords | NetworkMonitoringTools/stats_send_ver_test1/local_comm.c:118-139 | for a line without repetition the columns looked up are exactly those of the words on it, each once |
| Inform.KindMeetsQuery | NetworkMonitoringTools/stats_send_ver_test1/local_inform.c:193-217 | an entry becomes a tail by whose number the receiver makes the query (mysql_operate.c:451-457) its kind stands for, and none if there is no such query |
| Inform.ReadableIffNamedOnce | NetworkMonitoringTools/stats_send_ver_test1/local_inform.c:176-231 | a port can be read back out of a record as long as claimed iff no item is named twice and every kind is known; given one, readable is the same as the other; without repetition it fits an empty datagram |
| Inform.SendRequests | NetworkMonitoringTools/stats_send_ver_test1/local_inform.c:258-358 | the fill-and-send loop sends exactly the datagrams of the grouping, each with its own record count, as long as the room claimed |
| Inform.AppendRecord | NetworkMonitoringTools/stats_send_ver_test1/local_inform.c:176-231 | the record written holds a tail for each entry of a known kind and none for the others |
| Inform.AnswerPort | NetworkMonitoringTools/stats_send_ver_test1/local_comm.c:118-141 | the shift loop visits exactly the set bits and copies one tail and value for each under the column name of the bit; it stays inside the table of names iff the request is below 256 |
| Inform.ItemsBelowIff | NetworkMonitoringTools/stats_send_ver_test1/local_comm.c:118-139 | a request has only bits below w iff it is below two to the w |
| Inform.BandwidthOutsideTable | NetworkMonitoringTools/stats_send_ver_test1/main.h:261 | the documented request for bandwidth utilisation: a complete record that is taken apart, and for which there is no column |
| Inform.ParseInformMessage | NetworkMonitoringTools/stats_send_ver_test1/local_comm.c:69-149 | for every well-formed request of at most 1024 bytes the decoder stays inside its table of column names iff every record's request is below 256, and then the reply fits 1280 bytes and answers every port |
| Inform.SentMeetsDecoder | NetworkMonitoringTools/stats_send_ver_test1/local_comm.c:69-149 | each datagram sent for lines without repetition and known kinds meets what the decoder needs, and its reply answers exactly the ports of that datagram, the next ones asked about in turn; for each of them the columns looked up are exactly those of the words on its line |
| TrapMonitor.Monitor.Judge | NetworkMonitoringTools/stats_send_ver_test1/get_port_info.c:570-645 | after a sample the flag is the report for the load, the sent word has just its bit and the kept word just the high bit |
| TrapMonitor.Monitor.LinkDown | NetworkMonitoringTools/stats_send_ver_test1/get_port_info.c:849-862 | while the link is lost both words have the connection bit besides those for the load, and the level is 2 |
| TrapMonitor.Monitor.LinkUp | NetworkMonitoringTools/stats_send_ver_test1/get_port_info.c:899-911 | once it is back they have just those for the load, and the level is 1 exactly if high load is reported, else 0 |
| TrapMonitor.Monitor.Turn | NetworkMonitoringTools/stats_send_ver_test1/get_port_info.c:531-913 | every turn keeps words and flag in step; a lost link is sent with the connection bit and again without it |
| TrapMonitor.ReportMatchesLoad | NetworkMonitoringTools/stats_send_ver_test1/get_port_info.c:570-645 | after every run the flag agrees with the last load sampled |
| TrapMonitor.ReportDependsOnPastIff | NetworkMonitoringTools/stats_send_ver_test1/get_port_info.c:570-645 | the report depends on the one before iff the load lies exactly on a threshold |
| ClickSpec.LinesAt | border_router/conf/click-mkclgw.pl:1455-1481 | the running port counter is the index of the rule's own lines, for every element |
| ClickSpec.ExternConnected | border_router/conf/click-mkclgw.pl:1394-1424 | every output of ip_from_extern is connected exactly once |
| ClickSpec.ClassifierConnected | border_router/conf/click-mkclgw.pl:938-989 | every output of every rule's own classifier is connected exactly once |
| ClickSpec.SourceConnectedIff | border_router/conf/click-mkclgw.pl:1545-1560 | every output of ip_from_intern_src is connected exactly once iff the rule INTERNAL is not itself a translation rule |
| ClickSpec.InternalTranslated | border_router/conf/click-mkclgw.pl:1545-1560 | three valid rules at which they are not |
| ClickSpec.AcceptedReachesOwnInput | border_router/conf/click-mkclgw.pl:964-989 | traffic an accepting rule accepts reaches the rewriter input with that rule's own mapping, and its inside traffic leaves by its own pattern |
| ClickSpec.RestIsDropped | border_router/conf/click-mkclgw.pl:978-986 | all other TCP and UDP traffic for a translation rule goes to the line that drops what it does not know |
| ClickSpec.ClassifierTraffic | border_router/conf/click-mkclgw.pl:964-989 | for every rule with a classifier: traffic for its address reaches it, FTP control traffic goes on to the second input of the TCP rewriter, and its last line is thrown away |
| ClickSpec.GatewayTraffic | border_router/conf/click-mkclgw.pl:911-922 | TCP and UDP for the gateway itself reaches the rewriter input that passes it to the host unchanged |
| ClickSpec.InsideTraffic | border_router/conf/click-mkclgw.pl:926-934 | inside traffic of every translation rule, accepting or not, leaves by the rule's own outgoing pattern |
| ClickSpec.EverythingElse | border_router/conf/click-mkclgw.pl:1634-1647 | the last line of ip_from_extern is thrown away (1394-1416), and that of ip_from_intern_src leaves by the outgoing pattern of EXTERNAL |
| ClickSpec.PatternsDefinedIff | border_router/conf/click-mkclgw.pl:1202-1221 | every pattern the rewriter names is defined iff no address label is listed or INTDNS is one |
| ClickSpec.StrayLabel | border_router/conf/click-mkclgw.pl:1202-1221 | four valid rules for which the pattern asked for is not defined |
| ClickConfig.IpFromExternClassify | border_router/conf/click-mkclgw.pl:1394-1416 | the pass emits the lines and records on each rule the number of its own |
| ClickConfig.TcpFromExternClassify | border_router/conf/click-mkclgw.pl:938-962 | every rule gets its classifier, its port map names the right lines, and the classifier is connected to the rule's address line |
| ClickConfig.IpRewriter | border_router/conf/click-mkclgw.pl:1455-1481 | the lines of the rewriter; recorded ports are their indices; the three last lines are where the map says |
| ClickConfig.RewriterPlumbing | border_router/conf/click-mkclgw.pl:1515-1521 | the connections of all classifiers, from the recorded ports |
| ClickConfig.FromIntPlumbing | border_router/conf/click-mkclgw.pl:1634-1647 | the connections of the inside sources, from the recorded ports |
| ClickConfig.Generate | border_router/conf/click-mkclgw.pl:1699-1714 | the passes together give exactly the elements and connections of the model |
| TxBuffer.SendManyConserves | RM/main.c:591-667 | every packet is exactly one of queued, sent, freed, in the order in which they came; a burst is 32 packets, or all of at least 16 that find the table empty, the driver's count of them is sent and only the rest of the burst freed; fewer than 32 stay queued |
| TxBuffer.CallsConserve | RM/main.c:545-667 | after any sequence of single and batch calls from an empty table everything handed in is sent, freed or queued, each once and each in order of arrival, and fewer than 32 are queued |
| TxBuffer.BatchRefinesSinglesIff | RM/main.c:566-667 | a batch does what single sends do iff it does not bypass an empty table with fewer than 32 packets |
| TxBuffer.EachFull | RM/main.c:566-589 | single sends that fill the table make one burst of 32 and keep the rest |
| TxBuffer.TxQueue.SendBurst | RM/main.c:546-563 | the driver's prefix is sent and exactly the rest is freed |
| TxBuffer.TxQueue.SendSinglePacket | RM/main.c:566-589 | table and length after one packet are those of the model |
| TxBuffer.TxQueue.CopyUnrolled | RM/main.c:619-635 | the loop entered in the middle copies exactly the packets, whatever the remainder |
| TxBuffer.TxQueue.SendPacketsX4 | RM/main.c:591-667 | the unrolled batch is the batch of the model |
| Checksum.RawCksum | RM/main.c:2027-2053 | four words a round, single words, an odd byte: the plain sum modulo 2^32 |
| Checksum.ReduceIsOnesSum | RM/main.c:2055-2061 | two folds of the plain sum give the one's-complement sum of section 1 of RFC 1071 |
| Checksum.RteRawCksum | RM/main.c:2063-2070 | the one's-complement sum of the buffer |
| Checksum.CalChksum | NetworkMonitoringTools/stats_send_ver_test1/get_link_stats.c:163-185 | the complement of the same sum, without signed overflow up to 65536 bytes |
| Checksum.ComplementCloses | NetworkMonitoringTools/stats_send_ver_test1/get_link_stats.c:188-206 | a packet whose zero field takes the complement of its sum sums up to 0xffff |
| Checksum.Pack | NetworkMonitoringTools/stats_send_ver_test1/get_link_stats.c:188-206 | a packed request sums up to zero at its receiver |
| Checksum.Ipv4CksumCloses | RM/main.c:2072-2078 | the header still closes although 0xffff is not negated |
| Checksum.TestsAgree | RM/main.c:1567-1583 | the single-comparison test rejects exactly the headers the step-by-step test (671-707) rejects |
| Checksum.PatchKeepsHeaderIff | RM/main.c:1573-1576 | for headers of any length, options included, time to live down and checksum up keep the header sum iff the time to live was not 0 and the checksum not 0xffff (section 3 of RFC 1624) |

## Left out

- Sockets, DPDK and Click packet allocation, NIC queues, hash internals, locks, databases, log files and printing: no state the properties are about.
- The channel between two managers is lossless and first-in-first-out; message loss, duplication and reordering on the network are not modelled.
- send_pid_change_request is commented out at RM/main.c:2691; the request event of the network model stands for the sponsor test just before it.
- The buffers pid_huancun_pid_a and time_huancun_pid_a (RM/main.c:2892-2893) are block locals on whose contents the ack handler relies; they are fields of the manager here, holding anything at the start.
- A pid_a or ack from an unknown neighbour is dropped; the code reads the neighbour's record before it tests the pointer (RM/main.c:2999, 3160).
- The PID array of a chain node is a sequence; the limits of 20 PIDs and 10 neighbours are part of what a manager must have loaded, and what tables of 256 rows and more do is in the three lemmas about the reach of the row counters.
- C strings made of a four-byte PID without a terminator are taken to end after the four bytes.
- Expiry of announced PIDs (pid_time, pidpid) is written but never read by the router; an announcement packet always stores its first item because of the assignment in the test at IPN/ipborderrouter.cc:187, and that is what is modelled.
- The total length and checksum of the IP header are not kept consistent by the code when packets grow or shrink, so only the CoLoR length is claimed; the other path-PID pickers and the MAC rewriting are not modelled.
- Freeing of timer nodes and the start and stop of child processes by a timer action: an action only removes the head.
- Inform.SendRequests: requires every port's record to fit an empty datagram; a line that names items twenty times over would make the code write behind its buffer. `Inform.ReadableIffNamedOnce` shows that no line without repetition does.
- Inform.ParseInformMessage: answers requests whose records are complete; the code does not compare the announced count with the bytes received.
- BorderRouter.IPBorderRouter.PushPacket: requires the bytes that the branch taken reads to be there, and no others; the code does not look at the packet length.
- TxBuffer.TxQueue.SendPacketsX4: batches of 1 to 32 packets, as the callers send them; when a batch fills the table exactly, the second copy reads four array slots behind it, which must exist.
- ResourceManager.Manager.constructor: requires a table whose neighbours and paths fit the fixed buffers.
- The item line of an inform request is a string; a word of sixteen or more characters overruns a local array and is not modelled, nor is the parsing of dates into the times of a tail.
- Behind the last record the decoder copies twenty more bytes, for requests longer than 1004 bytes from behind the receive buffer; they are taken from memory that follows it.
- Link loss and delay traps are commented out in the source; load is an exact number, not a float.
- The parser of the configuration generator, its address, ARP and device sections, and the fixed elements between host and rewriter: text without port arithmetic.
- Configurations whose rule EXTERNAL has no rewriter line: the connection is then written without a port number, which the model keeps as none.
- The random PID pickers, the utility maximiser, the fixed routers, caches, clients and servers, and the traffic generator: small, unused, or without a law of their own.
