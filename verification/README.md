# Locker Wi-Fi wrapper and reservation server: a verified model

The locker is an ESP32 program built on a Wi-Fi wrapper (buffered TCP, UDP,
scanning, mode switching, events, DHCP lease set-up for its access point) and a
small C server that keeps reservations in a linked list.  This project models the
parts of both that carry state or arithmetic and proves what they promise.

How it is laid out:

| file | what it models |
|---|---|
| `RxBuffer.dfy`, `RxBufferClass.dfy` | the receive buffer of a TCP client: laws on values, and the array-based class that refines them |
| `TcpWrite.dfy` | the TCP send loop with its renewed retry budget |
| `Bits.dfy`, `Ipv4.dfy` | unsigned 32-bit bit operations as arithmetic; addresses, masks, subnets, the byte swap |
| `Lease.dfy`, `LeaseMasks.dfy` | the DHCP lease range of the access point, and the masks it is right for |
| `Status.dfy`, `StationEvents.dfy` | status bits; what each event does to them, to the station status and to the reconnect logic |
| `Callbacks.dfy` | the registry of event handlers |
| `WifiMode.dfy` | mode switching, low-level init, start and stop |
| `Scan.dfy`, `ScanEvents.dfy` | the scan protocol; scanning interleaved with all other events on the shared status bits |
| `Multi.dfy` | choosing a network from the scan results |
| `Udp.dfy` | cutting written bytes into datagrams, reading received ones |
| `Reservations.dfy` | the reservation list of the locker server |
| `Wrappers.dfy` | Option, Result, bytes, narrowing casts |

Conventions.  Code that changes objects in place is a class whose methods are
proved to compute a function of the old state; laws are then proved of that
function, over all inputs and over whole runs.  Calls into the system (sockets,
the Wi-Fi driver, memory allocation, clocks) get their answers from an arbitrary
world: either a function from call number to answer, or a parameter of the call.
A law that holds for every world holds for every interleaving of arrivals,
partial results and failures.  32-bit wrap-around is written out.

Where the code and its own comments disagree, the code is modelled: the
reservation server's "create if the name doesn't exist" looks for field 0, which is
the command word (`CreateKeepsUsersDistinctIff`, `RepeatedRequestIsStoredTwice`);
the lease computation's netmask check sums octets (`SafeMasksAreTheContiguousOnes`,
`HoleLetsRangeOut`); `removeEvent` passes over the entry after an erased one
(`RemovalIsCompleteIff`, `RemovalMissesNeighbour`).

## Model

| member | source | states |
|---|---|---|
| RxBuffer.StreamIsFifo | locker/src/WiFiClient.cpp:62-155 | over any session of read, peek and available calls and any answers of the system, bytes handed out, then bytes buffered, then bytes on the socket are exactly the bytes that arrived, in order |
| RxBuffer.StepKeepsOrder | locker/src/WiFiClient.cpp:111-155 | each single operation keeps that order and keeps the fill mark within the array |
| RxBuffer.ReadKeepsOrder | locker/src/WiFiClient.cpp:111-144 | both read paths copy exactly the next bytes of the stream, including the path that counted the buffered bytes before its last refill |
| RxBuffer.ReadProgress | locker/src/WiFiClient.cpp:111-144 | a short read happens only when the last refill saw no bytes or a failed or empty recv, never for a full buffer, and the bytes it leaves behind would not have been enough; 0 or -1 only when nothing is buffered; enough buffered bytes are served without a system call; without a destination or for no bytes nothing happens |
| RxBuffer.ShortReadMayLeaveBytes | locker/src/WiFiClient.cpp:116-135 | a concrete run in which a short read leaves a byte buffered |
| RxBuffer.AvailableIsExact | locker/src/WiFiClient.cpp:153-155 | when the socket can be asked, available is exactly the bytes sent and not yet read; otherwise it leaves out exactly those still on the socket |
| RxBuffer.PeekIsNext | locker/src/WiFiClient.cpp:146-151 | in any session, a peek that gives a byte gives the one of the arrived stream right after those handed out; it gives -1 exactly when nothing is buffered afterwards, and consumes nothing |
| RxBuffer.RefillExactly | locker/src/WiFiClient.cpp:62-88 | unless the system refuses, a refill takes as much as one recv gives of what waits and fits behind the window, or from the start of the array when the window is empty |
| RxBuffer.RefillFailsExactly | locker/src/WiFiClient.cpp:44-88 | a refill raises the failed flag exactly for missing memory, a failed query, or a failed receive that would not just block |
| RxBuffer.StepFlagged | locker/src/WiFiClient.cpp:44-155 | over any call the failed flag is raised only if the system refused something, for certain if it would not just block, and never lowered |
| RxBufferClass.WiFiClientRxBuffer.RAvailable | locker/src/WiFiClient.cpp:44-60 | the socket query in place: its count, and the failed flag |
| RxBufferClass.WiFiClientRxBuffer.FillBuffer | locker/src/WiFiClient.cpp:62-88 | lazy allocation, reset of an emptied window and a partial receive, in place, are the refill the laws are about |
| RxBufferClass.WiFiClientRxBuffer.Receive | locker/src/WiFiClient.cpp:79-87 | a partial receive extends the window by exactly the first waiting bytes; an error other than would-block sets the failed flag |
| RxBufferClass.WiFiClientRxBuffer.ReadRest | locker/src/WiFiClient.cpp:132-142 | the copying loop terminates and writes exactly the loop's bytes at the right place of the destination, leaving the rest of it alone |
| RxBufferClass.WiFiClientRxBuffer.Read | locker/src/WiFiClient.cpp:111-144 | the in-place read makes the same system calls, returns the same value, and writes exactly the bytes of the value-level read to the destination |
| RxBufferClass.WiFiClientRxBuffer.Peek | locker/src/WiFiClient.cpp:146-151 | the first byte of the window without consuming it, or -1 after an empty refill |
| RxBufferClass.WiFiClientRxBuffer.Available | locker/src/WiFiClient.cpp:153-155 | buffered bytes plus the socket's count |
| TcpWrite.WiFiClient.Write | locker/src/WiFiClient.cpp:382-436 | the socket has accepted exactly the first bytes of the buffer, in order and once each, as many as `WriteEndsExactly` says; the client is stopped exactly when the call ended in a hard send error |
| TcpWrite.WriteEndsExactly | locker/src/WiFiClient.cpp:394-434 | from the rounds alone: a call stops after the first round that is a select error, a send error other than EAGAIN, the last byte, or the tenth in a row for nothing, and after no other; that round decides how it ended, and busy or unready rounds only use up retries |
| TcpWrite.WriteReturnsCount | locker/src/WiFiClient.cpp:382-436 | the returned count is the number of accepted bytes on every exit except a select error, which returns 0 |
| TcpWrite.WriteIsBounded | locker/src/WiFiClient.cpp:394-434 | at most ten rounds per byte (ten for an empty write), although progress renews the retry budget |
| TcpWrite.BoundIsMet | locker/src/WiFiClient.cpp:394-434 | for every size some socket makes the call take exactly ten rounds per byte |
| TcpWrite.WriteGivesUp | locker/src/WiFiClient.cpp:394-434 | the loop runs out of retries only after ten rounds in a row without progress |
| TcpWrite.WiFiClient.Stop | locker/src/WiFiClient.cpp:202-207 | stopping drops the handle, the receive buffer and the connected flag |
| Ipv4.ByteSwap32 | locker/src/WiFiGeneric.cpp:51 | the shift-and-mask macro reverses the four octets of any word |
| Ipv4.SwapIsItsOwnInverse | locker/src/WiFiGeneric.cpp:51 | swapping twice gives the word back |
| Ipv4.ReversedDword | locker/src/WiFiGeneric.cpp:152-154 | the swapped memory word of an address is the number addresses are compared by, and back |
| Ipv4.CalculateNetworkID | locker/src/WiFiGeneric.cpp:1584-1591 | the octet loop equals the 32-bit and of address and mask |
| Ipv4.CalculateBroadcast | locker/src/WiFiGeneric.cpp:1593-1600 | the octet loop equals the 32-bit or of address and inverted mask |
| Ipv4.CalculateSubnetCIDR | locker/src/WiFiGeneric.cpp:1602-1625 | the loop sums, over the octets, the number of leading ones of those that are all leading ones |
| Ipv4.LengthOfPrefixMask | locker/src/WiFiGeneric.cpp:1602-1625 | that sum is n on every mask of n ones followed by zeros |
| Ipv4.SubnetIsInterval | locker/src/WiFiGeneric.cpp:1584-1600 | under a contiguous mask an address lies between network and broadcast address exactly when its masked value is the network's |
| Ipv4.SubnetSize | locker/src/WiFiGeneric.cpp:1584-1600 | broadcast minus network is 2^(32-n) - 1 for every address and every n, and the broadcast's host part is all ones |
| Lease.FitLease | locker/src/WiFiGeneric.cpp:152-186 | the checks and the relocation on words, in order, are the computation `LeaseExactly` and the laws are about |
| Lease.ComputeLease | locker/src/WiFiGeneric.cpp:140-189 | the whole computation from octets, through the swapped words and back, gives that range in memory order, and refuses masks outside /24 to /28 |
| Lease.LeaseIsArithmetic | locker/src/WiFiGeneric.cpp:152-186 | for /24 to /28 masks the bitwise computation is a computation with remainders and multiples |
| Lease.LeaseExactly | locker/src/WiFiGeneric.cpp:152-186 | for /24 to /28, every AP, every gateway and every requested start, in remainders: accepted exactly if the wanted start lies in the AP's block and neither the AP nor the gateway is in the eleven addresses from the relocated start, and then with exactly that range; each refusal with its own error |
| Lease.OutcomeExactly | locker/src/WiFiGeneric.cpp:140-189 | the same from octets under every contiguous mask, other prefix lengths being refused as bad netmasks |
| Lease.ToldRange | locker/src/WiFiGeneric.cpp:186-189 | the two words the DHCP server is told are the memory words of the first and the last address |
| Lease.LeaseSafety | locker/src/WiFiGeneric.cpp:152-186 | an accepted range is eleven addresses without wrap, all in the AP's subnet, below broadcast, and none of them the AP or the gateway, even a gateway of another subnet |
| Lease.LeaseCompleteness | locker/src/WiFiGeneric.cpp:147-186 | with default start and the AP as gateway, /24 to /27 accept exactly the AP host parts that are not all ones, /28 exactly 0-3 and 12-14; the range then starts above the network address |
| Lease.LeaseIsIdempotent | locker/src/WiFiGeneric.cpp:152-186 | asking for the start that was chosen gives the same range |
| LeaseMasks.SafeMasksAreTheContiguousOnes | locker/src/WiFiGeneric.cpp:142-186 | among the masks the CIDR check lets through, those for which every accepted range is safe are exactly the contiguous ones |
| LeaseMasks.EscapingRequest | locker/src/WiFiGeneric.cpp:142-186 | for every other nonzero mask, a request that is accepted with a range leaving the subnet |
| LeaseMasks.HolePassesTheCheck | locker/src/WiFiGeneric.cpp:1602-1625 | the netmask 255.255.255.5 counts as a /24 and is not contiguous |
| LeaseMasks.HoleLetsRangeOut | locker/src/WiFiGeneric.cpp:140-189 | under that mask an access point p.q.r.1 that is its own gateway is given the range p.q.r.3 to p.q.r.13, and p.q.r.4 lies outside its subnet |
| LeaseMasks.OutcomeIsSafe | locker/src/WiFiGeneric.cpp:140-189 | safety of the whole computation from octets, under a contiguous mask |
| LeaseMasks.OutcomeIsIdempotent | locker/src/WiFiGeneric.cpp:152-189 | idempotence of the whole computation, through the byte swap in both directions |
| StationEvents.EventTask.EventCallback | locker/src/WiFiGeneric.cpp:1029-1154 | each event sets, clears and writes exactly the listed bits, status and reconnect count |
| StationEvents.EventTask.OnDisconnected | locker/src/WiFiGeneric.cpp:1052-1089 | the disconnect branch: status by reason, cleared bits, first-connect flag, reconnect decision |
| StationEvents.AddressImpliesConnection | locker/src/WiFiGeneric.cpp:1036-1143 | after any events, an IPv4 or IPv6 address bit implies the connected bit, for the station and for Ethernet |
| StationEvents.ConnectedExactly | locker/src/WiFiGeneric.cpp:1036-1104 | the status is "connected" exactly when the last event to write it was GOT_IP, and then the address is held exactly when no AUTH_EXPIRE disconnect came since |
| StationEvents.ConnectedMeansAddress | locker/src/WiFiGeneric.cpp:1036-1104 | without AUTH_EXPIRE disconnects, "connected" implies an address |
| StationEvents.ExpiryLeavesConnected | locker/src/WiFiGeneric.cpp:1064-1069 | a two-event run ending "connected" without an address |
| StationEvents.AddressExactly | locker/src/WiFiGeneric.cpp:1036-1104 | an address is held exactly since a GOT_IP not undone, and the status then is "connected" exactly when neither STA_START nor STA_CONNECTED came since |
| StationEvents.AddressMeansConnected | locker/src/WiFiGeneric.cpp:1036-1104 | if those two never arrive while an address is held, an address implies "connected" |
| StationEvents.ReconnectAccounting | locker/src/WiFiGeneric.cpp:1071-1089 | reconnects over any run: one for the first involuntary disconnect, one for each later one with auto-reconnect on whose reason is neither a refused authentication nor unknown |
| StationEvents.AtMostOneWithoutAuto | locker/src/WiFiGeneric.cpp:1071-1089 | with auto-reconnect off, at most one reconnect in any run |
| StationEvents.ZeroReasonIsUnspecified | locker/src/WiFiGeneric.cpp:1053-1056 | reason 0 is handled as UNSPECIFIED, which is reconnectable |
| StationEvents.ReconnectableExactly | locker/src/WiFiGeneric.cpp:1173-1203 | every reason leads to a retry but a deliberate leave, a refused authentication and reasons not listed |
| StationEvents.BitsExactly | locker/src/WiFiGeneric.cpp:1036-1143 | after any run each status bit is on exactly if some event set it and none cleared it since, by a table read bit by bit |
| StationEvents.StatusExactly | locker/src/WiFiGeneric.cpp:1036-1104 | after any run the status is the one called for by the last event that wrote it, for each of the values, given whether an involuntary disconnect came before and auto-reconnect was on |
| StationEvents.StatusAtFirst | locker/src/WiFiGeneric.cpp:1036-1104 | until some event writes it, the status is NO_SHIELD |
| Callbacks.WiFiEvents.OnEvent | locker/src/WiFiGeneric.cpp:940-980 | appends the handler under the next id; a null callback changes nothing and gives 0 |
| Callbacks.WiFiEvents.Erase | locker/src/WiFiGeneric.cpp:993-998 | the erasing walk over the live list leaves what erase-and-skip leaves |
| Callbacks.WiFiEvents.RemoveByCallback | locker/src/WiFiGeneric.cpp:987-1013 | removal by callback and event filter |
| Callbacks.WiFiEvents.RemoveById | locker/src/WiFiGeneric.cpp:1015-1023 | removal by id |
| Callbacks.WiFiEvents.Dispatch | locker/src/WiFiGeneric.cpp:1156-1169 | an event calls exactly the callbacks registered for it or for all events (`CallsDue`), in registration order |
| Callbacks.CallsMadeExactly | locker/src/WiFiGeneric.cpp:1156-1169 | the calls an event leads to are those of the entries whose event is that one or 40, the number for all events |
| Callbacks.RemovalKeepsOthers | locker/src/WiFiGeneric.cpp:987-1023 | handlers that do not match survive a removal, in order |
| Callbacks.RemovalLeavesExactly | locker/src/WiFiGeneric.cpp:987-1023 | which entries a removal leaves, by place: those of another id, or of another callback or another event, and those right behind one that went |
| Callbacks.RemovalIsCompleteIff | locker/src/WiFiGeneric.cpp:993-998 | every match is removed exactly when no two matches are neighbours |
| Callbacks.RemovalMissesNeighbour | locker/src/WiFiGeneric.cpp:993-998 | a handler registered twice in a row for an event and removed once is still registered, under its second id |
| Callbacks.RemovalByIdIsExact | locker/src/WiFiGeneric.cpp:1015-1023 | in any run of up to 2^32 registrations, removals included, ids are unique and removal by id removes exactly that handler |
| Callbacks.IdsAreNumbers | locker/src/WiFiGeneric.cpp:742-752 | after any run the entries carry the numbers of their registrations, in order, reduced modulo 2^32 |
| Callbacks.IdsStayIncreasing | locker/src/WiFiGeneric.cpp:742-752 | over a run of registrations and removals ids stay nonzero and increasing in list order exactly when fewer than 2^32 registrations are made |
| Callbacks.IdsDistinctIff | locker/src/WiFiGeneric.cpp:742-752 | registrations alone keep ids distinct exactly up to 2^32 of them |
| WifiMode.WiFiGeneric.WifiLowLevelInit | locker/src/WiFiGeneric.cpp:653-698 | init is its list of driver calls carried out up to the first refusal |
| WifiMode.WiFiGeneric.WifiLowLevelDeinit | locker/src/WiFiGeneric.cpp:700-705 | deinit likewise |
| WifiMode.WiFiGeneric.EspWiFiStart | locker/src/WiFiGeneric.cpp:709-721 | start likewise |
| WifiMode.WiFiGeneric.EspWiFiStop | locker/src/WiFiGeneric.cpp:723-736 | stop, then deinit, likewise |
| WifiMode.WiFiGeneric.GetMode | locker/src/WiFiGeneric.cpp:1305-1316 | the mode in force, or none when not started or the query fails |
| WifiMode.WiFiGeneric.ChangeMode | locker/src/WiFiGeneric.cpp:1244-1299 | a mode change is a plan of driver calls carried out up to the first refusal |
| WifiMode.WiFiGeneric.EnableSTA | locker/src/WiFiGeneric.cpp:1323-1336 | a mode change to the queried mode with the station bit as asked, or nothing |
| WifiMode.WiFiGeneric.EnableAP | locker/src/WiFiGeneric.cpp:1343-1356 | the same for the access point bit |
| WifiMode.ChangeOutcome | locker/src/WiFiGeneric.cpp:1244-1299 | a successful change has exactly the requested mode in force, or the driver stopped for none; any outcome keeps the invariant of `StartedMeansInitialized` |
| WifiMode.ChangeSucceedsIff | locker/src/WiFiGeneric.cpp:1244-1299 | a change succeeds exactly if the driver accepts every call it needs: stop and deinit, or those of init, hostname, mode, long range and start that the state, the flags and the mode call for |
| WifiMode.EnableSucceedsIff | locker/src/WiFiGeneric.cpp:1323-1356 | with queries that succeed, an enable does nothing if the interface is as asked, and otherwise succeeds exactly as the change does |
| WifiMode.StartedMeansInitialized | locker/src/WiFiGeneric.cpp:653-736 | in every reachable state, whatever the driver refuses, started implies initialized and in some mode |
| WifiMode.EnableDoesAsAsked | locker/src/WiFiGeneric.cpp:1323-1356 | with queries that succeed, a successful enable leaves the requested interface as asked and the other unchanged, stop-and-deinit included |
| WifiMode.EnableDoesAsAskedIff | locker/src/WiFiGeneric.cpp:1305-1356 | with queries that may fail, exactly when that still holds |
| Scan.WiFiScan.ScanNetworks | locker/src/WiFiScan.cpp:57-100 | refusal, timeout set-up, start stamp, bits and returned value of a scan request, blocking or not |
| Scan.WiFiScan.OnScanDone | locker/src/WiFiScan.cpp:109-121 | the record array, the count, the start stamp and the bits after a scan-done event |
| Scan.WiFiScan.ScanComplete | locker/src/WiFiScan.cpp:142-158 | the polled status, and the release of a timed-out scan |
| Scan.WiFiScan.ScanDelete | locker/src/WiFiScan.cpp:163-171 | drops the results and the done bit |
| Scan.WiFiScan.GetScanInfoByIndex | locker/src/WiFiScan.cpp:128-134 | a record exactly for the indexes below the count, and then inside the array |
| Scan.ScanStaysSane | locker/src/WiFiScan.cpp:57-171 | over any run scanning and done are never both set, a start stamp is held while scanning and not once done, and the count never exceeds the array |
| Scan.TimedOutExactly | locker/src/WiFiScan.cpp:84-87 | exactly which elapsed times below 2^32 ms count as a timeout, across the wrap of the clock and the zero sentinel |
| Scan.LostScanIsReleased | locker/src/WiFiScan.cpp:142-147 | a scan, blocking or not, whose end is never reported is released by such a poll, after any quiet calls; the next accepted request scans anew from its own start time, or to its end if the report comes while it waits |
| Scan.SentinelShiftsTimeout | locker/src/WiFiScan.cpp:84-87 | started when the clock reads 0, a scan times out one millisecond late, and also at once |
| Scan.PollTellsState | locker/src/WiFiScan.cpp:142-158 | in any reachable state a poll gives -1 while scanning and -2 once timed out, the number of records once done, and -2 otherwise |
| Scan.PollWhileScanning | locker/src/WiFiScan.cpp:57-158 | while a scan waits for its report, polls give -1 up to the first that sees it as timed out, which gives -2, and further requests are refused with -1 |
| Scan.ResultsAreReported | locker/src/WiFiScan.cpp:91-171 | after a report of n records every poll gives their number and record i is the driver's record i, until they are deleted; a blocking scan returns and holds the same |
| Scan.UnansweredReport | locker/src/WiFiScan.cpp:109-121 | a finished scan whose records the driver does not hand over counts as one that found nothing |
| Scan.RefusedStart | locker/src/WiFiScan.cpp:57-100 | a start the driver refuses returns -2 and leaves no scan and no results |
| ScanEvents.FinishedIsDone | locker/src/WiFiGeneric.cpp:1036-1037 | the scan-done event does to the status bits what the scan's own handler does |
| ScanEvents.OtherEventsKeepScanBits | locker/src/WiFiGeneric.cpp:1038-1147 | no other event changes the two scan bits |
| ScanEvents.ScanRunsAlone | locker/src/WiFiScan.cpp:57-171 | in any interleaving of scan calls with any events, the scan's variables and bits are those of its own steps run alone |
| ScanEvents.StationRunsAlone | locker/src/WiFiGeneric.cpp:1029-1154 | in any such interleaving, the other status bits, the station status and the reconnect logic are those of the events run alone |
| ScanEvents.SharedBitsStaySane | locker/src/WiFiScan.cpp:57-171 | so the scan invariants and address-implies-connection hold on the shared bits after every interleaving |
| Multi.WiFiMulti.AddAP | locker/src/WiFiMulti.cpp:49-86 | which entries are taken, and how they are stored |
| Multi.WiFiMulti.Decide | locker/src/WiFiMulti.cpp:103-201 | the nested loops reach the right decision, told from the list and the scan alone: the earliest strongest network that the last entry of its name can join, with that entry's name and passphrase and the network's own address and channel, or none; for every scan answer, wrapped counts included |
| Multi.ChoosesAmongAll | locker/src/WiFiMulti.cpp:109-153 | up to 127 results all are considered: the choice is that network and that entry, and one is made exactly when some entry can join some network |
| Multi.LastEntryExactly | locker/src/WiFiMulti.cpp:131-145 | the search gives an entry exactly if it is in the list, has the name, and no later one has |
| Multi.RightExactly | locker/src/WiFiMulti.cpp:103-201 | what the right decision is for each scan answer, in terms of list positions; 255 results read as a scan still running, 128 to 254 as no answer |
| Multi.DecisionIsUnique | locker/src/WiFiMulti.cpp:103-201 | only one decision is right |
| Multi.DecisionExists | locker/src/WiFiMulti.cpp:103-201 | for every list of entries and every scan answer some decision is right: the strongest eligible network exists whenever one is eligible |
| Multi.AllConsideredIff | locker/src/WiFiMulti.cpp:90-120 | all results are looked at exactly up to 127; 128 to 255 results read as no answer |
| Multi.LaterEntryShadows | locker/src/WiFiMulti.cpp:131-145 | a later entry alone decides for its name, and changes nothing for any other name |
| Udp.WiFiUDP.BeginPacket | locker/src/WiFiUdp.cpp:133-160 | when it succeeds, and that nothing is written yet then |
| Udp.WiFiUDP.WriteByte | locker/src/WiFiUdp.cpp:191-198 | a byte is put behind those waiting; a full buffer is sent off first |
| Udp.WiFiUDP.Write | locker/src/WiFiUdp.cpp:200-205 | a block is its bytes put one after another |
| Udp.WiFiUDP.EndPacket | locker/src/WiFiUdp.cpp:178-189 | attempts the waiting bytes as one datagram, and keeps them |
| Udp.WritesAreCut | locker/src/WiFiUdp.cpp:133-205 | however bytes are spread over writes, the datagrams attempted from beginning to ending a packet are exactly the cut of all of them, and the buffer never exceeds 1460 bytes |
| Udp.SendPacket | locker/src/WiFiUdp.cpp:133-205 | on the object itself, beginning a packet, writing blocks and single bytes and ending it attempts exactly the cut of all the bytes, and nothing when beginning fails |
| Udp.PutAllCuts | locker/src/WiFiUdp.cpp:191-198 | after any number of bytes, all packets of the cut but the last were attempted and the last waits |
| Udp.PacketsCutExactly | locker/src/WiFiUdp.cpp:133-205 | that cut of n >= 1 bytes has ceil(n / 1460) packets, all but the last of 1460 bytes, and concatenates to the bytes |
| Udp.WiFiUDP.ParsePacket | locker/src/WiFiUdp.cpp:207-232 | takes a datagram, cut at 1460 bytes, and its sender's address and port, only when the last one is drained; the receive buffer is null or non-empty |
| Udp.WiFiUDP.Available | locker/src/WiFiUdp.cpp:234-237 | the bytes left of the datagram |
| Udp.WiFiUDP.ReadByte | locker/src/WiFiUdp.cpp:239-248 | the next byte; a drained datagram is dropped |
| Udp.WiFiUDP.Read | locker/src/WiFiUdp.cpp:254-263 | the next bytes; a drained datagram is dropped |
| Udp.WiFiUDP.Peek | locker/src/WiFiUdp.cpp:265-268 | the next byte without consuming it |
| Udp.WiFiUDP.Flush | locker/src/WiFiUdp.cpp:270-275 | drops the rest of the datagram |
| Udp.DatagramsStayWhole | locker/src/WiFiUdp.cpp:207-275 | over any run every accepted datagram is read out whole and unmixed, up to what was flushed |
| Udp.DatagramsAreArrivals | locker/src/WiFiUdp.cpp:207-232 | the datagrams taken over any run are, in order, the first 1460 bytes of those that arrived, not empty, with none being read |
| Udp.TakesExactly | locker/src/WiFiUdp.cpp:239-275 | a read for n bytes hands out the next min(n, left) bytes and no more; a flush drops the rest |
| Reservations.ReservationList.Search | locker/aws_server.c:37-51 | the first node of the user, or null exactly when there is none |
| Reservations.ReservationList.Append | locker/aws_server.c:75-102 | appends one node; the list stays acyclic and null-terminated |
| Reservations.ReservationList.Remove | locker/aws_server.c:115-134 | unlinks exactly the first node of the user and keeps the order of the rest |
| Reservations.LockerServer.CreateReservation | locker/aws_server.c:55-108 | a creation on the list is the abstract creation, and which node is returned |
| Reservations.LockerServer.DeleteReservation | locker/aws_server.c:111-138 | a deletion on the list is the abstract deletion, and which node is returned |
| Reservations.LockerServer.Serve | locker/aws_server.c:226-232 | over any served run the linked list holds the fold of the abstract operations |
| Reservations.DeleteTakesFirst | locker/aws_server.c:111-138 | a deletion takes one entry of the user, the first, and nobody else's |
| Reservations.CreateThenDelete | locker/aws_server.c:53-138 | creating for a new user and deleting that user restores the list |
| Reservations.ListIsInCreationOrder | locker/aws_server.c:55-138 | after any run the list is a selection of the entries ever created, in the order of their creation |
| Reservations.DecimalIsRead | locker/aws_server.c:71-97 | a duration written in decimal, behind blanks and a sign and before anything that is no digit, is read back as the number |
| Reservations.NumberIsRead | locker/aws_server.c:71-97 | any digits, leading zeros included, are read as the number they stand for |
| Reservations.NothingIsRead | locker/aws_server.c:71-97 | a duration field without a digit where one should be reads as 0 |
| Reservations.CreateKeepsUsersDistinctIff | locker/aws_server.c:53-105 | users stay distinct exactly when field 0 is a known user or field 1 is a new one |
| Reservations.RepeatedRequestIsStoredTwice | locker/aws_server.c:226-228 | a creation request served twice on a new server is stored twice, unless its user is named like the command word |
| Reservations.EmptiedExactly | locker/aws_server.c:119-123 | exactly which command leaves a list that exists but is empty |
| Reservations.EntriesAreConserved | locker/aws_server.c:55-138 | over any run, entries added are entries present plus entries taken |

## Left out

- RxBufferClass.WiFiClientRxBuffer.Read: the wrapper around it stops the client, and drops what is buffered, once the failed flag is set; that wrapper is not part of this model.
- TcpWrite.WiFiClient.Write: the handle is one object; sharing it between copies of a client is not modelled.
- Lease.ComputeLease: the DHCP client and server calls around the arithmetic, and their errors, are driver I/O.
- StationEvents.EventTask.OnDisconnected: a reconnect's disconnect and begin calls are driver I/O; that they are made is what `reconnects` counts.
- StationEvents.EventTask.EventCallback: the registered handlers it calls at the end are `Callbacks.WiFiEvents.Dispatch`; the event group is taken as created; the calls a reconnect makes into the driver are counted, not modelled; a null event and the SmartConfig branches, which touch none of the modelled state, are one `OtherEvent`.
- Callbacks.WiFiEvents.Dispatch: handlers are taken not to edit the registry while they run.
- WifiMode.WiFiGeneric.WifiLowLevelInit: the network interface objects created on first init and the ready event posted after it are not modelled.
- WifiMode.WiFiGeneric.ChangeMode: the dual-antenna build option is not modelled.
- Scan.WiFiScan.ScanNetworks: each call is one step, so races inside it and the scan-done handler are not modelled; the attempt to enable the station, whose result the code ignores, is left out; so is the memory leaked when a second scan-done event replaces an array.
- Multi.WiFiMulti.Decide: the check for an existing connection before the scan, joining the network and waiting for the connection are driver I/O.
- Udp.WiFiUDP.ParsePacket: the byte FIFO's own allocation is taken to succeed, as the code takes it to; opening, closing and multicast membership are socket calls.
- Reservations.LockerServer.Serve: the socket loop that assembles a request, and the update of the lock state after it, are not modelled; that update needs a non-empty list, as creation does.
- Reservations.Atoi: numbers are unbounded, while the C function is undefined outside `int`.
- Disconnect reasons are names without their numeric codes, which are defined in driver headers that are not part of this model.
- Discarding received data (`WiFiClient::flush`), assignment of clients, `WiFiServer`, DNS, SmartConfig, antenna, FTM, soft-AP and station getters, WPA2-enterprise set-up: ownership plumbing or thin driver wrappers.
- The reservation overlap bits described in the server's header: not implemented there.
- The command-line client, the sketch, the shell scripts and the test file: I/O or no logic.
