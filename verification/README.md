# Verified models of the rtl8821cu driver core

A Dafny 4.11 model of the parts of the driver where state, buffers and threads interact, with proofs of
what those parts are for. `dafny verify dfyconfig.toml` checks the whole project.

- **Commands** (`CommandThread`, `CommandFates`): the queue between the submitters of commands and the command thread of
  `core/rtw_cmd.c`, as a state machine whose steps are the points where the threads can be interleaved. A
  run is any sequence of steps. Handlers, time-outs and the outcome of allocations are inputs of the steps.
  What happened to a command is traced back to the step that decided it.
- **NAT 2.5 table** (`Nat25`, `Nat25Table`): the bridge's address table of `core/rtw_br_ext.c`. The table is
  a heap of linked entries with `next_hash` and `pprev_hash`; it is proved to be a finite map, and runs of
  the map are counted. Time and the success of allocations are parameters.
- **Element lists** (`Elements`, `RemoveIes`, `P2pAttributes`, `P2p`, `P2pBss`, `ChannelSetting`,
  `ChannelElements`, `Tim`): the identifier-length-body lists of beacons, edited in place in an octet array
  and proved against functions on the list of elements. A list is well formed when it can be parsed.
- **RSN elements** (`Rsne`, `RsneParse`, `RsneSettings`): a grammar with a printer, and the driver's cursor
  walk proved to accept exactly what the printer prints. A bit mask is the set of types whose bit it has.
- **Channel settings of several interfaces** (`ChannelSync`).
- **Stations of an access point** (`Stations`, `StationBook`, `KeepAlive`, `AclPool`): flags and counters,
  the beacon bits derived from them, expiry of silent stations, and the access control pool.
- **PPPoE relaying** (`PppoeTags`, `PppoeRelay`): the relay tag put into and taken out of discovery frames.

`Sequences`, `Lists`, `Memory`, `Options` and `ChannelWidths` hold facts about sequences, lists without
repetition, the copying primitives, and what several modules share.

Three results differ from what the code's callers or comments expect:

- `rtw_enqueue_cmd` reports success for an oversized command that it has freed. A submitter that waits for
  such a command can write into the freed object, so waiting is safe in every interleaving if and only if
  the commands waited for fit the command buffer (`SafeExactlyWhenItFits`). This is a hazard of the
  interface: the waiting submitters take their sizes from fixed parameter structures
  (`include/rtw_cmd.h:115-123`), and none was found whose command is oversized.
- `__nat25_add_pppoe_tag` reads a network-order length in host order. The relay tag is added correctly if
  and only if the host is big-endian, the old tag fits and there is room. On a little-endian host a frame
  with enough room gets the tag followed by what lies behind the tag buffer (`PppoeRelay.Insert`).
- A reassociation does not clear every HT flag of the earlier association, and the Barker preamble bit is
  only brought up to date together with the non-ERP bits. `RejoinExact`, `BarkerAfterJoin` and
  `BarkerAfterLeave` say exactly when the result is right all the same.

## Model

| member | source | states |
|---|---|---|
| `CommandThread.RunKeepsInv` | core/rtw_cmd.c:525-735 | in every state that any interleaving of submitters, time-outs and the thread reaches, each command is in one place, its object and context are alive as long as someone may still use them, and locks exclude |
| `CommandThread.OnlyOversizedWaitsFault` | core/rtw_cmd.c:942-955 | over every run no context is signalled after its submitter returned and nothing is freed twice; a write into a freed object needs a submitter that waits for an oversized command |
| `CommandThread.OversizedWaitFaults` | core/rtw_cmd.c:437-480 | for every size above the command buffer there is a run in which a timed-out submitter writes into a freed object |
| `CommandThread.SafeExactlyWhenItFits` | core/rtw_cmd.c:437-480 | every run with waiting submitters of at most n bytes is free of faults if and only if n is at most the buffer size |
| `CommandThread.RequestsWereSubmitted` | core/rtw_cmd.c:890-956 | every job of a run stems, unchanged, from a submission of that run |
| `CommandThread.BufferFreedExactlyOnce` | core/rtw_cmd.c:498-513 | in every reachable state the extra buffer of a command was freed once if the command was rejected, dropped, executed or drained, else not at all; no object was freed twice, and that of a finished command was not freed exactly when a callback that keeps it on failure got a failed result |
| `CommandThread.StatusTellsFate` | core/rtw_cmd.c:656-730 | in every reachable state the status in a context is the initial one or the right one: success says the command was executed with that result, drop that it was drained, error that it was malformed, filtered out or executed with another result; a completed context has such a status, and a submitter that returned without one has detached |
| `CommandThread.FateIsFinal` | core/rtw_cmd.c:587-735 | once a command is rejected, dropped, executed or drained, no step of anyone changes that |
| `CommandThread.CommandsExecuteInOrder` | core/rtw_cmd.c:246-305 | over every run, put-backs included, the finished, held and queued commands spell out the enqueue order, and the executed ones are its executed subsequence |
| `CommandThread.NoLostWakeUp` | core/rtw_cmd.c:547-585 | over every run, while the thread waits and commands are queued, the semaphore is positive, a producer is about to raise it, or the head was put back |
| `CommandFates.ExecutedWasAllowed` | core/rtw_cmd.c:590-652 | over every run an executed command was last inspected in a state where the thread was running, the hardware was initialised or the command may do without, and the command had a handler |
| `CommandFates.DroppedWasRefused` | core/rtw_cmd.c:609-621 | over every run a command dropped by the thread was last inspected in a state where the thread was not running, or the hardware was not initialised and the command may not do without |
| `CommandFates.MalformedHadNoHandler` | core/rtw_cmd.c:596-607 | over every run a queued command found malformed had no handler when inspected |
| `CommandFates.PutBackWasRefused` | core/rtw_cmd.c:623-643 | over every run the thread puts a command back only after power management refused to keep the device awake for it, and only if the command needs the device |
| `CommandFates.ExecutedWasRegistered` | core/rtw_cmd.c:623-652 | over every run a command was executed only if it does without the device or power management keeps it awake |
| `CommandFates.ResultIsReturned` | core/rtw_cmd.c:650-652 | over every run the result of an executed command is what its handler returned |
| `CommandFates.DrainedAfterStop` | core/rtw_cmd.c:547-577 | over every run a command is drained only after the thread found that it cannot run, or that waiting for the semaphore failed |
| `CommandFates.RunningInMainLoop` | core/rtw_cmd.c:543-700 | over every run the flag that the filter reads is set exactly while the thread is in its main loop |
| `CommandFates.SemaphoreCounts` | core/rtw_cmd.c:471-474 | over every run the semaphore is the number of times it was raised less the number of times it let the thread go on |
| `CommandFates.RejectedWasRefused` | core/rtw_cmd.c:454-469 | over every run a rejected command was over 1536 bytes or refused by the filter when its submitter asked |
| `CommandFates.EnqueuedWasAdmitted` | core/rtw_cmd.c:454-474 | over every run an enqueued command had at most 1536 bytes and passed the filter when its submitter asked |
| `CommandFates.WaitEndsForAReason` | core/rtw_cmd.c:947-955 | over every run a waiting submitter returned because its context was completed, its time was up or its submission failed |
| `CommandFates.RunKeepsHolders` | core/rtw_cmd.c:658-667 | over every run whoever holds a mutex is in the part of the code that the mutex protects |
| `CommandFates.ThreadNeverStuck` | core/rtw_cmd.c:547-735 | in every reachable state the thread can move, has stopped, waits for a semaphore that is not raised, or waits for a mutex whose holder can move |
| `CommandFates.SubmitterNeverStuck` | core/rtw_cmd.c:947-955 | in every reachable state a submitter can move, has returned, waits for a context with its time running, or waits for a mutex whose holder can move |
| `Nat25Spec.NetworkHash` | core/rtw_br_ext.c:330-382 | the hash of an address of any family is a bucket number |
| `Nat25Spec.BucketIpv4` | core/rtw_br_ext.c:332-337 | the bucket of an IPv4 address, by the octets it is made of |
| `Nat25Spec.BucketIpx` | core/rtw_br_ext.c:339-345 | the same for IPX |
| `Nat25Spec.BucketApple` | core/rtw_br_ext.c:346-351 | the same for AppleTalk |
| `Nat25Spec.BucketPppoe` | core/rtw_br_ext.c:353-358 | the same for PPPoE |
| `Nat25Spec.BucketIpv6` | core/rtw_br_ext.c:361-370 | the same for IPv6 |
| `Nat25Spec.BucketOther` | core/rtw_br_ext.c:372-380 | the same for every other address, all 17 octets |
| `Nat25Spec.ExpiredAfter300Seconds` | core/rtw_br_ext.c:155-162 | at every age a signed word holds, an entry has expired exactly from 300 seconds on |
| `Nat25Spec.PresentExactly` | core/rtw_br_ext.c:491-730 | over every run an address is in the table if and only if some insertion of it found memory and neither a cleanup nor the sweeps past its expiry, set against its lookups, have taken it away since |
| `Nat25Spec.SweepMeans` | core/rtw_br_ext.c:645-730 | a sweep removes exactly the expired entries with one use left and takes one use from the other expired ones |
| `Nat25Spec.UsesAreCounted` | core/rtw_br_ext.c:427-430 | over every run the use count of a present entry is 1 plus its unexpired lookups minus the sweeps that found it expired, and at least 1 |
| `Nat25Spec.LastWriteWins` | core/rtw_br_ext.c:417-526 | over every run the MAC address and the timer of a present entry are those it was last given, whatever was looked up or swept since |
| `Nat25Spec.RunIsCounted` | core/rtw_br_ext.c:491-526 | every entry of every reachable table has a use left |
| `Nat25Spec.SweptAfterExactlyUses` | core/rtw_br_ext.c:645-730 | an entry that is not refreshed survives every sweep past its expiry before the one numbered by its use count, losing one use a sweep, and is gone from that one on |
| `Nat25Table.Table.constructor` | core/rtw_br_ext.c:330-382 | an empty table that uses the source's hash |
| `Nat25Table.Table.Find` | core/rtw_br_ext.c:424-426 | the walk along a bucket finds the entry of an address, or nothing exactly when the map has none |
| `Nat25Table.Table.LookupAndReplace` | core/rtw_br_ext.c:417-488 | found exactly when the address is there, replaced exactly when it is also unexpired, with the MAC address of the entry; then the entry gains a use, and no other entry changes; the chains stay consistent |
| `Nat25Table.Table.Insert` | core/rtw_br_ext.c:491-526 | afterwards the address is there exactly when it was or memory was found, with the new MAC address and timer and its old uses or one; no other entry changes; buckets, links and index stay right |
| `Nat25Table.Table.Link` | core/rtw_br_ext.c:384-399 | pushing an entry on its bucket adds its binding to the map and keeps all links mutually consistent |
| `Nat25Table.Table.Unlink` | core/rtw_br_ext.c:401-414 | cutting an entry out, wherever it is in its bucket, removes just its binding and keeps all links mutually consistent |
| `Nat25Table.Table.SweepEntry` | core/rtw_br_ext.c:645-730 | one entry of a sweep: an expired entry loses a use and, with the last one, its place; a remembered entry is forgotten before it goes |
| `Nat25Table.Table.Expire` | core/rtw_br_ext.c:645-730 | exactly the expired entries with one use left are gone, the other expired ones lost a use, the rest stays; the remembered entry is never a freed one |
| `Nat25Table.Table.Cleanup` | core/rtw_br_ext.c:616-642 | the map is empty and nothing is remembered |
| `Nat25Table.Table.RememberScdb` | core/rtw_xmit.c:4655-4664 | the entry of the address, if there is one, is remembered with the MAC and IP address, and its timer started again; nothing else changes |
| `Nat25Table.PushAll` | core/rtw_br_ext.c:384-399 | the pointer writes of linking turn consistent chains into the consistent chains with the entry in front |
| `Nat25Table.CutAll` | core/rtw_br_ext.c:401-414 | the pointer writes of unlinking turn consistent chains into the consistent chains without the entry |
| `Elements.PrintParse` | core/rtw_ieee80211.c:264-285 | printing undoes parsing on every well-formed octet string |
| `Elements.ParsePrint` | core/rtw_ieee80211.c:264-285 | every list of elements is printed as a well-formed string that parses to it |
| `Elements.GetIe` | core/rtw_ieee80211.c:343-367 | position and body length of the first element with the identifier, or nothing exactly when there is none |
| `Elements.GetIeEx` | core/rtw_ieee80211.c:381-415 | position and length of the first element with the identifier and the leading octets, or nothing exactly when there is none |
| `Elements.FoundOctets` | core/rtw_ieee80211.c:343-415 | at the position found are the identifier, the length and the leading octets, inside the list |
| `Elements.WithoutKeeps` | core/rtw_ieee80211.c:417-458 | filtering keeps every non-matching element as often as it occurred and no matching one |
| `RemoveIes.RemoveFirst` | core/rtw_ieee80211.c:441-452 | one round moves what follows the first match over it |
| `RemoveIes.Remove` | core/rtw_ieee80211.c:417-458 | the buffer becomes the octets before the offset and the non-matching elements in order, with the new length; the octets behind the list stay; success is reported exactly when something matched |
| `P2pAttributes.PrintParseAttrs` | core/rtw_ieee80211.c:2288-2313 | printing attributes undoes parsing them |
| `P2pAttributes.ParsePrintAttrs` | core/rtw_ieee80211.c:2288-2313 | parsing attributes undoes printing them |
| `P2pAttributes.WithoutAttrKeeps` | core/rtw_ieee80211.c:2416-2456 | filtering keeps every attribute with another identifier as often as it occurred and none with this one |
| `P2p.GetP2pAttr` | core/rtw_ieee80211.c:2272-2317 | position and length of the first attribute with the identifier; nothing when there is none or the octets are not a P2P element |
| `P2p.P2pOctets` | core/rtw_ieee80211.c:2217-2260 | P2P elements are those with identifier 221 and the octets 50 6F 9A 09, and are printed with a length of 4 more than their attributes |
| `P2p.AttrOctets` | core/rtw_ieee80211.c:2272-2317 | at the position found are the identifier and, low octet first, the length, and the attribute is inside the element |
| `P2p.EditAttr` | core/rtw_ieee80211.c:2425-2450 | the octets after moving, clearing and adjusting the length; `EditCuts` says what they are |
| `P2p.EditCuts` | core/rtw_ieee80211.c:2425-2450 | on a P2P element this cuts the attribute out, with the right length octet and zeros left behind |
| `P2p.DelP2pAttr` | core/rtw_ieee80211.c:2416-2456 | the element ends up with the attributes of other identifiers in order, a matching length octet and zeros behind |
| `P2pBss.GetP2pIe` | core/rtw_ieee80211.c:2217-2260 | position and length of the first P2P element, or nothing when there is none below the size limit |
| `P2pBss.DelFromAllAt` | core/rtw_ieee80211.c:2475-2531 | deleting from a whole list changes each P2P element by itself and no other element |
| `P2pBss.DelFromIdempotent` | core/rtw_ieee80211.c:2475-2531 | deleting again changes nothing |
| `P2pBss.EditRound` | core/rtw_ieee80211.c:2489-2519 | one P2P element is shortened and the gap behind it closed |
| `P2pBss.DelP2pAttrFromBss` | core/rtw_ieee80211.c:2475-2531 | the attribute is gone from every P2P element, everything else is there octet for octet and in order, length octets and `IELength` agree, zeros fill the rest |
| `ChannelSetting.WriteThenRead` | core/rtw_ap.c:4334-4456 | for every element list, setting and configuration, what is read after writing is the setting if and only if `ReadsBack` holds |
| `ChannelSetting.ApSettingReadsBack` | core/rtw_ieee80211.c:1946-2009 | with the HT elements, and under VHT its operation element, every 20, 40 and (under VHT) 80 MHz setting reads back |
| `ChannelSetting.BandChangeReadsBack` | core/rtw_ap.c:4357-4456 | after a change of band the setting reads back from the rewritten list under the same condition, if its DS Parameter Set says the channel |
| `ChannelSetting.WriteKeepsOthers` | core/rtw_ap.c:4334-4456 | boundaries and identifiers stay, and every element but the first of each of the five kinds |
| `ChannelSetting.WrittenBodies` | core/rtw_ap.c:4346-4456 | the bodies a reader finds after writing, VHT Capabilities included, are the bodies found before with exactly the edits meant for them |
| `ChannelSetting.WrittenOperation` | core/rtw_ap.c:4346-4456 | the octets after writing: channel in the DS Parameter Set and HT Operation, secondary channel 1, 3 or 0 and the width bit in octet 1 of HT Operation, [1, centre, 0] or [0, 0, 0] in VHT Operation; every other bit and octet stays |
| `ChannelSetting.WrittenCapabilities` | core/rtw_ap.c:4372-4456 | the width and short guard interval bits of octet 0 of the HT and VHT Capabilities after writing; every other bit and octet stays |
| `ChannelSetting.ReadOctets` | core/rtw_ieee80211.c:1946-2009 | channel, width and offset that are read, from the octets of the elements |
| `ChannelElements.EditFirst` | core/rtw_ap.c:4346-4456 | the first element with an identifier is edited in place, every other octet stays |
| `ChannelElements.UpdateBssChbw` | core/rtw_ap.c:4334-4456 | the octets become those of the written element list, whose octets `WrittenOperation` and `WrittenCapabilities` say, in place and with the same length; on a change of band the width is written into the list that the change leaves |
| `ChannelElements.GetChbw` | core/rtw_ieee80211.c:1946-2009 | channel, width and offset read from the octets are those of the element list |
| `Tim.ReceiverRecovers` | core/rtw_ap.c:49-86 | a receiver recovers every octet of the bitmap, zeros beyond it, and the bit of AID 0 from the element |
| `Tim.SentIsMinimal` | core/rtw_ap.c:56-72 | no later even first octet and no earlier last octet would do |
| `Tim.TimWraps` | core/rtw_ap.c:74-85 | what is written is an element if and only if at most 252 octets of the bitmap are sent, and the length returned is right if and only if at most 250 are |
| `Tim.BmpNotEmpty` | core/rtw_wlan_util.c:4312-4322 | true exactly when some octet is not zero |
| `Tim.SentRange` | core/rtw_ap.c:56-72 | the scans find the first and last octet that are sent |
| `Tim.SetTimIe` | core/rtw_ap.c:49-86 | for every bitmap of 1 to 255 octets, the octets are written at their place and nothing else, and their number is returned modulo 256 |
| `Tim.TimOctetsAre` | core/rtw_ap.c:49-86 | those octets: 5, length, count, period, bitmap control with the bit of AID 0, and the octets sent |
| `Tim.FindHole` | core/rtw_ap.c:106-144 | where the old element is, or where a new one goes |
| `Tim.Places` | core/rtw_ap.c:106-144 | the place is that of the first element 5 unless it is empty, else behind the lengths of the first elements 0 and 1, where there are any, and 3 octets |
| `Tim.UpdateBcnTim` | core/rtw_ap.c:88-166 | the whole buffer and the new length, for every bitmap, with and without a copy of the remainder, and also when the list ends before the place of insertion; for at most 250 octets and a place inside the list the element is spliced in |
| `Tim.RightUpdate` | core/rtw_ap.c:88-166 | the buffer after the update has the octets in place of the hole and everything else as before |
| `Tim.TimReplaced` | core/rtw_ap.c:88-166 | an existing element is replaced and every other one is as before, in order |
| `Tim.TimInserted` | core/rtw_ap.c:117-142 | a missing element is inserted between two others when the place is a boundary |
| `Tim.UsualBeacon` | core/rtw_ap.c:117-142 | the place is a boundary in every beacon that starts with SSID, rates and a DS Parameter Set |
| `Rsne.ReadInverts` | core/rtw_ieee80211.c:875-976 | the parser accepts an octet string with a content if and only if the string is that content printed, complete or cut at a boundary between optional fields |
| `Rsne.CountedAt` | core/rtw_ieee80211.c:905-937 | a count and its list can be read at a position exactly when they were printed there |
| `RsneParse.ParseInfo` | core/rtw_ieee80211.c:875-976 | the walk fails exactly on strings outside the grammar; else every pointer leads to its field inside the element, with the right count, and is null exactly when the field is absent |
| `RsneParse.WalkAkms` | core/rtw_ieee80211.c:922-976 | the same for the walk from the AKM count on |
| `RsneParse.WalkCap` | core/rtw_ieee80211.c:939-976 | the same for the walk from the capabilities on |
| `RsneSettings.CipherMask` | core/rtw_ieee80211.c:737-764 | a cipher is in the mask exactly when the selector is its own; `CipherSuites` gives the octets |
| `RsneSettings.AkmMask` | core/rtw_ieee80211.c:766-800 | an AKM type is in the mask exactly when the selector is its own; `AkmSuites` gives the octets |
| `RsneSettings.CipherSuites` | core/rtw_ieee80211.c:36-48 | the mask of every selector by its octets: one cipher for each known code after 00 0F AC, none for other codes or organisations |
| `RsneSettings.AkmSuites` | core/rtw_ieee80211.c:50-64 | the same for the AKM types |
| `RsneSettings.CapOctets` | include/ieee80211.h:1855-1863 | management frame protection is the two top bits of the first capability octet, the A-MSDU protection bits 2 and 3 of the second |
| `RsneSettings.CollectCiphers` | core/rtw_ieee80211.c:995-1001 | the pairwise mask is the union over the list: a cipher is in it exactly when an entry names it |
| `RsneSettings.CollectAkms` | core/rtw_ieee80211.c:1010-1016 | the AKM mask is the union over the list |
| `RsneSettings.ParseWpa2` | core/rtw_ieee80211.c:978-1032 | the settings are those the element announces, with the defaults for absent fields; it fails exactly when the element is refused |
| `RsneSettings.CiphersReadBack` | core/rtw_ieee80211.c:995-1001 | the mask collected from the selectors of a list of ciphers is the set of those ciphers |
| `RsneSettings.AkmsReadBack` | core/rtw_ieee80211.c:1010-1016 | the mask collected from the selectors of a list of AKM types is the set of those types |
| `RsneSettings.SettingsReadBack` | core/rtw_ieee80211.c:978-1032 | a printed element is accepted, and the settings it announces are the printed ciphers and AKM types |
| `RsneSettings.ReadOctets` | core/rtw_ieee80211.c:875-976 | where each field of a complete element is found, from its octets; counts have their low octet first |
| `RsneSettings.PskCcmp` | core/rtw_ieee80211.c:978-1032 | the element of a CCMP network with a pre-shared key is accepted, and announces exactly CCMP, CCMP, PSK, the default group management cipher and the two bits from each capability octet |
| `ChannelSync.Sync` | core/rtw_ieee80211.c:2066-2114 | the new request and the new group, for every width and any offset function: they are grouped, the group keeps its channel and is not narrowed, the request is not widened |
| `ChannelSync.SyncGroups` | core/rtw_ieee80211.c:2036-2114 | a synced request is grouped with the group |
| `ChannelSync.SyncIdempotent` | core/rtw_ieee80211.c:2066-2114 | syncing again changes neither request nor group |
| `ChannelSync.SyncedWidth` | core/rtw_ieee80211.c:2072-2104 | a request is narrowed exactly when it is 80 MHz in the 2.4 GHz band or has no offset, and without an offset it is 20 MHz |
| `ChannelSync.SyncedOffset` | core/rtw_ieee80211.c:2072-2104 | for every pair of widths, where the offset of a request comes from: the group, the offset found for the width asked, or the request itself; and the width it is left with |
| `ChannelSync.GroupOnlyWidens` | core/rtw_ieee80211.c:2066-2114 | over any sequence of requests the group keeps its channel, never narrows, and keeps its offset once at 40 or 80 MHz |
| `ChannelSync.RequestsStayGrouped` | core/rtw_ieee80211.c:2036-2114 | every request synced so far is grouped with, and no wider than, the group after any later requests |
| `ChannelSync.RequestsFitEachOther` | core/rtw_ieee80211.c:2036-2056 | up to 80 MHz all synced requests are grouped with each other |
| `ChannelSync.GroupIsAskedFor` | core/rtw_ieee80211.c:2066-2114 | the group is the original one or exactly what some request was synced to |
| `ChannelSync.SyncAll` | core/rtw_ap.c:4850-4871 | the loop over the interfaces: each is synced in turn and fits the final group |
| `Stations.RunKeepsInv` | core/rtw_ap.c:3559-3847 | from `start_ap_mode`, over every run of associations, reassociations, departures and coexistence frames, each counter is the number of stations with its flag, the underflow warning is not reached, and ERP and HT bits match the counters |
| `Stations.ErpBitsTellStations` | core/rtw_ap.c:3037-3069 | over every run both ERP protection bits are set if and only if a non-ERP station is there |
| `Stations.ErpBitsTellEvents` | core/rtw_ap.c:3037-3069 | over every run both ERP protection bits are set if and only if some station whose last association has not ended said in it that it is non-ERP |
| `Stations.ErpUpdateRight` | core/rtw_ap.c:3056-3059 | an update of the ERP element by itself is right if and only if at most one non-ERP station is counted |
| `Stations.ErpUpdateBits` | core/rtw_ap.c:3037-3069 | what an update writes into the ERP octet, bit by bit |
| `Stations.HtModeTellsStations` | core/rtw_ap.c:3456-3525 | over every run each of the four protection modes, and the non-GF and non-HT bits, is set if and only if the stated stations are there, given the overlapping legacy flag of the last update |
| `Stations.HtModeTellsEvents` | core/rtw_ap.c:3456-3525 | over every run the number in the two mode bits, and bits 2 and 4, are what the associations that have not ended said, with HT disabled as if none had; each by an if and only if |
| `Stations.HtModeIsCurrent` | core/rtw_ap.c:3726-3730 | a departure, and with HT enabled an association, takes the current overlapping legacy flag into account |
| `Stations.GuardUnneeded` | core/rtw_ap.c:3812-3818 | the guarded decrement always decrements |
| `Stations.JoinFlags` | core/rtw_ap.c:3578-3724 | an association writes the flags of its own station only: those its capabilities say, plus the sticking ones it already had; with HT disabled its HT flags stay |
| `Stations.JoinTells` | core/rtw_ap.c:3578-3724 | each of the seven flags of the station after its association, by what the association says, HT being enabled or not, and by what the station carried |
| `Stations.FlagsTellEvents` | core/rtw_ap.c:3355-3847 | over every run a station carries a flag if and only if an event of the station raised it and no later one made it forget |
| `Stations.RejoinExact` | core/rtw_ap.c:3670-3724 | a reassociation leaves exactly the flags of the new capabilities if and only if every sticking flag is said again |
| `Stations.CoexistenceFlags` | core/rtw_ap.c:3373-3382 | a coexistence frame raises the intolerance of its station and nothing else |
| `Stations.LeaveFlags` | core/rtw_ap.c:3771-3818 | a departure clears every flag of its station and no other flag |
| `Stations.BarkerBitCanLag` | core/rtw_ap.c:3061-3064 | a station without short preamble that is not non-ERP joins without the Barker bit being set |
| `Stations.BarkerAfterJoin` | core/rtw_ap.c:3578-3633 | after an association the Barker bit is right if and only if the association passed a non-ERP edge or the bit already showed what the counter comes to |
| `Stations.BarkerAfterLeave` | core/rtw_ap.c:3771-3786 | the same after a departure |
| `StationBook.Book.constructor` | core/rtw_ap.c:4160-4193 | no stations, zero counters, a cleared operation mode |
| `StationBook.Book.UpdateErpInfo` | core/rtw_ap.c:3037-3069 | the ERP octet in place; with counters that count, its protection bits are right if and only if at most one non-ERP station is counted |
| `StationBook.RewriteErp` | core/rtw_ap.c:3056-3064 | the bit operations set bits 0 and 1 for protection, bit 2 for the Barker preamble, and leave the others |
| `StationBook.Book.UpdateOperation` | core/rtw_ap.c:3456-3525 | the operation mode in place, its bits by number; the number of changes is zero exactly when the mode stays |
| `StationBook.RewriteMode` | core/rtw_ap.c:3472-3518 | the four branches leave mode 3, 2, 1 or 0 and the two presence bits as the stations demand; zero changes are counted exactly when nothing changes |
| `StationBook.Book.StationJoins` | core/rtw_ap.c:3559-3753 | keeps the invariant and makes the association step; the beacon is reported updated exactly when a shown counter passed between none and some or the HT mode changed |
| `StationBook.Book.StationLeaves` | core/rtw_ap.c:3755-3847 | keeps the invariant and makes the departure step, also in the traffic map; a change of the HT mode alone is not reported |
| `StationBook.Book.CoexistenceFrame` | core/rtw_ap.c:3355-3411 | keeps the invariant and, by the octets of the frame, counts an intolerant station once, notes a 20 MHz request and a channel report, or does neither; the beacon is updated exactly when one of these is news; a frame of an unknown station does nothing |
| `KeepAlive.SilentFor` | core/rtw_ap.c:500-733 | from any state, an associated station that sends and acknowledges nothing is removed in exactly the pass `Left` tells |
| `KeepAlive.SilentAmongOthers` | core/rtw_ap.c:500-733 | the same over every run of passes, whatever the other stations do |
| `KeepAlive.RemovedAfterReset` | core/rtw_ap.c:516-523 | a station heard of is not removed in that pass, and if silent from then on is removed `expire_to + 3` passes later |
| `KeepAlive.RemovedAfterAck` | core/rtw_ap.c:700-716 | the same after an acknowledged check when the timeout is not 0 |
| `KeepAlive.RemovedExactly` | core/rtw_ap.c:682-733 | a pass removes a station exactly when it is associated, not heard of, in its last pass, checked three times before and does not acknowledge |
| `KeepAlive.AnnouncedOnce` | core/rtw_ap.c:606-621 | a station is announced traffic exactly when it sleeps, was not announced any and its timeout runs out; it is then marked and not announced any again |
| `KeepAlive.AsocList.Associate` | core/rtw_mlme_ext.c:3085-3090 | a station not yet listed is appended with a full timeout, and the count follows |
| `KeepAlive.AsocList.Delete` | core/rtw_ap.c:722-731 | a listed station leaves the list, and the count follows |
| `KeepAlive.AsocList.Age` | core/rtw_ap.c:500-630 | every listed station ages, the due ones are collected once each, sleeping ones among them are announced traffic |
| `KeepAlive.AsocList.Check` | core/rtw_ap.c:682-733 | every due station is checked; exactly the removed ones leave the list |
| `KeepAlive.AsocList.Pass` | core/rtw_ap.c:500-752 | every listed station makes its step, the removed ones leave list and table, the others keep their order, the count is the length of the list, and the listed part is that of `SilentAmongOthers` after one more pass |
| `PppoeTags.ReplyFindsClient` | core/rtw_br_ext.c:1137-1249 | a reply with the relay tag among any other tags leads back to the client, and stripping leaves the old relay tag, if it had data, in its place |
| `PppoeTags.EchoRestores` | core/rtw_br_ext.c:1137-1249 | an echoed tag list is restored, with an old relay tag that is not empty first |
| `PppoeTags.EchoExact` | core/rtw_br_ext.c:1137-1249 | the tag list comes back unchanged if and only if it had no relay tag or a first one with data |
| `PppoeTags.TagOctets` | core/rtw_br_ext.c:92-100 | a tag is its type and length, high octets first, and its data |
| `PppoeTags.RelayTagOctets` | core/rtw_br_ext.c:1146-1169 | the relay tag is 01 10, its length, 81 86, the client and the old data, of which up to 28 octets fit |
| `PppoeTags.OursOctets` | core/rtw_br_ext.c:1215-1237 | a reply is ours exactly when its first tag of type 0x0110 has at least 8 octets and starts with 81 86; the client is octets 2 to 7 |
| `PppoeRelay.FrameOctets` | core/rtw_br_ext.c:87-102 | the tags start at octet 20 and their length is in octets 18 and 19, high octet first |
| `PppoeRelay.FindTag` | core/rtw_br_ext.c:87-102 | the position of the first relay tag, or that there is none |
| `PppoeRelay.PullAndMerge` | core/rtw_br_ext.c:124-143 | octets are taken out of the frame, or refused exactly when they are not inside it |
| `PppoeRelay.AddTag` | core/rtw_br_ext.c:105-122 | the octets that the length read in host order asks for, of the tag buffer and behind it, are put in front of the tags, exactly when the tail room takes them; else nothing changes |
| `PppoeRelay.LengthByOrder` | core/rtw_br_ext.c:110-110 | in big-endian order the length read is that of the tag, in little-endian order it is 256 times the data and beyond the tag buffer, for every tag |
| `PppoeRelay.OutcomeExactly` | core/rtw_br_ext.c:1137-1176 | each outcome if and only if numbers say so: 28 octets of old data, and the tail room for 12 or 2052 octets and the old data once or 256 times, less an old tag |
| `PppoeRelay.Insert` | core/rtw_br_ext.c:1137-1176 | which way it ends, from byte order, old tag and tail room; the frame gets the relay tag first and loses an old one exactly in the good case, and for every other case what the frame then holds |
| `PppoeRelay.Strip` | core/rtw_br_ext.c:1207-1249 | a frame with our relay tag gets the client as destination and loses our part of the tag; any other frame is refused unchanged |
| `AclPool.CountIsSize` | core/rtw_ap.c:2507-2724 | the count is the number of distinct addresses in the pool and at most 16 |
| `AclPool.FreeNode` | core/rtw_ap.c:2643-2659 | a count below the limit guarantees a free node |
| `AclPool.Pool.constructor` | core/rtw_ap.c:2507-2534 | an empty pool |
| `AclPool.Pool.Add` | core/rtw_ap.c:2603-2668 | bounded insertion at the end, refused exactly when 16 other addresses are there |
| `AclPool.Pool.Remove` | core/rtw_ap.c:2671-2724 | the address is taken out and the others keep their order; the broadcast address empties the pool |
| `AclPool.Pool.Clear` | core/rtw_ap.c:2536-2570 | the pool is empty and disabled |

## Left out

- The command queue is a state machine on values, not a class: a step is atomic, and memory is a record of what was allocated, signalled and freed.
- That every command is eventually freed: `rtw_disassoc_cmd_callback` keeps one on failure, and a submitter that passed the filter can enqueue after the final drain.
- Nat25Table.Table.Insert: the locks around the table operations are not modelled; each operation is one step.
- Parsing frames into network addresses, and the IPv4, IPX, AppleTalk and IPv6 branches of `nat25_db_handle`.
- Octets that are not a well-formed element, attribute or tag list, except for RSN elements; behaviour on them is not described.
- RemoveIes.Remove: elements with the identifier are taken to be at least as long as the octets compared, since the comparison does not look at the length.
- P2pBss.DelP2pAttrFromBss: vendor elements are taken to have at least four octets, for the same reason.
- ChannelElements.UpdateBssChbw: what `change_band_update_ie` makes of the elements on a change of band (ERP, rates and VHT elements) is a parameter.
- Tim.UpdateBcnTim: when the list ends before the place of insertion, the length of the remainder wraps and its allocation is taken to fail.
- Tim.TimInserted: without a TIM, nothing is said about the list when the place of insertion is inside an element.
- Stations.HtModeTellsStations: `ht_op_mode` is modelled by its three parts; `Word` says which number they are.
- Stations.RunKeepsInv: `rtw_ap_check_scan`, which resets one counter regardless of the flags, is not an event, and the BSS is started throughout or not at all.
- StationBook.Book.CoexistenceFrame: a frame body is empty or has at least five octets, since the handler does not look at the length; the transmission of the beacon is left out.
- KeepAlive.AsocList.Pass: receive counters do not wrap, every station has a valid table offset, and the authentication list, ageing of sleep queues and the passive checks are left out.
- PppoeRelay.Insert: only the branch that adds relay tags, in frame buffers of at most 64 KiB, where the length field does not wrap; the octets behind the tag buffer are a parameter.
- AclPool.Pool.Add: one of the pools; the range check of the period is left out.
- WPA (version 1) and WAPI elements, whose parsers have the same shape as the RSN one with fewer fields.
- Mesh, MCC, DFS, power saving beyond the traffic map, beamforming, Bluetooth coexistence, channel plan tables, hardware access and timers.
