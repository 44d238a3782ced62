# Verification of the enody host library

The library drives Enody lighting hardware over USB and WiFi. This project models the parts of it where
a mistake would lose, duplicate or misroute something, and proves what those parts keep:

* **USB framing** (`Framing`, `StreamParser`, `MessageStreams`): DLE escaping, STX/ETX frames, and the
  byte-at-a-time receiver, for the growable buffer of `std` builds and the 512-byte buffer of `no_std` builds.
* **Command dispatch** (`Dispatch`, `DispatchSafety`, `DispatchTheorems`, `RemoteRuntimes`): any number of
  concurrent calls, one dispatcher, a pending table behind a lock, bounded queues, deadlines, cancellation
  and abort, as a transition system. Every theorem is about all interleavings from the initial state.
* **WiFi discovery** (`WifiDiscovery`, `WifiEnvironments`, `WifiInterleaving`, `WifiExclusions`): reconciling the
  connected list with noisy sightings, first as whole rounds, then step by step beside `exclude_host_id`.
* **USB and serial discovery** (`UsbDiscovery`, `UsbEnvironments`, `SerialPolling`, `SerialDriving`,
  `SerialQueues`): arrivals and departures
  folded into a list without duplicates, the serial poll that produces them, and what its full queue costs.
* **WiFi wire** (`WifiFrames`, `WifiWire`, `WifiChannel`, `WifiSenders`, `WifiSession`): the postcard encoding of
  requests and responses, length-prefixed frames, and messages sealed by concurrent senders and opened in order.
* **Versions and firmware choice** (`Versions`, `Firmware`) and the **batched spectral download** (`Spectral`).

Code that updates state in place is written as methods and classes; each is tied to a function of the old
state, and the results are proved about those functions.

## What the code does not promise

Reading the properties off the code showed where a tempting one fails. Each of these is proved, with the
exact condition under which the property does hold.

* A receiver recovers a frame exactly when the whole frame, delimiters and escapes included, fits its buffer
  (`StreamParser.DecodesExactlyWhatFits`). A frame that arrives in the middle of another is swallowed as data,
  STX included, exactly when both together fit (`StreamParser.MidFrameOutput`).
* The initial USB enumeration compares serial numbers only, while later arrivals also compare connection
  keys. The initial list has no duplicates exactly when the accepted sightings have distinct keys
  (`UsbDiscovery.InitialListUniqueIff`, `UsbDiscovery.SameKeyTwice`, `SerialPolling.CollidingPortsBothConnect`).
* Two different serial ports can share a connection key (name `a:b` without serial number, name `a` with serial
  number `b:`), and then a poll misses the exchange. Folding a poll's events over the known map gives the
  current keys always, and the current map exactly when no key stays attached under different port data
  (`SerialPolling.FoldReachesCurrent`, `SerialPolling.KeysCanCollide`).
* A serial event dropped by a full queue is not sent again. After any run of polls the keys known wrongly are
  exactly those about which an odd number of events was dropped since the last one taken
  (`SerialQueues.WrongKeysExactly`, for the queue of 16 and any reader `SerialQueues.WrongKeysOfQueue`); of 17 ports
  plugged in at once while nobody reads, the last one is lost (`SerialQueues.SeventeenthPortIsLost`).
* The list of runtimes and the poll's first map are enumerated at different times. A port that goes in between
  stays connected until it turns up again, and one that comes in between stays unconnected until it is taken
  out: after any run, a serial runtime has no port exactly when it had none at the start, was unknown to the
  first poll and has not turned up since (`SerialDriving.StaleExactly`, `SerialDriving.UnannouncedExactly`, with
  runs in `SerialDriving.GoneBeforePolling` and `SerialDriving.ComeBeforePolling`).
* A host can be connected while it is excluded, and it comes to be so in two ways only: it was connected when it
  was marked, until the call that marked it takes its runtime out, or a round inserts it that copied the
  exclusion set before it was in there (`WifiExclusions.OverlapBegins`, `WifiExclusions.ExcludedAndConnected`).
  Once it is out, it can be connected again while it stays excluded exactly when such a round is connecting it
  or has an unseen sighting of it that counts still to look at (`WifiExclusions.SlipInIff`); both failures have a run
  (`WifiExclusions.MarkedBeforeRemoved`, `WifiExclusions.ExcludedHostCanSlipIn`). Three rounds that copied the
  set afterwards remove it (`WifiExclusions.ExcludedHostFades`).
* The branch "command response channel closed" of the receive loop cannot be taken
  (`DispatchTheorems.ChannelNeverClosesEarly`).
* Sending releases the cipher before it takes the writer, so concurrent senders may write in another order than
  they sealed (`WifiSenders.OvertakingRun`). The other end opens exactly the longest prefix of complete frames
  written in sealing order, and goes on to what follows a torn frame's beginning only when that is all of them
  (`WifiSenders.DeviceOpens`). Every complete frame is opened, and nothing else, if and only if no write overtakes an
  earlier seal (`WifiSenders.AllOpenIff`). A send that is cancelled or whose write fails, at whatever byte, uses up a
  counter, and from that counter on nothing is opened (`WifiSenders.LostCounterEndsDelivery`). After a torn frame
  the last two hold as long as the missing counter's ciphertext does not turn up in the misaligned bytes.
* The offset of the spectral download leaves the 32-bit range for exactly those devices that claim almost 2^32
  samples and answer every request with batches that hardly fill the buffer (`Spectral.OverflowIff`, with such
  a device in `Spectral.EmptyBatchesOverflow`); no device that answers ranges truthfully is one of them.

## Model

| member | source | states |
|---|---|---|
| Framing.EscapeLength | src/serialization.rs:32-66 | a frame is two bytes plus the payload plus one for each 0x02, 0x03 and 0x10 in it |
| Framing.PlainFrameIff | src/serialization.rs:32-66 | a frame is the payload between 0x02 and 0x03 exactly when the payload has no 0x02, 0x03 or 0x10 |
| Framing.TokeniseEscape | src/serialization.rs:32-58 | escaped text reads back as one token per payload byte, none a delimiter, whatever follows |
| Framing.UnframeFrame | src/serialization.rs:60-83 | unframing what was framed gives the payload back, for every payload |
| Framing.UnframeErrs | src/serialization.rs:69-83 | refused are exactly the texts that do not begin with 0x02 and end with another byte 0x03 |
| Framing.TokeniseConcat | src/serialization.rs:43-58 | a stream cut outside an escape pair is read piece by piece |
| Framing.TokeniseSnoc | src/serialization.rs:43-58 | one more byte completes a pair, opens one, or is a token of its own |
| Framing.UnescapeSnoc | src/serialization.rs:43-58 | unescaping keeps every byte but an unescaped 0x10, a byte after one whatever it is |
| Framing.GrammarFrames | src/serialization.rs:60-66 | the skip-to-STX, collect-to-ETX grammar reads concatenated frames as exactly the payloads framed |
| Framing.FramesInjective | src/serialization.rs:60-66 | different payload lists give different byte streams |
| StreamParser.EscapedIffControl | src/serialization.rs:32-41 | the bytes escaped are exactly those a receiver would take as control, outside a frame or in one: 0x02, 0x03 and 0x10 |
| StreamParser.NoFrameDiscarded | src/serialization.rs:150-156 | closing a frame in a reachable state always yields the decoded payload (or overflows): the `.ok()` hides no error |
| StreamParser.StepKeepsValid | src/serialization.rs:127-160 | the buffer starts with STX, has no unescaped ETX, fits, and the flag says whether it ends inside a pair, after every byte |
| StreamParser.RunKeepsValid | src/serialization.rs:162-167 | the same after every byte stream |
| StreamParser.StreamRefinesGrammar | src/serialization.rs:127-167 | for every byte stream the outputs of the growable build are those of the declarative grammar on the tokens of the whole stream |
| StreamParser.EveryBuildRefinesGrammar | src/serialization.rs:127-167 | for every byte stream and every capacity the outputs are those of a grammar in which a frame that overflows is given up with the byte that overflows it |
| StreamParser.RunRemaining | src/serialization.rs:127-167 | the same from every reachable state of every build |
| StreamParser.UnboundedGrammarsAgree | src/serialization.rs:127-167 | without a capacity the two grammars are one |
| StreamParser.RunContinues | src/serialization.rs:127-167 | from every reachable state of the growable build, with what the buffer and flag still have to contribute, the outputs are those of the first grammar |
| StreamParser.MidFrameOutput | src/serialization.rs:139-156 | in every build, a frame received in the middle of another comes out as one payload, the decoded rest, STX and the payload, if and only if both together fit the buffer |
| StreamParser.ChunkingIsInvisible | src/serialization.rs:162-167 | how a stream is cut into reads never changes the outputs |
| StreamParser.RoundTrip | src/serialization.rs:60-66 | any list of payloads, framed, concatenated and cut in any way, is received exactly, in every build where each frame fits |
| StreamParser.SelfSynchronises | src/serialization.rs:127-160 | from every reachable state of either build one frame of any length leads to the initial state |
| StreamParser.ResynchronisesAfterOneFrame | src/serialization.rs:268-305 | after any noise and one frame, all following frames that fit decode exactly |
| StreamParser.DecodesExactlyWhatFits | src/serialization.rs:139-148 | a receiver of any capacity recovers a frame if and only if the capacity is at least the frame's length |
| StreamParser.NoStdDecodes | src/serialization.rs:9-11 | the 512-byte build recovers exactly the payloads with 2 + length + number of 0x02, 0x03 and 0x10 at most 512 |
| StreamParser.RunTooLong | src/serialization.rs:139-148 | when a frame being collected will not fit, fewer payload bytes are left than were sent, in every way the overflow can fall |
| StreamParser.CollectsAll | src/serialization.rs:127-160 | after 0x02, everything up to an unescaped 0x03 is collected and nothing comes out |
| StreamParser.OverflowRestarts | src/serialization.rs:139-148 | the byte that overflows takes the frame and itself away: what follows is received as from the start |
| MessageStreams.EscapedBytes | src/serialization.rs:32-41 | the loop computes the escaped form, or panics exactly when it exceeds the buffer |
| MessageStreams.UnescapeBytes | src/serialization.rs:43-58 | the loop computes the literals of the tokens of its input |
| MessageStreams.FrameBytes | src/serialization.rs:60-66 | the encoder writes the frame, and panics exactly when 2 + length + number of 0x02, 0x03 and 0x10 exceeds the capacity |
| MessageStreams.UnframeBytes | src/serialization.rs:69-83 | equals the batch unframing, its errors included |
| MessageStreams.MessageStream.constructor | src/serialization.rs:118-125 | starts in the initial state |
| MessageStreams.MessageStream.PushByte | src/serialization.rs:127-160 | updates the two fields and answers as the transition function says, and keeps the invariant |
| MessageStreams.MessageStream.PushBytes | src/serialization.rs:162-167 | collects exactly the payloads of the run |
| MessageStreams.ReceiveAll | src/serialization.rs:307-340 | no frame is lost at any burst size: what the frame-loss sweep measures, for all payloads and cuttings |
| DispatchSafety.StepKeeps | src/runtime.rs:162-373 | every step of every caller and of the dispatcher keeps the invariant on lock, table, queues and history |
| DispatchSafety.ReachableInv | src/runtime.rs:162-373 | the invariant holds after every interleaving |
| DispatchTheorems.NothingLostNothingReordered | src/runtime.rs:199-235 | while a call is registered, what arrived for it is what it consumed, then its queue, then the event in the dispatcher's hand |
| DispatchTheorems.OutcomeHasItsCause | src/runtime.rs:316-373 | in every run a call not cancelled ends in `Timeout` if and only if its deadline passed while it waited, and in the transport's error if and only if its send failed |
| DispatchTheorems.ReturnsFirstDecisive | src/runtime.rs:325-373 | a call returns the first error-or-terminal event in arrival order; one that gave up had consumed none, and timed out exactly when its deadline passed, and reports the transport's error exactly when its send failed |
| DispatchTheorems.PlainCommandReturnsFirstArrival | src/runtime.rs:274-293 | `execute_command` returns the very first event with its context |
| DispatchTheorems.TransitionReturnsItsOwnEnd | src/fixture.rs:168-182 | the call of a transition succeeds with the end of the transition it asked for, and nothing decisive came before |
| DispatchTheorems.TransitionReachedIff | src/fixture.rs:155-191 | a fixture reports a state as reached exactly when the call is answered and the first such end carries that state and this fixture's identifier |
| DispatchTheorems.EveryMessageHasOneFate | src/runtime.rs:167-235 | the messages received are, in order, those with one settled fate plus the one in hand; delivered ones went to the call with their context, logged ones are log events, queued ones are those taken plus those waiting, and each dispatcher abort loses at most one |
| DispatchTheorems.NeverRoutedElsewhere | src/runtime.rs:212-227 | a response to a registered call is never logged, queued as unmatched or dropped |
| DispatchTheorems.DroppedOnlyWhenFull | src/runtime.rs:167-193 | an unmatched message is dropped exactly when its queue of 64 is full and it is not printed, and printed exactly when logging is on and it is a log event |
| DispatchTheorems.ForwardingIff | src/runtime.rs:167-193 | in every reachable state the message forwarded is printed if and only if logging was enabled in the run and it is a log event, queued if and only if not printed and the queue holds fewer than 64, dropped otherwise |
| DispatchTheorems.DispatcherStops | src/runtime.rs:199-210 | the dispatcher stops when the connection fails to give a message or it is aborted, and by nothing else |
| DispatchTheorems.RegistrationsAccounted | src/runtime.rs:162-165 | every table entry belongs to a call in flight or a cancelled one, every call in flight has one, no finished call does |
| DispatchTheorems.TableIff | src/runtime.rs:212-227 | exactly which registrations each step adds to the table and takes out of it; pruning takes out those whose receiver is gone and no others |
| DispatchTheorems.EntryRemovedOnlyByItsCall | src/runtime.rs:212-227 | neither pruning nor a failed delivery takes a call's entry away while the call is registered |
| DispatchTheorems.ChannelNeverClosesEarly | src/runtime.rs:355-360 | the closed-channel branch is unreachable |
| DispatchTheorems.LockIsAlwaysReleased | src/runtime.rs:162-165 | whoever holds the table's lock gives it back within two steps of its own |
| DispatchTheorems.BlockedSendHasLiveOwner | src/runtime.rs:221-227 | a send blocked on a full queue has an open owner, and the dispatcher does not hold the lock |
| DispatchTheorems.DispatcherCanAlwaysMove | src/runtime.rs:212-227 | whatever the dispatcher holds, at most four ordinary steps of callers let it go on |
| DispatchTheorems.NoReachableDeadlock | src/runtime.rs:199-373 | no reachable state is a deadlock between dispatcher and callers |
| DispatchTheorems.MessageCanAlwaysBeSettled | src/runtime.rs:199-235 | from every reachable state the dispatcher can settle the message in hand without losing it, by its own steps and ordinary steps of callers |
| DispatchTheorems.AnswerReturns | src/runtime.rs:199-373 | in every reachable state with an idle dispatcher and a free lock, a waiting call can return the next decisive event of its own |
| DispatchTheorems.CallCanAlwaysReturn | src/runtime.rs:295-373 | from every reachable state every call that was not cancelled can return, by a run that is exhibited |
| RemoteRuntimes.RemoteRuntimeInner.PushRegistration | src/runtime.rs:308-314 | the critical section that registers a call is the model's step |
| RemoteRuntimes.RemoteRuntimeInner.Retain | src/runtime.rs:162-165 | the `retain` loop drops exactly the registrations with the context |
| RemoteRuntimes.RemoteRuntimeInner.RetainOpen | src/runtime.rs:214 | the `retain` loop drops exactly the registrations with a closed receiver |
| RemoteRuntimes.RemoteRuntimeInner.RemovePendingRegistration | src/runtime.rs:162-165 | removal by context is the model's step, for the caller and for the dispatcher |
| RemoteRuntimes.RemoteRuntimeInner.FindRegistration | src/runtime.rs:212-219 | prune and look up under one lock are the model's two steps, with the same answer |
| RemoteRuntimes.RemoteRuntimeInner.EnableLogging | src/runtime.rs:261-263 | turns logging on, as the model's step |
| RemoteRuntimes.RemoteRuntimeInner.ForwardUnmatchedMessage | src/runtime.rs:167-193 | prints exactly a log event with logging on, queues exactly what is not printed while the queue of 64 is open and has room, drops the rest, as the model's forward step does; stops the loop exactly when the queue is closed and the message is not printed |
| RemoteRuntimes.RemoteRuntimeInner.AwaitResponse | src/runtime.rs:325-372 | the receive loop stops at the first own event that is an error or terminal and reports that one, times out or reports the closed queue when there is none, and always takes its registration out |
| WifiDiscovery.SeenMeansSighted | src/wifi.rs:370-379 | a host counts as seen exactly when it has a first sighting that counts |
| WifiDiscovery.SeenIff | src/wifi.rs:460-491 | a host counts as seen exactly when it has a saved token, is not excluded, and some sighting of it advertises "enody-v1" and "noise-psk" |
| WifiDiscovery.FirstConnectsIff | src/wifi.rs:328-358 | connecting is tried with the first such sighting of a host only, and succeeds exactly when it accepts the token saved for that host |
| WifiDiscovery.ScanMeaning | src/wifi.rs:370-417 | a scan keeps the list in place, resets exactly the counters of seen hosts, and appends exactly the hosts whose first counting sighting connects |
| WifiDiscovery.AgeMeaning | src/wifi.rs:419-442 | the ageing pass raises the counter of unseen hosts and gives up exactly those that reach three |
| WifiDiscovery.RoundMeaning | src/wifi.rs:361-458 | one round, seen from one host: its new counter, and exactly when it arrives or leaves |
| WifiDiscovery.ArrivedIff | src/wifi.rs:361-418 | a round announces a host exactly when it was not connected, has a token, is not excluded, and the first sighting of it that advertises "enody-v1" and "noise-psk" accepts that token |
| WifiDiscovery.ConstructedIff | src/wifi.rs:198-262 | the constructor connects exactly the hosts a first round would announce |
| WifiDiscovery.ArrivalsInOrder | src/wifi.rs:370-417 | arrivals come in the order of the sightings |
| WifiDiscovery.RoundInOrder | src/wifi.rs:419-457 | a round's departures come after its arrivals, in the order of the list |
| WifiDiscovery.OpKeepsInv | src/wifi.rs:284-458 | hosts stay distinct, none is excluded, counters stay below three, for a round and for changes of the exclusion set |
| WifiDiscovery.RunKeepsInv | src/wifi.rs:284-458 | the same after any run of rounds and exclusions executed one at a time |
| WifiDiscovery.ConstructedInv | src/wifi.rs:198-263 | the constructor establishes it, with every counter at zero |
| WifiDiscovery.RunExcluded | src/wifi.rs:284-326 | after any run a host is excluded exactly when it was at the start or in the run and that was not lifted since |
| WifiDiscovery.RunKeepsKnown | src/wifi.rs:460-491 | whoever is connected after any run has a saved token |
| WifiDiscovery.CounterIsMisses | src/wifi.rs:430-434 | the stored counter always equals the rounds since the host was last seen |
| WifiDiscovery.LeavesAfterThreeMisses | src/wifi.rs:419-442 | a connected host leaves in a round exactly when neither that round nor the two before it saw the host |
| WifiDiscovery.EventsReproduceList | src/wifi.rs:361-458 | folding the events of any run over the initial list gives the final list, in order |
| WifiEnvironments.WifiEnvironment.constructor | src/wifi.rs:198-263 | the first scan, with its loop: connected are exactly the hosts with a token, not excluded, whose first sighting that advertises "enody-v1" and "noise-psk" accepts the token |
| WifiEnvironments.WifiEnvironment.ReconcileDiscoveredDevices | src/wifi.rs:361-458 | one whole round in place: new list, and events in which a host arrives exactly when it was not connected and is one the constructor would connect |
| WifiEnvironments.WifiEnvironment.AgeEntry | src/wifi.rs:424-439 | one turn of the ageing loop replaces or takes out the entry |
| WifiEnvironments.WifiEnvironment.AgeAll | src/wifi.rs:419-442 | the index loop that removes while it walks ages every entry once |
| WifiEnvironments.WifiEnvironment.RemoveConnectedRuntime | src/wifi.rs:269-278 | removes the host's entry and nothing else |
| WifiEnvironments.WifiEnvironment.ExcludeHostId | src/wifi.rs:284-320 | inserts the host, leaves it unconnected, and reports a runtime taken out once if the channel of 16 has room |
| WifiEnvironments.WifiEnvironment.RemoveExcludedHostId | src/wifi.rs:323-326 | only the exclusion set changes |
| WifiInterleaving.StepSafe | src/wifi.rs:269-458 | every step of the round and of concurrent exclusions keeps hosts distinct |
| WifiInterleaving.StepBalanced | src/wifi.rs:269-458 | every step keeps membership equal to arrivals minus departures, wherever the events are |
| WifiInterleaving.InterleavingSafe | src/wifi.rs:269-458 | after every interleaving hosts are distinct and each host's membership is its initial one plus arrivals minus departures generated |
| WifiInterleaving.StepDelivers | src/wifi.rs:307-320 | what each step puts into the channel, at its end, and what it drops: an exclusion's departure only when the channel holds 16 or the call is cancelled, otherwise only the events of a round that is stopped |
| WifiInterleaving.RoundCanFinish | src/wifi.rs:536-562 | from every state the round under way can finish, by its own steps and a reader's of the channel |
| WifiInterleaving.RunDelivers | src/wifi.rs:558-562 | in every interleaving what is sent is received in the order of sending, from a channel that never holds more than 16 |
| WifiExclusions.StepHolds | src/wifi.rs:269-458 | for every step, exactly when a host is connected after it |
| WifiExclusions.OverlapBegins | src/wifi.rs:284-320 | an excluded host comes to be connected exactly by being marked while connected, or inserted by a round that copied the set without it |
| WifiExclusions.OverlapEnds | src/wifi.rs:269-326 | exactly which steps end that |
| WifiExclusions.RunKeepsShut | src/wifi.rs:547-554 | excluded, not connected and not expected by the round under way is kept by every run that does not lift the exclusion |
| WifiExclusions.SlipInIff | src/wifi.rs:370-417 | an excluded, unconnected host can still be connected while excluded if and only if the round under way copied the set without it and has it in hand or to come |
| WifiExclusions.ExcludedAndConnected | src/wifi.rs:284-320 | in every run, a host both excluded and connected is about to be taken out or was inserted while excluded |
| WifiExclusions.MarkedBeforeRemoved | src/wifi.rs:285-293 | a run in which an excluded host is connected with no round under way |
| WifiExclusions.ExcludedHostCanSlipIn | src/wifi.rs:547-554 | a run in which a round connects a host excluded meanwhile |
| WifiExclusions.ExcludedHostFades | src/wifi.rs:547-554 | a host that stays excluded is gone after three rounds that copied the exclusion set with it |
| WifiInterleaving.UndisturbedRound | src/wifi.rs:361-458 | without interference the stepwise round is the sequential one |
| UsbDiscovery.HandleKeepsUnique | src/usb/mod.rs:248-325 | one arrival or departure keeps keys, serial numbers and runtimes pairwise distinct |
| UsbDiscovery.RunKeepsUnique | src/usb/mod.rs:426-442 | so does any sequence of them |
| UsbDiscovery.ArrivalIsNews | src/usb/mod.rs:248-295 | an arrival is announced exactly when the serial number is readable or the device opens, its runtime starts, and no entry has its key or the serial number read, before connecting if readable then and afterwards otherwise; the entry made carries that reading |
| UsbDiscovery.SerialRead | src/usb/mod.rs:254-264 | which of the two readings of the serial number counts |
| UsbDiscovery.ReannouncementIsSilent | src/usb/mod.rs:266-279 | announcing a connected key or serial number again changes and emits nothing |
| UsbDiscovery.DepartureIsExact | src/usb/mod.rs:297-325 | a departure removes exactly the entry with its key and reports that entry's runtime |
| UsbDiscovery.EventsReproduceList | src/usb/mod.rs:426-442 | folding the emitted events over the initial list gives the final list, in order |
| UsbDiscovery.EnumerationMeaning | src/usb/mod.rs:165-233 | the initial list holds exactly the sightings accepted, in priority order, each with its key and the serial number read before connecting or else afterwards |
| UsbDiscovery.AcceptedIff | src/usb/mod.rs:193-232 | accepted are exactly the sightings reached whose runtime starts and from which no serial number was read that had been read from an earlier one, before connecting or after |
| UsbDiscovery.EnumerateMore | src/usb/mod.rs:193-232 | more sightings claim exactly the serial numbers read from them, and only add entries, each made for one of them |
| UsbDiscovery.SightedByTwoBackends | src/usb/mod.rs:197-220 | a device sighted by a backend that can read its serial number and by one that must open it first is connected once, whichever comes first |
| UsbDiscovery.InitialListUniqueIff | src/usb/mod.rs:165-233 | the initial list holds no serial number twice, and is free of duplicates exactly when the accepted sightings have distinct keys |
| UsbDiscovery.SameKeyTwice | src/usb/mod.rs:207-228 | two sightings with one key are both connected unless they have the same serial number |
| UsbEnvironments.UsbEnvironment.constructor | src/usb/mod.rs:165-246 | the loop over the backends is that enumeration |
| UsbEnvironments.AllSightingsConcat | src/usb/mod.rs:174-193 | backends are taken in priority order, one after the other |
| UsbEnvironments.AllSightingsOne | src/usb/mod.rs:177-183 | a backend that fails to enumerate contributes nothing, any other its devices |
| UsbEnvironments.UsbEnvironment.EnumerateBackend | src/usb/mod.rs:193-232 | the loop over one backend's devices continues it: it claims exactly the serial numbers read from them and adds only entries made for them |
| UsbEnvironments.UsbEnvironment.HandleDeviceArrived | src/usb/mod.rs:248-295 | new list and event of an arrival, in terms of the two readings of the serial number: when it is announced, and what the entry carries |
| UsbEnvironments.UsbEnvironment.HandleDeviceLeft | src/usb/mod.rs:297-325 | new list and event of a departure |
| UsbEnvironments.UsbEnvironment.HandleEvents | src/usb/mod.rs:426-442 | the sequential loop keeps the list unique and its events explain the list, up to the one event that is unsent when the loop ends between changing the list and sending |
| SerialPolling.BuildPortMap | src/usb/serialport.rs:308-322 | the map has exactly the keys of the ports enumerated, and under each the last port enumerated with it |
| SerialPolling.KeyText | src/usb/serialport.rs:272-278 | the text of a key: a missing serial number counts as an empty one |
| SerialPolling.CollectUnmatched | src/usb/serialport.rs:377-397 | walking a hash map in any order collects each entry whose key the other map lacks once |
| SerialPolling.Poll | src/usb/serialport.rs:354-399 | a poll generates exactly the symmetric difference of the two maps, each key once, arrivals before departures |
| SerialPolling.FoldReachesCurrent | src/usb/serialport.rs:354-399 | folding a poll's events over the known map gives the current keys, and the current map if and only if no common key changed its port |
| SerialPolling.KeysCanCollide | src/usb/serialport.rs:272-278 | two different ports with one key, and a poll that misses the exchange |
| SerialPolling.CollidingPortsBothConnect | src/usb/mod.rs:193-232 | the initial enumeration connects both of them |
| SerialPolling.CleanKeysIdentify | src/usb/serialport.rs:272-278 | port names without a colon and serial numbers that are not empty are identified by the key |
| SerialPolling.PollingTask | src/usb/serialport.rs:337-399 | the loop replaces the known map by that of the last successful enumeration; a failed one changes nothing |
| SerialPolling.RunReproducesPorts | src/usb/serialport.rs:354-399 | the events of any run of polls reproduce the attached keys, and with clean names the attached ports |
| SerialDriving.PollKeepsListInStep | src/usb/mod.rs:297-309 | handling a poll's events leaves a runtime of a port that is gone only if it was there before and unknown to the poll, and keeps those of ports that stayed and of other backends |
| SerialDriving.NewPortConnectsIff | src/usb/mod.rs:248-295 | a new port ends up connected exactly when it was connected all along, or its device is reached, its runtime starts and no runtime connected at its turn has its serial number |
| SerialDriving.StaleExactly | src/usb/serialport.rs:354-399 | after any run from any list and any known map, exactly which serial runtimes have no port |
| SerialDriving.UnannouncedExactly | src/usb/serialport.rs:354-399 | a port known to the first poll and attached ever since is connected exactly when it was at the start |
| SerialDriving.GoneBeforePolling | src/usb/serialport.rs:354-355 | a port unplugged between the two enumerations stays connected through any number of polls |
| SerialDriving.ComeBeforePolling | src/usb/serialport.rs:354-355 | a port plugged in between them is not connected through any number of polls |
| SerialQueues.TrySendAll | src/usb/serialport.rs:377-397 | for any reader: nothing is reordered, and an event is dropped exactly when the queue holds 16 at its attempt |
| SerialQueues.WrongKeysExactly | src/usb/serialport.rs:375-399 | after any run, a listener is wrong about exactly the keys with an odd number of events dropped since the last one taken |
| SerialQueues.WrongKeysOfQueue | src/usb/serialport.rs:375-399 | the same where the queue of 16 and any reader decide what is dropped |
| SerialQueues.LatePortsAreLost | src/usb/serialport.rs:377-399 | of more ports than the queue holds that arrive at once with no reader, each after the 16th stays unknown while it is attached |
| SerialQueues.SeventeenthPortIsLost | src/usb/serialport.rs:377-399 | a run with 17 ports in which that happens |
| SerialQueues.NotRepaired | src/usb/serialport.rs:399 | polls during which a key does not come or go leave it as wrong as it was |
| WifiFrames.VarintRoundTrip | src/wifi.rs:44-85 | every number within the width of its type is read back from its varint, whatever follows |
| WifiFrames.VarintReadings | src/wifi.rs:44-85 | no varint reading overflows, none is shorter than the canonical form |
| WifiFrames.VarintIff | src/wifi.rs:44-85 | what is read as a number is exactly a varint of its value, canonical or not, of no more bytes than the type has |
| WifiFrames.TagsAndLengths | src/wifi.rs:44-85 | variant tags are the numbers of 32 bits and lengths those of 64 |
| WifiFrames.PrefixedIs | src/wifi.rs:44-85 | the one or two bytes of length before a vector or string |
| WifiFrames.IsUtf8Iff | src/wifi.rs:56-61 | the strings accepted are exactly the UTF-8 encodings of sequences of code points |
| WifiFrames.RequestRoundTrip | src/wifi.rs:47-67 | every request is read back from its encoding |
| WifiFrames.RequestBytes | src/wifi.rs:47-67 | the bytes of each request, and its bounds of 2064 and 64 |
| WifiFrames.RequestReadings | src/wifi.rs:47-67 | whatever decodes is within the bounds of its vectors and strings |
| WifiFrames.RequestFits | src/wifi.rs:126-127 | the largest encoded request is 2068 bytes, reached exactly by a full pairing payload, within the reader's limit |
| WifiFrames.RequestsSelfDelimiting | src/wifi.rs:47-67 | concatenated requests can be cut apart in one way only |
| WifiFrames.ResponseRoundTrip | src/wifi.rs:71-85 | every response is read back from its encoding |
| WifiFrames.ResponseBytes | src/wifi.rs:31-85 | the bytes of each response and of each error, and its bound |
| WifiFrames.ResponseReadings | src/wifi.rs:71-85 | whatever decodes is within its bounds |
| WifiFrames.ResponseFits | src/wifi.rs:126-127 | the largest encoded response is 2067 bytes |
| WifiWire.ReadFrame | src/wifi.rs:915-936 | reads one frame: end of stream, bad length, undecodable payload or value, and the input left |
| WifiWire.WriteFrame | src/wifi.rs:938-958 | appends length and payload, or the part the stream takes before it fails; refuses what does not fit 16 bits without writing; a failed write or flush is an error |
| WifiWire.NextFrameIff | src/wifi.rs:915-936 | a frame is read exactly when the stream starts with a framed payload of admissible length that decodes |
| WifiWire.FramedIs | src/wifi.rs:943-947 | a frame is its length in two bytes, high byte first, and its payload |
| WifiWire.EndsEarlyIff | src/wifi.rs:919-934 | the end of the stream is reported exactly when it stops within the length or within a frame of admissible length |
| WifiWire.BadLengthIff | src/wifi.rs:925-928 | the length is refused exactly when it is zero or more than 2072, and only the length is consumed |
| WifiWire.UndecodableIff | src/wifi.rs:930-935 | a frame is reported as undecodable exactly when it is one, and is consumed |
| WifiWire.RequestsAreCodec | src/wifi.rs:915-958 | requests meet what frames ask of a codec |
| WifiWire.ResponsesAreCodec | src/wifi.rs:915-958 | responses do |
| WifiWire.WireRoundTrip | src/wifi.rs:915-958 | any sequence of frames written is read back in order, every byte consumed, whatever follows |
| WifiWire.ReadAllIs | src/wifi.rs:915-936 | any stream is read as far as it consists of frames that decode, and stops with the error its rest gives |
| WifiWire.WifiErrorsAre | src/wifi.rs:960-967 | how each of the device's four errors is reported |
| WifiWire.CutStream | src/wifi.rs:915-936 | however the stream is cut off, exactly the complete frames are read and then the end is reported |
| WifiSenders.WifiConnection.SendMessage | src/wifi.rs:849-873 | busy, refused, failed or sent: a refusal leaves no trace; otherwise the counter advances and the stream gets the framed request, or the part it takes, as the model's steps seal and write, abandon or tear |
| WifiSenders.StepKeeps | src/wifi.rs:862-872 | frames sealed and frames written have counters of their own below the next one, after every step of every sender |
| WifiSenders.StepShows | src/wifi.rs:862-872 | which frames each step adds to and takes from those held, and what it puts on the wire |
| WifiSenders.DeviceOpens | src/wifi.rs:862-872 | in every interleaving, exactly what the other end opens: the longest prefix of complete frames in sealing order, and then what it reads after a torn frame only if that is all of them |
| WifiSenders.AllOpenIff | src/wifi.rs:864-872 | the complete frames are all opened, and nothing else, if and only if no write overtakes an earlier seal, the next counter not being misread after a torn frame |
| WifiSenders.OvertakingRun | src/wifi.rs:864-872 | two senders, both frames written, none opened |
| WifiSenders.FailureLoses | src/wifi.rs:864-872 | a send cancelled between the locks and a write that fails use up the counter |
| WifiSenders.LostCounterEndsDelivery | src/wifi.rs:864-872 | after that, torn frames included, nothing from the lost counter on is opened, whatever the senders do, as long as that counter is not misread |
| WifiSenders.AcceptedExactlyWhenItFits | src/wifi.rs:849-873 | the 2048-byte test refuses exactly the messages whose sealed form would not fit the payload vector; the others meet no later limit |
| WifiSession.DecryptBufferSuffices | src/wifi.rs:884-907 | whatever opens from a decoded response fits the 2048-byte buffer |
| WifiSenders.SentMessagesArrive | src/wifi.rs:849-873 | messages sealed and written one at a time are all opened, in order, and nothing else is on the wire |
| WifiSession.ReadTask | src/wifi.rs:884-913 | reading one frame at a time gives the run that reading the whole stream first would give |
| WifiSession.MessageIff | src/wifi.rs:890-912 | exactly which frames carry a message, and with which error each other frame ends the reading |
| WifiSession.RunEnds | src/wifi.rs:884-913 | every frame before the last one looked at carries the message delivered for it; the task closes at a message nobody receives, and fails at a frame that carries none or at the end |
| WifiSession.GenuineIff | src/wifi.rs:890-902 | without forgery a frame opens under no counter or is one the device sealed, and nothing more is assumed |
| WifiSession.OnlySealedIsDelivered | src/wifi.rs:884-913 | on every stream without forgery the messages delivered are those the device sealed, from the counter on: none invented, repeated, left out or moved |
| WifiSession.SentByDeviceIsDelivered | src/wifi.rs:884-913 | everything a device sends is delivered in order, and reading continues with what follows |
| Versions.NewerIsNumeric | src/message.rs:84-90 | the derived ordering is that of one number per version, so total |
| Versions.DecimalIs | src/message.rs:103-107 | the decimal digits of a number |
| Versions.ParseUnsignedIff | src/message.rs:112-128 | exactly the numerals of n (plus sign and leading zeros allowed) within the bound are read as n |
| Versions.SplitIsJoin | src/message.rs:113-131 | splitting at dots loses nothing and leaves no dot |
| Versions.ParseIff | src/message.rs:109-138 | exactly the texts of three numerals between two dots parse, each component in its range |
| Versions.ParseRefusals | src/message.rs:112-131 | which of the six errors is given: the parts between dots are judged from the left |
| Versions.RoundTrip | src/message.rs:103-138 | parsing the printed form gives the version back |
| Versions.PrintIsInjective | src/message.rs:103-107 | different versions print differently |
| Firmware.OfferedIsSortedPermutation | src/update.rs:506-512 | the rows are a permutation of the parseable entries, newest first, equal versions in manifest order |
| Firmware.RowPosition | src/update.rs:506-512 | row p shows the entry with exactly p entries ahead of it in the manifest |
| Firmware.AheadIs | src/update.rs:506-512 | ahead are the newer entries, and of equal versions those named earlier |
| Firmware.SelectIff | src/update.rs:498-581 | entry i is chosen if and only if it is parseable and the number typed is one more than the entries ahead of it |
| Firmware.SelectRefusals | src/update.rs:502-578 | each of the four refusals, exactly when it is given; the default works whenever anything is offered |
| Firmware.RowCount | src/update.rs:507-512 | there are as many rows as parseable entries |
| Firmware.TypedIff | src/update.rs:559-570 | a blank line is 1, and otherwise exactly the numerals of k within the machine word are k |
| Firmware.TypedLine | src/update.rs:554-570 | a numeral typed is that number, with any white space around it and the line's end; an empty line is 1 |
| Firmware.TrimIs | src/update.rs:559 | trimming takes white space off both ends and nothing else |
| Firmware.SpaceIff | src/update.rs:559 | the 25 characters of white space |
| Firmware.UpdateIsTheDefault | src/update.rs:346-352 | an update is announced exactly when the default selection exists and is newer than the current version |
| Firmware.RecommendedIff | src/update.rs:520-529 | exactly the entries no parseable entry is newer than are marked as recommended |
| Firmware.SelectFirmwareVersion | src/update.rs:498-581 | the prompt shows those rows, each with its entry's text and whether it is the newest and the current version, and resolves the line typed |
| Spectral.SpectralData | src/emitter.rs:92-136 | the loops ask for the ranges in order and end in one of four ways, each with its exact cause |
| Spectral.PushAll | src/emitter.rs:127-131 | pushes until the buffer of 401 is full |
| Spectral.RangesTile | src/emitter.rs:112-133 | ranges are non-empty, at most 32 wide, all but the last exactly 32, contiguous, and cover the count |
| Spectral.FaithfulOutcome | src/emitter.rs:92-136 | from a faithful device the samples in order if there are at most 401, otherwise `InsufficientData`, and no overflow |
| Spectral.EndsOneWay | src/emitter.rs:92-136 | the device's answers determine outcome and number of requests |
| Spectral.StoppedBecause | src/emitter.rs:100-131 | why a download was stopped: by the answer to the count, or by the answer to the last range asked for |
| Spectral.SucceedsIff | src/emitter.rs:112-135 | exactly when a download succeeds, for any device |
| Spectral.OverflowIff | src/emitter.rs:112-113 | exactly which devices drive the offset out of 32 bits |
| Spectral.EmptyBatchesOverflow | src/emitter.rs:112-113 | one such device |

## Left out

Assumed of the surroundings:

- Dispatch: command identifiers are fresh, the device answers only commands it has received, and the terminal
  predicate is a pure function. Time is a deadline that may fire at any moment while a call waits.
- Dispatch: a call's deadline is looked at only while it waits for events, as in the source; a send that hangs
  is not bounded.
- Dispatch: aborting the dispatcher loses the message in hand, which the model records as a fate of its own;
  two dispatchers overlapping during a restart are not modelled.
- The resource comparison of host, source and emitter calls is that of `DispatchTheorems.TransitionReachedIff`.
- WiFi session: the channel is ideal (`WifiChannel.IsChannel`, which `WifiChannel.ChannelsExist` shows can be met);
  sending stops before the 64-bit counter runs out; the handshake, pairing and token files are not part of this
  model. Encoding an SDK message is a function supplied by the caller.
- WiFi senders: how the device reads is assumed, because its program is not part of the repository: like the
  library's own reader it opens frames under consecutive counters and stops at the first that does not open. A
  device that skipped a frame without advancing its counter would open the first frame of
  `WifiSenders.OvertakingRun`.
- Serial queue: `SerialQueues.TrySendAll` and `SerialQueues.WrongKeysOfQueue` have the queue to themselves; with
  other backends' events in it, `SerialQueues.WrongKeysExactly` holds for whatever is dropped.
- WiFi, USB and serial sightings carry the outcome of connecting to them; mDNS packets, sockets, USB transfers,
  serial port settings and kernel drivers are not part of this model.

Not modelled:

- Disconnecting a runtime that leaves is not shown to succeed: the source ignores the error too.
- Dispatch: the transition system has no step for a closed unmatched queue: both ends of it belong to one object,
  and nothing closes it while the dispatcher holds that object.
- SerialPolling.CollectUnmatched: stands for the two walks of the poll, which differ only in the event they build.
- UsbDiscovery.RunKeepsUnique: two environments sharing hardware are not related to each other.
- WifiExclusions.ExcludedHostFades: counts rounds that copy the exclusion set after the exclusion; how long a
  round takes is not modelled.
- WifiSenders.DeviceOpens: which frames a device reads from the misaligned bytes after a torn frame's beginning is
  given by the frame reader, not in closed form.
- WifiFrames.RequestReadings: says nothing on which of several non-canonical encodings a sender may use.
- Firmware.SelectFirmwareVersion: reading the line and printing the rows are left out; the library's stable sort
  is an insertion sort on values.
- Firmware downloads, checksums, flashing, and the command-line program.
- Encoding of the whole message tree, and the arithmetic of fluxes and spectra.
- The getters of hosts, fixtures, sources and emitters: each is one command with one match, covered by
  `DispatchTheorems.PlainCommandReturnsFirstArrival`.
