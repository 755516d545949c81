# Proofs about the IoT agent

A model, in Dafny, of the parts of the IoT agent whose behaviour is hardest to see by reading: a Modbus RTU
master, the filter chain in front of its REST handlers, the life of a command from its creation to its last
status, the federation of agents under a manager, and some text and counting algorithms. `dafny verify
dfyconfig.toml` checks everything.

Code that changes objects in place is modelled as classes and loops proved against specification functions,
and what the program is for is then proved about those functions, over all inputs and all runs.

- **Modbus** (`Crc16`, `ErrorDetection`, `CrcPeriod`, `BitErrors`, `RtuMaster`, `RtuRuns`). The two-table CRC is
  the bit-by-bit CRC-16 of MODBUS over Serial Line V1.02, section 6.2.2, all 512 entries included. The check
  detects every burst of at most sixteen bits and every odd number of flipped bits in frames of any length, two
  flipped bits unless they are a multiple of 32767 positions apart, and so up to three in frames of at most 32767
  bits. Over every way of cutting a stream into chunks, reads and writes (MODBUS Application Protocol V1.1b3,
  sections 6.3, 6.6 and 6.12) finish exactly when they should.
- **Filter chain** (`Counting`, `FilterChain`, `FilterRuns`, `RestHandles`). Any number of requests in progress, with filters
  that may report twice or unasked: each request is always in exactly one place, and gets at most one answer,
  one that the statuses its filters reported account for.
- **Commands** (`CommandStore`, `CommandRuns`, `CommandCauses`, `CommandHandles`, `CommandText`). Several agents with caches and
  timers of their own on one collection, with every operation on it a step of its own; and one agent whose
  operations are whole.
- **Federation** (`DevicePaging`, `ProtocolRegistry`, `ServiceRegistry`). One offset and limit split over agents,
  and registrations reconciled with what is stored.
- **The rest** (`AttributeMapping`, `Statistics`). The recursive mapping of attributes, and the counters of the
  last day.

## What the proofs found

- The `catch` clause of `receive_modbus_frame` is never entered: every index is in range in every reachable state
  (`RtuMaster.Modbus.ReceiveModbusFrame`). It is therefore not modelled.
- A command can get two final statuses, with one agent: its device's answer is looked up, the timer expires the
  command, and the answer is reported too (`CommandStore.TwoFinals`); `CommandRuns.FinalsExact` says exactly when.
- "Expired read" can be reported of a command that was delivered meanwhile, and "delivered" after it
  (`CommandRuns.DeliveredButExpired`); `CommandRuns.StaleExpiry` says exactly when the first happens, and
  `CommandRuns.DeliveredInTime` and `CommandRuns.DeliveredAfterFinalExactly` exactly when the second does.
- The manager spends its limit on devices that the offset skips, so that paging through several agents never
  shows some devices (`DevicePaging.WalkLosesDevices`); `MergedExact` and `WalkComplete` say
  exactly when a page, and a whole walk, is right.
- Two identifiers can come to share one endpoint (`ProtocolRegistry.SharedEndpoint`).
- A service that is no longer posted can stay when names hold a bar (`ServiceRegistry.StaleServiceStays`); no
  posted service is ever found unchanged (`ServiceRegistry.AlwaysChanged`).
- An attribute mapped to its own name keeps `add_attribute` going for ever
  (`AttributeMapping.SelfMappingNeverEnds`).
- A template can be refused though its parameters suffice for its slots, exactly when it has two percent signs or
  more and one of them starts no slot (`CommandText.RefusedNeedlesslyExactly`), as "100% %s" does
  (`CommandText.PercentageRefused`).

## Assumptions

- Command ids are distinct. One `updateContext` reuses one sequence for all its commands
  (`src/rest/command_handle.cc:729-735`), which breaks this.
- The null check at `src/rest/command_handle.cc:160` comes after a use at line 159; the branch it means to take,
  which refuses, is the one modelled.
- A Mongo update, remove or count is one step. A positional update changes the first matching entry, and counts
  as no update when none matches.
- What a filter reports, what a publication returns, the clock, the order of a cursor and random ids are inputs.

## Model

| member | source | states |
|---|---|---|
| Crc16.TablesRight | src/modbus/modbus.cc:28-76 | each of the 512 table entries is the half it should be of eight shifts of its index |
| Crc16.TableStep | src/modbus/modbus.cc:331-336 | one turn of the table loop does to the two halves what one byte does to the reference register |
| Crc16.Crc | src/modbus/modbus.cc:324-339 | for every frame the two-table loop returns the bit-by-bit reflected CRC with its halves swapped |
| Crc16.CheckCrc | src/modbus/modbus.cc:262-272 | true exactly when the last two bytes are the CRC of those before them |
| Crc16.RegisterAppend | src/modbus/modbus.cc:331-336 | the register after two frames in a row is that after the second, started from the first's |
| Crc16.StandardExample | src/modbus/modbus.cc:324-339 | the CRC of 02 07 is 1241 hexadecimal, sent as 41 12, and that of nothing is FFFF |
| ErrorDetection.ValidIffZero | src/modbus/modbus.cc:262-272 | a frame is valid exactly when the CRC run over all of it, CRC bytes included, is 0 |
| ErrorDetection.RegisterLinear | src/modbus/modbus.cc:324-339 | the register is linear: XOR of start values and frames gives XOR of results |
| ErrorDetection.ChangeUndetected | src/modbus/modbus.cc:262-272 | a change of a valid frame goes undetected exactly when the change alone leaves a zero register |
| ErrorDetection.ThreeBytesAmidZeros | src/modbus/modbus.cc:324-339 | three bytes amid zeros leave a zero register exactly when the last two are the halves of the first one shifted |
| ErrorDetection.BurstDetected | src/modbus/modbus.cc:262-272 | changes within sixteen consecutive bits of a valid frame of any length are always detected |
| ErrorDetection.TwoAdjacentBytesDetected | src/modbus/modbus.cc:262-272 | changing any one byte or two adjacent ones, CRC bytes included, is always detected |
| CrcPeriod.PeriodExact | src/modbus/modbus.cc:324-339 | shifting the register's top bit gives it back after exactly the multiples of 32767 shifts |
| BitErrors.FlippedBitsExact | src/modbus/modbus.cc:262-272 | the list of flipped bits holds each position where two frames differ, once, in order |
| BitErrors.ParityOfRegister | src/modbus/modbus.cc:324-339 | the register's parity is that of the number of one bits absorbed |
| BitErrors.OddErrorDetected | src/modbus/modbus.cc:262-272 | an odd number of flipped bits is always detected, in frames of any length |
| BitErrors.TwoBitError | src/modbus/modbus.cc:262-272 | two flipped bits go undetected exactly when a multiple of 32767 positions apart |
| BitErrors.UpToThreeBitsDetected | src/modbus/modbus.cc:262-272 | in frames of at most 32767 bits one, two or three flipped bits are always detected |
| RtuMaster.Modbus.Short | src/modbus/modbus.cc:78-102 | a fresh state that awaits no echo, and the request: slave, 0x03, 0x06 or 0x10, address and field with the high byte first, and CRC |
| RtuMaster.Modbus.Long | src/modbus/modbus.cc:104-134 | a fresh state that awaits the echo asked for, and the request: slave, 0x03, 0x06 or 0x10, address, number of registers modulo 65536, twice that number modulo 256, each register with the high byte first, and CRC |
| RtuMaster.ShortBytes | src/modbus/modbus.cc:92-101 | the short frame, byte by byte |
| RtuMaster.LongBytes | src/modbus/modbus.cc:119-133 | the long frame, byte by byte, for any number of registers |
| RtuMaster.Modbus.CheckCompleted | src/modbus/modbus.cc:274-322 | the new response, confirmation and completion, for each function code |
| RtuMaster.Modbus.Validate | src/modbus/modbus.cc:166-232 | what makes a completed response acceptable: slave, function, CRC and, for writes, address and value |
| RtuMaster.Modbus.DecodeRegisters | src/modbus/modbus.cc:175-202 | registers go to the addresses after the one asked for, modulo 65536, and those there stay |
| RtuMaster.Modbus.ReceiveModbusFrame | src/modbus/modbus.cc:148-252 | result and whole new state of a call in every state, with every index in range |
| RtuMaster.WithCrcIsValid | src/modbus/modbus.cc:94-101 | what the constructors send passes the receiver's check |
| RtuMaster.ValidIsWithCrc | src/modbus/modbus.cc:262-272 | a frame is valid exactly when it is its body with the CRC appended: nothing else passes for that body |
| RtuRuns.ReceiveKeeps | src/modbus/modbus.cc:148-252 | a call keeps what is recorded and never takes "finished" back, and a failed call completes the request |
| RtuRuns.RunKeeps | src/modbus/modbus.cc:148-252 | so does every run of calls |
| RtuRuns.ReadRun | src/modbus/modbus.cc:278-286 | a read is complete exactly when the bytes so far are the byte count plus five, and a chunk that overshoots never completes it |
| RtuRuns.ReadResponseIs | src/modbus/modbus.cc:169-202 | slave, function, byte count, registers and CRC make a response to a read |
| RtuRuns.ReadResponseBytes | src/modbus/modbus.cc:169-202 | that is, and nothing else is: length, slave, 0x03, byte count, each register with the high byte first, and CRC |
| RtuRuns.ReadVerdict | src/modbus/modbus.cc:166-244 | a complete response, however cut, is accepted exactly when its slave is the one asked, its function 0x03, and the CRC register started at 0xFFFF ends at 0 |
| RtuRuns.AcceptedReadRecorded | src/modbus/modbus.cc:175-202 | what an accepted response records: the words the byte count announces, the last borrowing a CRC byte when the count is odd |
| RtuRuns.ReadRoundTrip | src/modbus/modbus.cc:148-206 | a response in any chunks: every call true, complete exactly at its end, and the registers recorded then and only then |
| RtuRuns.BadCrcRejected | src/modbus/modbus.cc:166-244 | a complete response with a wrong CRC fails in the completing call and records nothing, however it is cut |
| RtuRuns.DamagedReadRejected | src/modbus/modbus.cc:166-244 | so does a response damaged by a burst, an odd number or up to three flipped bits that spare its byte count |
| RtuRuns.SingleWriteAnswer | src/modbus/modbus.cc:207-215 | the only eight bytes that answer a single write are those of the request |
| RtuRuns.SingleWriteRun | src/modbus/modbus.cc:287-292 | it finishes with true exactly when a chunk boundary falls at the end of a byte-for-byte echo, with false exactly when at the end of eight other bytes |
| RtuRuns.WriteResponseUnique | src/modbus/modbus.cc:216-231 | there is one answer to a multiple write |
| RtuRuns.WriteResponseIs | src/modbus/modbus.cc:216-231 | it is the short frame with the number of registers |
| RtuRuns.AnswerRun | src/modbus/modbus.cc:293-300 | without an echo it finishes with true exactly when a boundary falls at the end of the answer, and the eighth byte finishes it |
| RtuRuns.EchoRun | src/modbus/modbus.cc:293-318 | with an echo it finishes with true exactly for the request followed by the answer, with chunk boundaries at the end of both; it waits exactly while bytes are missing from the echo or, after it, from the answer; and finishes with false exactly when enough came without the boundary or the answer |
| RtuRuns.StraddleRejected | src/modbus/modbus.cc:301-317 | a chunk across the end of the echo is always rejected |
| RestHandles.HttpFilter.SetAsyncFilter | src/rest/http_filter.h:67-71 | a callback already registered for a request stays |
| RestHandles.HttpFilter.TakeCallback | src/rest/http_filter.h:72-81 | a callback is given out once |
| RestHandles.RestHandle.Call | src/rest/rest_handle.cc:400-434 | a request starts at filter 0, or goes to its handler when there is none |
| RestHandles.RestHandle.RunFilters | src/rest/rest_handle.cc:436-468 | registering a callback and posting the filter, done in place, are the step of FilterChain |
| RestHandles.RestHandle.HandleEndFilters | src/rest/rest_handle.cc:470-509 | handler run or error, with internal codes sent as 400 |
| RestHandles.RestHandle.CallBack | src/rest/http_filter.h:72-83 | a report consumes its callback and makes what it is bound to due |
| FilterChain.RunSafe | src/rest/rest_handle.cc:436-509 | in every interleaving each arrived request is in exactly one of task, callback, report and answer, and no filter number is out of range |
| FilterChain.AnswerJustified | src/rest/rest_handle.cc:436-509 | a handler runs only after filters 0 to n-1 each reported 200 for the request, in order; an error only after the first that did not |
| FilterRuns.AcceptedReported | src/rest/http_filter.h:53-83 | every status that a filter is taken to have reported was reported with that status in an earlier step, by the task of that filter for that request or unasked |
| FilterRuns.HandledMeansPassed | src/rest/rest_handle.cc:436-509 | a handler runs only if each filter reported 200 for the request in some step |
| FilterRuns.RefusedMeansFailed | src/rest/rest_handle.cc:470-509 | an error is sent only if some filter reported another status, sent as it is or as 400 for 1000 to 1002, and the filters before it 200 |
| FilterRuns.ReportsAreTheFilters | src/rest/media_filter.cc:116-124 | when nothing reports unasked, each of these reports is by the filter's own task |
| FilterRuns.HandledUnlessFailed | src/rest/rest_handle.cc:436-509 | then an answered request goes to its handler exactly when no filter reported another status than 200 about it |
| FilterChain.OneAnswer | src/rest/http_filter.h:67-83 | at most one answer per request, even if filters report twice or unasked |
| FilterChain.CallbacksAreWaiting | src/rest/rest_handle.cc:443-468 | when filters report once, filter k's callbacks are exactly the requests that wait on it, each with one task and no answer |
| FilterChain.StepDescends | src/rest/media_filter.cc:116-124 | then every step brings the remaining work down |
| FilterChain.NotStuck | src/rest/rest_handle.cc:436-509 | while a task is left, some step is enabled |
| FilterChain.QuietMeansAnswered | src/rest/rest_handle.cc:436-509 | when none is left, every request was answered exactly once |
| FilterChain.RunStops | src/rest/rest_handle.cc:436-509 | without arrivals every run stops within its measure |
| CommandStore.RunSafe | src/rest/command_handle.cc:129-187 | a saved command is in the store, or exactly one handler took it out, whose final status is due or sent |
| CommandStore.OneExpiry | src/rest/command_handle.cc:138-179 | over all interleavings of all agents, at most one expiry is sent about a command |
| CommandStore.TwoFinals | src/mqtt/MqttService.cc:239-276 | a run of one agent that sends two final statuses |
| CommandStore.StatusRange | src/rest/command_handle.cc:1709-1741 | a stored status is READY_FOR_READ or DELIVERED |
| CommandRuns.StaleExpiry | src/rest/command_handle.cc:138-179 | over all interleavings, every "expired read" sent was let through by a check and removed the command later, and the status it removed was delivered exactly when a delivery marked the command between the two |
| CommandRuns.CheckToRemove | src/rest/command_handle.cc:146-170 | whatever runs between a passing check and a remove that finds the command, the expiry then due carries delivered exactly when a delivery marked it in between |
| CommandRuns.DeliveredButExpired | src/rest/command_handle.cc:138-179 | a run of one agent that sends "expired read" of a command stored as delivered, and "delivered" after it |
| CommandRuns.OneStepExpiry | src/rest/command_handle.cc:146-179 | over runs in which each passing check is followed at once by its remove, every "expired read" sent is of a command stored as READY_FOR_READ |
| CommandRuns.FinalsExact | src/mqtt/MqttService.cc:239-276 | the number of final statuses of a run about a command: one once it left the store, and one for each remove of an answer that found it gone; so at most one exactly when no step is such a remove |
| CommandRuns.DeliveredTooLate | src/rest/command_handle.cc:1709-1741 | a step sends "delivered" of a command that is gone exactly when the command left between the step that made it due and the sending, or a poll went on that found it gone; whichever step before is taken as the one that made it due |
| CommandRuns.DeliveredInTime | src/rest/command_handle.cc:1504-1530 | over whole runs, no "delivered" is sent of a command that is gone exactly when no command leaves between a step that makes one due and a sending, and no poll of a gone command goes on to one |
| CommandRuns.FinalMeansGone | src/rest/command_handle.cc:138-179 | a final status, expiry or answer, is only ever sent of a command that was saved and has left the store |
| CommandRuns.DeliveredAfterFinalExactly | src/rest/command_handle.cc:1709-1741 | "delivered" comes after a final status about a command exactly when a step that sends it comes after one that sends a final status, and then the command left between the step that made it due and the sending, or was gone before |
| CommandCauses.EveryMessageCaused | src/rest/command_handle.cc:138-179 | over all interleavings each message was caused: a pending by a save; a "delivered" by a publication accepted that found the command stored, or a poll; an expiry by a timer whose check found it stored with no later a status and whose remove took it away with the status stated; a reply by an answer to a command the agent knew |
| CommandCauses.SaveWhole | src/rest/command_handle.cc:845-928 | stored and cached as READY_FOR_READ, and announced |
| CommandCauses.TimerWhole | src/rest/command_handle.cc:129-187 | a timer with nothing in between: removed and its expiry sent exactly when stored with no later a status than the timer's; dropped from the agent's cache in any case; nothing else changes |
| CommandCauses.AnswerWhole | src/mqtt/MqttService.cc:239-276 | an answer with nothing in between: a command cached or stored is removed from both and the reply sent, another changes nothing |
| CommandCauses.AcceptStored | src/rest/command_handle.cc:1709-1741 | a publication accepted for a stored command: DELIVERED in store and cache, and sent |
| CommandCauses.AcceptGone | src/rest/command_handle.cc:1709-1741 | for one no longer stored: nothing sent, and only a status already cached is marked |
| CommandCauses.PollWhole | src/rest/command_handle.cc:1504-1530 | a poll that finds the command ready, in cache or store: DELIVERED, and sent even if no longer stored |
| CommandCauses.PollOther | src/rest/command_handle.cc:1504-1530 | a poll takes no other command |
| CommandHandles.CommandHandle.CacheInsert | src/util/command_cache.cc:53-71 | the cache takes a new command only while it has room, and keeps the one it has |
| CommandHandles.CommandHandle.SaveCommand | src/rest/command_handle.cc:1423-1464 | refused without an id or when already stored, cached in any case but the first |
| CommandHandles.CommandHandle.GetCommand | src/rest/command_handle.cc:1534-1562 | the cached status, or else the stored one, which is then cached, or none |
| CommandHandles.CommandHandle.RemoveCommand | src/rest/command_handle.cc:1566-1586 | out of both, with the number taken out of the store |
| CommandHandles.CommandHandle.UpdateCommand | src/rest/command_handle.cc:845-928 | announced as pending, then saved |
| CommandHandles.CommandHandle.ProcessCommandResponse | src/rest/command_handle.cc:1687-1752 | 202 marks it delivered and says so only if still stored; 200 removes it and says it was executed, any other code removes it and says it failed, stored or not |
| CommandHandles.CommandHandle.RespondMqttCommand | src/mqtt/MqttService.cc:239-276 | an answer counts only while the command is known, and removes it |
| CommandHandles.CommandHandle.ItemTimeout | src/util/command_cache.h:249-264 | a timer expires a command only while it is stored with no later a status, and drops it from the cache in any case |
| CommandHandles.FinalStatusIsLast | src/rest/command_handle.cc:1687-1752 | over every run, the first final status of each command is the last thing sent about it exactly when no result of a publication other than 202 arrives for a command that is no longer stored |
| CommandHandles.EveryCommandEnds | src/rest/command_handle.cc:129-187 | every command that left the store has had a final status |
| CommandHandles.EventSends | src/rest/command_handle.cc:1687-1752 | an event sends at most one message, and that one exactly when it is its cause: "executed" by 200 or an answer to a known command, "failed" by a code other than 200 and 202, "delivered" by 202 for a stored command, each expiry by a timer that finds the command stored with no later a status |
| CommandHandles.EveryMessageCaused | src/rest/command_handle.cc:129-187 | over every run, each message sent has its cause in an event and the state before it |
| CommandText.ExtractCommandId | src/mqtt/IotaMqttServiceImpl.cc:62-105 | finding, cutting and erasing give what scanning for the first tag gives, or the missing-id error |
| CommandText.ExtractInserted | src/mqtt/IotaMqttServiceImpl.cc:64-67 | an id without '#' behind any text without a tag is cut out exactly, with '#' and more text behind it or at the end |
| CommandText.PublishedComesBack | src/mqtt/MqttService.cc:210-213 | id and command come back from the published payload exactly when the id has no '#' |
| CommandText.ExtractedWasThere | src/mqtt/IotaMqttServiceImpl.cc:68-101 | missing exactly when there is no tag; what is extracted, put back, makes the payload |
| CommandText.TransformCommand | src/rest/command_handle.cc:946-981 | raw and empty templates pass the value; refused exactly when '%' signs outnumber parameters; else literals and leading parameters in turn |
| CommandText.Fill | src/rest/command_handle.cc:967-979 | the loop ends, every parameter index is in range, and inserted text is not scanned again |
| CommandText.SlotsCounted | src/rest/command_handle.cc:953-958 | a template has at least as many '%' signs as slots |
| CommandText.CountExact | src/rest/command_handle.cc:953-958 | it has as many exactly when every '%' starts a slot |
| CommandText.RefusedNeedlesslyExactly | src/rest/command_handle.cc:951-966 | some value has enough parameters for a template's slots and is refused exactly when the template has two '%' signs or more and one starts no slot |
| CommandText.PercentageRefused | src/rest/command_handle.cc:951-966 | "100% %s" is refused with one parameter |
| CommandText.LiteralsRejoin | src/rest/command_handle.cc:967-979 | the literals, with "%s" put between them, are the template |
| CommandText.LiteralsHaveNoSlot | src/rest/command_handle.cc:967-979 | no literal holds a slot |
| CommandText.InTurn | src/rest/command_handle.cc:967-979 | each parameter stands behind the literal with its number |
| CommandText.TwoSlots | src/rest/command_handle.cc:967-979 | a template with two slots, and what two parameters make of it, written out |
| CommandText.LeadingOnly | src/rest/command_handle.cc:967-979 | parameters beyond the slots have no effect |
| CommandText.SplitJoin | src/rest/command_handle.cc:951-952 | parameters without a bar, joined by bars, are split into themselves |
| DevicePaging.ClampLimit | src/services/admin_service.cc:591-606 | below -1 the default, above 1000 the maximum, else as asked |
| DevicePaging.AgentDevices | src/services/admin_service.cc:588-638 | for every limit and offset asked for, the count of all the agent's devices and the slice for the limit put in range and the offset, none when negative |
| DevicePaging.SliceIs | src/services/admin_service.cc:588-638 | the slice, device by device, for a limit that is none, all or a number |
| DevicePaging.Spend | src/services/admin_mgmt_service.cc:305-326 | the manager's remaining limit and offset; a positive limit never becomes 0, which would mean all |
| DevicePaging.GetAllDevices | src/services/admin_mgmt_service.cc:257-349 | the loop over agents returns the closed form: the offset into all devices, the limit less what was skipped whole |
| DevicePaging.AllAndFailed | src/services/admin_mgmt_service.cc:257-349 | devices are those of the agents that answer, in order, and each other agent is a failure |
| DevicePaging.MergedIsPrefix | src/services/admin_mgmt_service.cc:257-349 | always a prefix of the slice asked for, never over the limit, and exact without a limit |
| DevicePaging.MergedExact | src/services/admin_mgmt_service.cc:307-326 | equal to the slice asked for exactly when nothing was skipped whole, or the slice is empty, or what is left fits |
| DevicePaging.FirstAgentServes | src/services/admin_mgmt_service.cc:305-326 | an offset within the first answering agent is served exactly |
| DevicePaging.Cursor | src/services/admin_service.cc:1786-1794 | the loop over the cursor collects the slice |
| DevicePaging.WalkComplete | src/services/admin_mgmt_service.cc:257-349 | a walk through enough pages shows every device in order exactly when each page is all of the slice asked for, and otherwise shows fewer |
| DevicePaging.WalkLosesDevices | src/services/admin_mgmt_service.cc:307-326 | six devices of two agents walked two at a time: the last two never appear |
| ProtocolRegistry.ProtocolTable.UpdateById | src/services/admin_mgmt_service.cc:1004-1024 | the first entry with the identifier gets endpoint and resource, and nothing else changes |
| ProtocolRegistry.ProtocolTable.UpdateByEndpoint | src/services/admin_mgmt_service.cc:1026-1048 | the first entry with the endpoint gets identifier and resource, and nothing else changes |
| ProtocolRegistry.ProtocolTable.Register | src/services/admin_mgmt_service.cc:983-1066 | the three updates in their order, with the endpoint as identifier when there is none |
| ProtocolRegistry.RegisteredExactly | src/services/admin_mgmt_service.cc:983-1066 | entry by entry, for a known identifier, a known endpoint only, and neither; the description changes in the last case alone |
| ProtocolRegistry.RegisteredOnce | src/services/admin_mgmt_service.cc:1000-1066 | exactly one entry has the identifier, with endpoint and resource; identifiers stay distinct; unrelated entries stay |
| ProtocolRegistry.IdsStayDistinct | src/services/admin_mgmt_service.cc:1000-1066 | over every sequence of registrations identifiers within a protocol are distinct |
| ProtocolRegistry.EndpointsStayDistinct | src/services/admin_mgmt_service.cc:1000-1066 | endpoints stay distinct exactly when no known identifier is given another identifier's endpoint |
| ProtocolRegistry.EndpointsDistinctAllAlong | src/services/admin_mgmt_service.cc:1000-1066 | over every sequence of registrations, endpoints within a protocol are distinct all along exactly when no registration gives a known identifier another identifier's endpoint |
| ProtocolRegistry.SharedEndpoint | src/services/admin_mgmt_service.cc:1000-1066 | three registrations that leave two identifiers with one endpoint |
| ServiceRegistry.ServiceTable.FillServices | src/util/service_mgmt_collection.cc:214-231 | the stored services of agent and protocol by string, one for each |
| ServiceRegistry.ServiceTable.UpdatePosted | src/services/admin_mgmt_service.cc:1068-1115 | every posted service is written, and what is left are the found ones whose string was not posted |
| ServiceRegistry.ServiceTable.RemoveRemaining | src/services/admin_mgmt_service.cc:1117-1124 | exactly those left are removed |
| ServiceRegistry.ServiceTable.PostServices | src/services/admin_mgmt_service.cc:1068-1124 | posted services written, and of those stored whose string was not posted one for each string removed |
| ServiceRegistry.AlwaysChanged | src/services/admin_mgmt_service.cc:1083-1084 | a posted object never equals a stored one, so that the "not changed" branch is never taken |
| ServiceRegistry.Posted | src/services/admin_mgmt_service.cc:1086-1105 | writing adds the posted keys and leaves other documents as they are |
| ServiceRegistry.LastPostingWins | src/services/admin_mgmt_service.cc:1086-1105 | the last posting of a service decides its fields: each it has but "resource" gets its value, "description" the one given; a field that no posting of the service sets keeps its value |
| ServiceRegistry.FieldExactly | src/services/admin_mgmt_service.cc:1086-1105 | for every service and field: there afterwards exactly when it was there or is set, with the value of the last posting that sets it, or else the old one |
| ServiceRegistry.ExactUnlessClash | src/services/admin_mgmt_service.cc:1068-1124 | stored and posted keys agree exactly when no service not posted shared its string; other pairs are untouched in any case |
| ServiceRegistry.JoinedInjective | src/services/admin_mgmt_service.cc:1082 | service and path can be told from their string when no service name has a bar |
| ServiceRegistry.StoreFollowsRegistrations | src/services/admin_mgmt_service.cc:1068-1124 | over every run of registrations without bars, the stored services of each pair are those posted last |
| ServiceRegistry.StaleServiceStays | src/services/admin_mgmt_service.cc:1082 | with bars, a service not posted outlives the posting of another with its string |
| AttributeMapping.ContextElement.FindMapping | src/ngsi/ContextElement.cc:209-232 | the device's mapping, or else the first of the service |
| AttributeMapping.MappingIsFirst | src/ngsi/ContextElement.cc:209-232 | the device's mapping if it has one for the name; otherwise that of the service's first entry with the name, none when there is no such entry |
| AttributeMapping.DeviceDecides | src/ngsi/ContextElement.cc:209-232 | when the device maps a name, the service's entries for it make no difference to what add_attribute does |
| AttributeMapping.ContextElement.AddAttribute | src/ngsi/ContextElement.cc:186-287 | when the recursion ends, what it ends with: one attribute appended, nothing, or an exception |
| AttributeMapping.TerminatesUnlessRepeats | src/ngsi/ContextElement.cc:186-287 | it ends exactly when no two names it maps are the same, and then within as many calls as there are mapped names |
| AttributeMapping.TerminatesUnlessRound | src/ngsi/ContextElement.cc:186-287 | seen from the mappings held: it ends unless the attribute is not empty and the mappings from its name go on, without losing it, for one more than there are mapped names |
| AttributeMapping.SelfMappingNeverEnds | src/ngsi/ContextElement.cc:233-280 | a name mapped to itself, with a type that is not compound, never ends |
| AttributeMapping.FollowsMappings | src/ngsi/ContextElement.cc:233-280 | the outcome of a finite chain of mappings, error and loss cases included |
| AttributeMapping.AppendsExactly | src/ngsi/ContextElement.cc:186-287 | appended exactly when not empty and led, without being lost, to a name with no mapping; then: that name, the last type given, the value kept ('/' to ',' with coordinates), one location per coordinates hop, own metadata, each mapping's |
| AttributeMapping.MappedOnce | src/ngsi/ContextElement.cc:233-280 | one mapping written out: name, type with its two defaults, '/' to ',' and the location for coordinates, metadata in order |
| AttributeMapping.CompoundMappedOnce | src/ngsi/ContextElement.cc:233-280 | a compound keeps its type and members; one held as an object, or an attribute mapped to a compound, is lost |
| AttributeMapping.Unmapped | src/ngsi/ContextElement.cc:186-208 | without a mapping: appended as it is, "string" without a type, unless it has no value or no members |
| AttributeMapping.BadMapping | src/ngsi/ContextElement.cc:233-280 | a mapping that is not JSON drops the attribute, JSON that is no attribute throws |
| Statistics.Accumulator.Sample | src/rest/iot_statistic.cc:113 | a counter keeps the count, sum, least and greatest of its samples |
| Statistics.SumIs | src/rest/iot_statistic.cc:113 | the sum is that of its parts, from 0 |
| Statistics.Extremes | src/rest/iot_statistic.cc:113 | least and greatest are samples, and no sample is outside them |
| Statistics.IoTStatistic.Reset | src/rest/iot_statistic.cc:145-150 | the first bucket goes when there are 24 |
| Statistics.IoTStatistic.Lookup | src/rest/iot_statistic.cc:54-96 | the counter of name and hour, made if need be, in place; none when disabled |
| Statistics.IoTStatistic.Add | src/rest/iot_statistic.cc:98-137 | a sample goes to the counter of its name and hour and to no other; nothing happens when disabled |
| Statistics.OthersKept | src/rest/iot_statistic.cc:98-137 | the sample is behind those of its own counter, and every other counter that is left is as it was |
| Statistics.NeverMoreThanADay | src/rest/iot_statistic.cc:145-150 | whatever the clock does, at most 24 buckets, at multiples of 3600, each for an hour of use, the latest use's included |
| Statistics.WindowIsLatest | src/rest/iot_statistic.cc:98-150 | when the clock does not go back, the buckets are the latest hours of use, up to 24 |
| Statistics.CountersAreExact | src/rest/iot_statistic.cc:98-137 | and each counter has exactly the samples given for it in its hour, in order |

## Left out

- HTTP, TCP, MQTT and Mongo client calls, OAuth exchanges and plugin loading: what they return is an input.
- JSON and property-tree parsing, and the data classes built on it: mappings and documents are values already parsed, with names and types already cleaned.
- get_mapped_values: scaling and printing of floating-point values.
- Routing of URLs by regular expression, configuration, registration threads, logs, alarms, status tables and message texts.
- UltraLight and ThinkingThings: tokenizers and response building.
- Storage other than Mongo: commands then live in the cache alone.
- RtuMaster.Modbus.ReceiveModbusFrame: time stamps and log text are not modelled.
- RestHandles.RestHandle.CallBack: calling the empty function, when a report has no callback, is recorded as a fault and does not end the program.
- FilterChain.StepDescends: only for runs in which each filter reports once; a filter that never reports, or reports again, has no such promise.
- CommandRuns.FinalsExact: caches are not bounded there, and a publication other than one accepted is not a step; both are in CommandHandles.
- CommandStore.OneExpiry: a cache is one object per command and agent, so that a timer's own copy can be older than the cached one; its status is therefore an input.
- CommandHandles.FinalStatusIsLast: for one agent and each operation whole; CommandRuns says what interleaving does.
- CommandText.TransformCommand: the command id, a random one when there is no sequence, is not modelled.
- ServiceRegistry.ServiceTable.PostServices: field values are strings, and fields are what the schema admits.
- Statistics.IoTStatistic.Lookup: samples given later through the pointer it returns are not part of the runs; copies of a statistic, which share their counters, are not modelled.
- Statistics.Accumulator.Sample: samples are real numbers, not floating-point ones.
