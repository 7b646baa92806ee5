# A verified model of the MCE

The repository is an LTE MBMS coordination entity (MCE). It talks M2AP to base stations
(eNBs), keeps the MBMS services it coordinates, hands MBSFN scheduling information out to
the eNBs, and codes a few 3GPP information elements. This project models its hardest parts
in Dafny 4.11 and proves what they keep, over every input, every run and every reachable
state. `dafny verify dfyconfig.toml` checks all of it.

## Parts

| files | part of the MCE |
|---|---|
| `M2apState`, `M2apMessages` | the M2AP association protocol as a state machine: tables, counters, one step per event, and the messages each step sends |
| `M2apRuns`, `M2apReset`, `M2apCounters`, `M2apSessions`, `M2apAdmission`, `M2apLimits`, `M2apArrays` | what every step and every run of it keeps |
| `M2apSessionEffects`, `M2apEnbEffects` | what each event does to every service and every eNB, and what every eNB is sent, said without the state machine's own functions |
| `M2apTask` | the handlers themselves: a class with mutable tables, and methods with the loops of the source, each proved to make exactly one step of the state machine and to send exactly its messages, each once |
| `EnbSearch` | the search that collects all matches of a hash table in an array |
| `ServiceArea` | the check of announced MBMS service areas and the recorder of the accepted one |
| `Scheduling` | compaction of MBSFN area configurations and their selection per eNB |
| `ServicePool`, `ServicePoolTable` | the pool of MBMS service contexts with its two indexes, as a state machine and as a class |
| `Mcch` | MCCH modification periods of a session |
| `McchSubframes` | the MCCH subframes MBSFN areas are given when they are created |
| `CommonCsa` | the subframes MBSFN areas are given in the common subframe allocation pattern |
| `Preemption` | pre-emption of services by priority |
| `Apn`, `Pco`, `EpsQos`, `BitString` | the looping codecs and the rate arithmetic |
| `Common`, `Tlv`, `Arithmetic` | shared definitions |

Searches through a hash table return the first match in hash order. Events carry the
element found, and the methods return it as a ghost value, so every order is covered.
Assertions of the source appear as `Enabled` or as `requires`. A `uint8_t` list length that
wraps at 256 is modelled as such (`Common.AppendU8`), and so are the 32-bit counters.

`M2apState.Step` is what a handler does if everything it collects fits its arrays
(`ArraysHold`). The methods of `Task` report that with `ok`: they make the step if and only
if it holds, and otherwise have changed nothing when they write past an array's end. The
results about runs are about sequences of steps; `RunArraysIff` says in which of them every
handler makes its step.

## Readings of the source

Followed as written, with the exact consequences proved:

- Inserting an association that is already there with the same value reports success
  (src/utils/hashtable/hashtable_uint64.c:647-697), so a repeated session start response
  raises `nb_mbms_associated` once more. The counter therefore can exceed the number of
  associations; `RunCountersIff` says exactly in which runs it does not.
- The decrement at src/m2ap/m2ap_mce_procedures.c:238 has no test for zero, unlike the
  one at line 548. `Config.guarded` selects either reading; all results cover both.
- No code assigns the SHUTDOWN state. The branch for it is modelled, and proved to be
  unreachable.
- A change of area does not refresh the TEID table, a removal with an invalid index still
  lowers the service count, and an update onto a taken or invalid area corrupts the pool
  (src/mce_app/mce_app_mbms_service_context.c:277-324 and 449-494).
- The MCCH arithmetic clamps with `min(., 1)` where its comments describe a ceiling. The
  main law holds for any monotone clamp. With the minimum as written no session that is
  still to start is ever accepted (`AtMostOneRejectsTheFuture`).
- The PCO encoder writes the configuration protocol into bits 1 to 3 and the decoder reads
  bits 2 to 4; the decoder also ignores the element's length once it has checked it. Options
  come back if and only if the protocol is 0 and at most two octets follow (`RoundTripIff`).
- The id generator is a 32-bit counter (src/m2ap/m2ap_mce.c:73 and 749-754). It refuses
  0xFFFFFF when it comes to it and goes on to ids of more than 24 bits, which messages from
  eNBs cannot name; such services never get an association (`RunConsistent`).
- New associations are never refused (src/m2ap/m2ap_mce_handlers.c:1099-1152), and the
  arrays eNBs are collected in have `max_m2_enbs` entries. A session update collects the
  eNBs outside the new area (src/m2ap/m2ap_mce_procedures.c:210-230), and the scheduling
  handler those of an MBMS area (lines 463-467); both include eNBs that have only connected,
  and can be too many (`UpdateOverruns`). `StepArraysIff` and `RunArraysIff` say exactly when
  a handler writes past an array, `RunTableIff` when the table itself stays within the bound.
- The search for an MCCH subframe counts a free one again and again instead of moving on
  (src/mce_app/mce_app_mbsfn_context.c:807-820), so every MBMS area is given the same
  subframes in the same order; with areas per local group it returns what is left of the
  pattern it was shifting (line 771). `ClusterDisjointIff` and `ClusterWithinIff` say exactly
  when the results meet what the scheduler needs.
- The first local service area is counted as 2 instead of 0
  (src/m2ap/m2ap_mce_mbms_sa.c:65, src/m2ap/m2ap_mce.c:825), so the last two configured ones
  are refused (`ValidIff`).
- The access point name decoder does not check its first label against the element. A longer
  one makes the `uint8_t` of what is left wrap, and 256 octets more are read as labels
  (`NameReadIff`).
- The quality of service decoder takes the element's length to count the identifier too
  (src/mce_app/EpsQualityOfService.c:75 and 88); `DecodeIs` says what it makes of any length.
- A shift in the bit string conversions is on an `int`; where it overflows the conversion is
  undefined, and `ToUint` says for which inputs it is not.
- A bit rate between 576 and 8640 is coded with an offset of 128 instead of 576, and
  the code is cut to 8 bits.

Taken as evidently meant, because the literal line cannot be what its callers need:

- `m2ap_new_mbms` enters the service into the service table, not the eNB table
  (src/m2ap/m2ap_mce.c:797); the search by TMGI compares TMGI and area
  (src/m2ap/m2ap_mce.c:289-300, promised at src/m2ap/m2ap_mce.h:192-198); session start
  uses the id of the service it created (src/m2ap/m2ap_mce_procedures.c:89, 167).
- The start request keeps its encoded message until it is sent to every eNB, instead of
  freeing it in the sending loop (src/m2ap/m2ap_mce_procedures.c:741-742), and the session
  stop handler is passed the area and the flag of the message, not their addresses
  (src/m2ap/m2ap_mce.c:356-358).
- The searches that collect eNBs pass their array on to the callback. The literal search hands
  it a null result (src/utils/hashtable/hashtable.c:607-608), which the callbacks write
  through (src/m2ap/m2ap_mce.c:242-245, 262-267 and 278-285).
- `CommonCsa` and its result that a global and a local area of a cluster can be given the same
  subframe, because the two groups have a union of allocated subframes each
  (src/mce_app/mce_app_mbsfn_scheduling.c:217-250). In src/mce_app/mce_app_mbsfn_scheduling.c:
  the totals of an area are kept in its channels, where lines 745 and 764 change copies, so
  that no area ever needs data; the result is filled in, where lines 225 and 244 pass the
  address of its pointer; an area is looked up among the areas, where line 1013 looks among
  the services; the union is updated pattern by pattern, as its comments say, where the inner
  loop at line 371 counts the wrong variable. The subframes MBSFN may use are those the MCE is
  configured for, where lines 492, 519 and 1140 read a field of the area that is never set.
  MCCH subframes do not overlap, as lines 497 and 525 assert; those given out as written
  overlap in every cluster of global and local areas (`ClusterDisjointIff`).
- MBSFN areas are created with the lock held; the literal test is for a lock that could not be
  taken (src/mce_app/mce_app_mbsfn_context.c:834).
- `&tmgi` stands for `tmgi`, the insert at line 155 goes to the table the lookups use, and
  line 304 reads the TEID before the slot is cleared
  (src/mce_app/mce_app_mbms_service_context.c:155, 295, 304, 464, 474).
- The service index is built in 40 bits. What the literal 32-bit shift at
  src/mce_app/mce_app_mbms_service_context.c:119 would do is `NarrowIndexCollidesIff`.

## Model

| member | source | states |
|---|---|---|
| `M2apCounters.StepCountersIff` | src/m2ap/m2ap_mce.c:118-232 | for every event in every consistent state: exact counters stay exact, and counters that do not exceed the associations still do not, if and only if the event meets a condition on the state before it |
| `M2apCounters.RunCountersIff` | src/m2ap/m2ap_mce_handlers.c:604-615 | over whole runs: the counters equal (never exceed) the number of services holding the eNB in every state if and only if each event meets its condition where it happens |
| `M2apCounters.GuardedNeverExceeds` | src/m2ap/m2ap_mce_procedures.c:548-549 | so with the guarded decrement and no repeated start response no counter ever exceeds its associations |
| `M2apCounters.StartResponseIff` | src/m2ap/m2ap_mce_handlers.c:570-619 | a start response keeps the counters exact if and only if it does not repeat an association |
| `M2apCounters.DropIff` | src/m2ap/m2ap_mce_handlers.c:777-787 | dropping an association keeps them exact if and only if it was there or the counter is zero; it never makes one exceed |
| `M2apCounters.ResetIff` | src/m2ap/m2ap_mce_handlers.c:903-926 | a partial reset keeps them exact if and only if no item hits an association that is not there, or the eNB loses all it has |
| `M2apCounters.SessionUpdateIff` | src/m2ap/m2ap_mce_procedures.c:224-241 | an area change keeps them exact if and only if every eNB left out is associated (or, guarded, at zero), and bounded if and only if guarded or none of those is at zero |
| `M2apCounters.RepeatedStartResponseOvercounts` | src/m2ap/m2ap_mce_handlers.c:604-615 | a run after which one association is counted twice |
| `M2apCounters.UpdateWrapsIdleCounter` | src/m2ap/m2ap_mce_procedures.c:235-240 | a run in which an update sends an idle eNB's counter from 0 to 2^32 - 1 |
| `M2apRuns.StepConsistent` | src/m2ap/m2ap_mce.c:172-232 | every event keeps the consistency below |
| `M2apRuns.RunConsistent` | src/m2ap/m2ap_mce_handlers.c:374-419 | in every reachable state the eNB count is the table's size, every association names an eNB in the table, no non-zero eNB id occurs twice, service ids fit 32 bits and those over 24 bits are unassociated, and no eNB is shutting down |
| `M2apRuns.TeardownIsExact` | src/m2ap/m2ap_mce_handlers.c:1070-1095 | disconnection and full reset take away exactly that eNB's associations and leave every other eNB's description, counter and associations alone |
| `M2apAdmission.StepAdmissionIff` | src/m2ap/m2ap_mce_handlers.c:262-274 | after every event eNBs with an area were accepted and accepted eNBs are fewer than the maximum; ready eNBs stay accepted if and only if the event is not a setup response for an eNB that was not accepted |
| `M2apAdmission.RunAdmissionIff` | src/m2ap/m2ap_mce_handlers.c:523-562 | the same over whole runs: areas always, ready eNBs if and only if every setup response that makes an eNB ready answers an accepted one |
| `M2apAdmission.RunAdmission` | src/m2ap/m2ap_mce_handlers.c:374-424 | that is so in every run that does not reuse an association id while a response is in flight |
| `M2apAdmission.MatchedEnbsFit` | src/m2ap/m2ap_mce.c:638-654 | in every run the eNBs matched by a service area fit the array of `max_m2_enbs` entries with one to spare, and under the condition above so do they together with the ready ones and those of local MBMS areas |
| `M2apArrays.StepArraysIff` | src/m2ap/m2ap_mce_procedures.c:206-230 | in every reachable state a handler stays within its arrays if and only if it is not an update of a session to a served area while the eNBs outside that area are more than `max_m2_enbs`, told by the eNB count |
| `M2apArrays.RunArraysIff` | src/m2ap/m2ap_mce_procedures.c:206-230 | the same over whole runs |
| `M2apArrays.AreaFitsIff` | src/m2ap/m2ap_mce_procedures.c:461-467 | the eNBs of an MBMS area fit if and only if the table has at most `max_m2_enbs` besides those of other areas |
| `M2apArrays.StepTableIff` | src/m2ap/m2ap_mce_handlers.c:1099-1152 | a table of at most `max_m2_enbs` eNBs stays so if and only if no new association comes to a full one |
| `M2apArrays.RunTableIff` | src/m2ap/m2ap_mce_handlers.c:1099-1152 | the same over whole runs |
| `M2apArrays.TableHoldsAll` | src/m2ap/m2ap_mce.c:620-674 | in such runs every list of eNBs fits, by service area, outside it and by MBMS area, whatever event comes next; with a maximum below 256 so do the `uint8_t` counts |
| `M2apArrays.UpdateOverruns` | src/m2ap/m2ap_mce_procedures.c:224-230 | a run after which a session update collects three eNBs in an array of two |
| `M2apLimits.ReuseBreaksAdmission` | src/m2ap/m2ap_mce_handlers.c:523-562 | a run that reuses an id while the answer for its predecessor is owed, and admits two eNBs where one is allowed |
| `M2apLimits.RunListsFit` | src/m2ap/m2ap_mce_handlers.c:523-562 | in every reachable state the area and MBSFN id lists have fewer than 256 entries |
| `M2apLimits.RunIdsDistinctIff` | src/m2ap/m2ap_mce_handlers.c:548-555 | over whole runs every eNB's MBSFN ids are distinct if and only if each setup response brings ids that are new, counting in the wrap of the list's length |
| `M2apLimits.RepeatedResponseDoublesIds` | src/m2ap/m2ap_mce_handlers.c:548-555 | a run after which an eNB has the same MBSFN id twice |
| `M2apSessions.StepUniqueIff` | src/m2ap/m2ap_mce_procedures.c:173-271 | a step leaves no two services with the same TMGI and area if and only if it is not an update that moves one onto another |
| `M2apSessions.RunUniqueIff` | src/m2ap/m2ap_mce_procedures.c:76-169 | the same over whole runs |
| `M2apSessions.SearchDetermined` | src/m2ap/m2ap_mce.c:717-729 | while sessions are unique, the hash search has one possible outcome |
| `M2apSessions.MovedRun` | src/m2ap/m2ap_mce_procedures.c:173-271 | a run after which two sessions are alike |
| `M2apSessions.TimerEndsItsOwnIff` | src/m2ap/m2ap_mce_procedures.c:409-447 | whatever the hash order, a timer ends its own session exactly when its area is deserted, and no other, if and only if the session has no associations, its area is served, or no other session is like it |
| `M2apSessions.TimerEndsAnotherInARun` | src/m2ap/m2ap_mce_procedures.c:497-528 | a run in which a timer ends another session and keeps its own |
| `M2apMessages.SessionUpdateExact` | src/m2ap/m2ap_mce_procedures.c:173-271 | after the step of an immediate update the service keeps exactly the associations of eNBs supporting the new area; each eNB is sent exactly the stop, update, start or nothing that it should be; nobody else is sent anything |
| `M2apMessages.DeferredUpdateIsImmediate` | src/m2ap/m2ap_mce_procedures.c:409-447 | a timed update followed by its timer ends in the same state and sends the same messages in total as the immediate update |
| `M2apMessages.NoAssociationsToUpdate` | src/m2ap/m2ap_mce_procedures.c:409-447 | the timer's branch for a service without associations sends what its other branch would, and changes nothing |
| `M2apSessionEffects.SessionStopExact` | src/m2ap/m2ap_mce_procedures.c:275-326 | a stopped session is gone, each of its eNBs counts one less (and leaves the reset state with its last), nothing else changes; each eNB is told to stop if and only if eNBs are to be informed, it announced the area and its id is known |
| `M2apSessionEffects.SessionStartExact` | src/m2ap/m2ap_mce_procedures.c:76-169 | an equal session ends first; a served area gains exactly the new service, without associations, under the next id unless that is the invalid one; each eNB is sent exactly the stop for the old one and, without a timer, the start of the new one |
| `M2apSessionEffects.StopUndoesStart` | src/m2ap/m2ap_mce_procedures.c:275-326 | stopping a session just started leaves everything but the id generator as it was, and tells nobody |
| `M2apSessionEffects.DesertedUpdateEnds` | src/m2ap/m2ap_mce_procedures.c:206-219 | an update to an area nobody serves ends the session and sends exactly its stops; one of an unknown session does nothing |
| `M2apSessionEffects.SessionUpdateEnbs` | src/m2ap/m2ap_mce_procedures.c:224-269 | what an update to a served area does to each eNB's counter, and that nothing else about eNBs changes |
| `M2apSessionEffects.TimedUpdateExact` | src/m2ap/m2ap_mce_procedures.c:224-266 | with a timer the service moves at once, keeps the associations of the eNBs supporting the area, and only the stops to the others are sent |
| `M2apSessionEffects.TimerExact` | src/m2ap/m2ap_mce_procedures.c:409-447 | in a served area a timer updates each associated eNB of it, starts the others, drops associations whose id is unknown, and does nothing else |
| `M2apSessionEffects.DesertedTimerEnds` | src/m2ap/m2ap_mce_procedures.c:409-447 | in a deserted one it ends the session it finds and tells nobody; a timer without a session does nothing |
| `M2apEnbEffects.SetupAnswered` | src/m2ap/m2ap_mce_handlers.c:248-425 | a setup request goes on if and only if the association is known, the eNB's id is new or its own, the stream is 0, there is room, PLMN, cell and synchronisation area are right and some announced area is configured; and exactly when each failure, with its cause and wait, is sent |
| `M2apEnbEffects.RefusedSetupChangesNothing` | src/m2ap/m2ap_mce_handlers.c:248-371 | a refused request leaves the state as it was |
| `M2apEnbEffects.ForwardedSetupExact` | src/m2ap/m2ap_mce_handlers.c:374-424 | a forwarded one puts the eNB into the reset state, records a new id with the first configured area announced, and changes nothing else |
| `M2apEnbEffects.MovedSetupDropsOther` | src/m2ap/m2ap_mce_handlers.c:393-419 | one for an eNB known on another association drops that one from the table and all services, and nothing else |
| `M2apEnbEffects.SetupResponseExact` | src/m2ap/m2ap_mce_handlers.c:523-562 | a response with ids sets the MBMS area, makes the eNB ready and puts the ids behind those it has; the eNB is sent the ids, or a failure if there are none |
| `M2apEnbEffects.NewAssociationExact` | src/m2ap/m2ap_mce_handlers.c:1099-1152 | a fresh entry, or the initial state for one not being reset |
| `M2apEnbEffects.StartResponseExact` | src/m2ap/m2ap_mce_handlers.c:570-619 | the id is recorded in 16 bits for the service id in 24, the eNB counts one more unless it had another id there, nothing else changes |
| `M2apEnbEffects.UpdateFailureExact` | src/m2ap/m2ap_mce_handlers.c:743-789 | the association is gone and counted down, the eNB told to stop if its id was known, nothing else changes |
| `M2apEnbEffects.ErrorIndicationExact` | src/m2ap/m2ap_mce_handlers.c:980-1035 | the same for the service named, nothing for none |
| `M2apEnbEffects.DisconnectionExact` | src/m2ap/m2ap_mce_handlers.c:1070-1095 | the eNB leaves the table and every service, nothing else changes |
| `M2apEnbEffects.FullResetExact` | src/m2ap/m2ap_mce.c:700-713 | a ready eNB loses all associations and is acknowledged; another's reset is ignored |
| `M2apEnbEffects.PartialResetExact` | src/m2ap/m2ap_mce_handlers.c:862-930 | in terms of the ids received: a ready eNB loses a service if and only if some item carries its id with the eNB's id there, or that is unknown |
| `M2apEnbEffects.PartialResetFrame` | src/m2ap/m2ap_mce_handlers.c:818-938 | one acknowledgement, and nothing but the eNB's counter and associations changes; not ready, nothing at all |
| `M2apEnbEffects.AcksExact` | src/m2ap/m2ap_mce_handlers.c:1177-1211 | the acknowledgement repeats every item's ids as received, cut to their widths, invalid ones left out |
| `M2apReset.ResetItemsExact` | src/m2ap/m2ap_mce_handlers.c:862-930 | for any item list the eNB loses exactly the services for which some item carries the service's id with the eNB's current id there; other services, eNBs and areas are untouched |
| `M2apReset.ResetHolding` | src/m2ap/m2ap_mce_handlers.c:862-930 | the same as the set of services still held, by this eNB and by every other |
| `M2apReset.ResetCounter` | src/m2ap/m2ap_mce_handlers.c:903-926 | the counter goes down once per lost service and once per hit on a dead association, and not below zero |
| `M2apReset.NoDeadHits` | src/m2ap/m2ap_mce_handlers.c:903-926 | the number of dead hits is zero if and only if no item hits a dead association |
| `EnbSearch.CollectAll` | src/utils/hashtable/hashtable.c:582-621 | every match once, or the write past the end if and only if there are more than entries |
| `M2apTask.Task.CollectBySai` | src/m2ap/m2ap_mce.c:236-286 | the eNBs that announced an area (or those that did not), each once, or the write past the end if and only if they are more than `max_m2_enbs` |
| `M2apTask.Task.FindByEnbId` | src/m2ap/m2ap_mce.c:596-618 | an eNB with that id, or none if there is none |
| `M2apTask.Task.FindByTmgi` | src/m2ap/m2ap_mce.c:717-729 | a service with that TMGI and area, or none if there is none |
| `M2apTask.Task.ForgetAssociation` | src/m2ap/m2ap_mce.c:118-129 | every service loses the eNB's association, nothing else changes |
| `M2apTask.Task.FreeEnb` | src/m2ap/m2ap_mce.c:172-194 | the eNB leaves the table and all services, the count goes down |
| `M2apTask.Task.FreeService` | src/m2ap/m2ap_mce.c:196-232 | the service is gone and the callback was applied to each of its eNBs |
| `M2apTask.Task.GenerateStart` | src/m2ap/m2ap_mce_procedures.c:625-750 | one start request to each listed eNB |
| `M2apTask.Task.HandleSessionStop` | src/m2ap/m2ap_mce_procedures.c:275-326 | makes the step and sends its messages if and only if its arrays hold; else nothing has changed |
| `M2apTask.Task.HandleSessionStart` | src/m2ap/m2ap_mce_procedures.c:76-169 | makes the step if and only if its arrays hold: an equal session is stopped first, then the new one is created and started |
| `M2apTask.Task.UpdateEach` | src/m2ap/m2ap_mce_procedures.c:535-566 | the loop over the area's eNBs |
| `M2apTask.Task.UpdateServiceContext` | src/m2ap/m2ap_mce_procedures.c:497-568 | the whole context update, if and only if the area's eNBs fit their array |
| `M2apTask.Task.LeaveOutEach` | src/m2ap/m2ap_mce_procedures.c:233-241 | every eNB outside the new area is stopped, counted down and forgotten |
| `M2apTask.Task.HandleSessionUpdate` | src/m2ap/m2ap_mce_procedures.c:173-271 | makes the step and sends its messages if and only if its arrays hold; else nothing has changed |
| `M2apTask.Task.HandleTimerExpiry` | src/m2ap/m2ap_mce_procedures.c:409-447 | makes the step and sends its messages if and only if its arrays hold; else nothing has changed |
| `M2apTask.Task.HandleNewAssociation` | src/m2ap/m2ap_mce_handlers.c:1099-1152 | makes the step |
| `M2apTask.Task.HandleDisconnection` | src/m2ap/m2ap_mce_handlers.c:1070-1095 | makes the step |
| `M2apTask.Task.CheckSetup` | src/m2ap/m2ap_mce_handlers.c:248-371 | the checks before a setup is accepted, in order, with their causes |
| `M2apTask.Task.AcceptSetup` | src/m2ap/m2ap_mce_handlers.c:373-425 | a new eNB is recorded, a known one set up again, one on another association rejected and its old entry dropped |
| `M2apTask.Task.HandleSetupRequest` | src/m2ap/m2ap_mce_handlers.c:227-426 | makes the step, sends its messages |
| `M2apTask.Task.HandleSetupResponse` | src/m2ap/m2ap_mce_handlers.c:523-562 | makes the step, sends its messages |
| `M2apTask.Task.HandleStartResponse` | src/m2ap/m2ap_mce_handlers.c:570-619 | makes the step |
| `M2apTask.Task.HandleUpdateFailure` | src/m2ap/m2ap_mce_handlers.c:743-789 | makes the step, sends its messages |
| `M2apTask.Task.HandleErrorIndication` | src/m2ap/m2ap_mce_handlers.c:980-1035 | makes the step, sends its messages |
| `M2apTask.Task.HandlePartialReset` | src/m2ap/m2ap_mce_handlers.c:818-938 | makes the step and sends one acknowledgement |
| `M2apTask.Task.HandleFullReset` | src/m2ap/m2ap_mce.c:700-713 | makes the step and sends one acknowledgement |
| `M2apTask.AcknowledgeAll` | src/m2ap/m2ap_mce_handlers.c:1177-1211 | one entry per request item, in order, with invalid ids absent |
| `M2apMessages.AcksOf` | src/m2ap/m2ap_mce_handlers.c:1177-1211 | the acknowledgement echoes every item's masked ids, skipped items too |
| `ServiceArea.ValidIff` | src/m2ap/m2ap_mce_mbms_sa.c:59-71 | without the division: the global areas are accepted, and the local ones but the last two |
| `ServiceArea.CompareAreaList` | src/m2ap/m2ap_mce_mbms_sa.c:46-75 | true if and only if some announced area is valid |
| `ServiceArea.RecordArea` | src/m2ap/m2ap_mce.c:803-836 | the recorder's loop against its specification |
| `ServiceArea.CheckAgreesWithRecorder` | src/m2ap/m2ap_mce.c:803-836 | the check reports a match if and only if the recorder appends exactly one area, the first valid one; else nothing is appended |
| `Scheduling.Compact` | src/mce_app/mce_app_itti_messaging.c:272-300 | each cluster is the area's configurations with a valid id, in order; fails if and only if an area beyond the message's four has a valid one |
| `Scheduling.SelectFor` | src/m2ap/m2ap_mce_procedures.c:580-607 | one eNB's list through the nested loops and the `uint8_t` count |
| `Scheduling.ScheduleCluster` | src/m2ap/m2ap_mce_procedures.c:571-621 | each eNB of an MBMS area gets its list in one message, or none |
| `Scheduling.CollectByLocalArea` | src/m2ap/m2ap_mce.c:255-269 | the eNBs of an MBMS area, each once, or the write past the end if and only if they are more than `max_m2_enbs` |
| `Scheduling.HandleSchedulingInfo` | src/m2ap/m2ap_mce_procedures.c:450-488 | each eNB of the areas before the first one whose eNBs do not fit is sent exactly its selection, in at most one message, and nobody else anything; all areas are done if and only if all fit |
| `Scheduling.SelectedExactly` | src/m2ap/m2ap_mce_procedures.c:580-607 | end to end with multiplicities: a configuration reaches an eNB once per pair of its occurrence in the areas that apply and its id's occurrence among the eNB's ids, if the id is valid and the eNB's own cluster is not empty |
| `Scheduling.DistinctIdsNoDuplicates` | src/m2ap/m2ap_mce_procedures.c:580-607 | with distinct ids there are no duplicates, no more entries than ids, and nothing is lost |
| `Scheduling.SentWholeInEveryRun` | src/m2ap/m2ap_mce_procedures.c:571-621 | so in every M2AP run whose setup responses bring new ids an eNB is sent its whole selection |
| `Scheduling.WholeSelectionIff` | src/m2ap/m2ap_mce_procedures.c:578-582 | the count passes a selection on whole if and only if it has fewer than 256 entries |
| `ServicePool.IndexInjective` | src/mce_app/mce_app_mbms_service_context.c:111-120 | within one PLMN the index identifies service and area, is 0 exactly for invalid ones, and fits 40 bits |
| `ServicePool.NarrowIndexCollidesIff` | src/mce_app/mce_app_mbms_service_context.c:119 | in 32 bits two services collide if and only if their ids are equal and their areas agree in the low octet |
| `ServicePool.RefusesIffFull` | src/mce_app/mce_app_mbms_service_context.c:124-139 | looking only at the head refuses a valid registration if and only if no slot is free |
| `ServicePool.StepPoolIff` | src/mce_app/mce_app_mbms_service_context.c:124-163 | a step keeps the pool sound (permutation with free slots first, index table exactly the used slots, count right) if and only if it is not a removal of an invalid service or a move into an invalid or taken area |
| `ServicePool.StepTeidsIff` | src/mce_app/mce_app_mbms_service_context.c:224-324 | a step keeps both tables in agreement if and only if a removal names the service's TEID (or none) and an update keeps the area |
| `ServicePool.RunPoolIff` | src/mce_app/mce_app_mbms_service_context.c:562-600 | the first over whole runs, for any pool size |
| `ServicePool.RunTeidsIff` | src/mce_app/mce_app_mbms_service_context.c:449-494 | the second over whole runs |
| `ServicePool.LookupsAgree` | src/mce_app/mce_app_mbms_service_context.c:167-202 | in such states lookup by TEID equals lookup by index, and both find exactly the used slots |
| `ServicePool.RegisterExact` | src/mce_app/mce_app_mbms_service_context.c:124-163 | a registered service is found by index and by TEID in a slot that was free, as given; an invalid one, or one for a full pool, changes nothing |
| `ServicePool.RemoveExact` | src/mce_app/mce_app_mbms_service_context.c:277-324 | a removed one is not found, its slot clear, every other slot as it was |
| `ServicePool.UpdateExact` | src/mce_app/mce_app_mbms_service_context.c:449-494 | an updated one keeps its slot, with the new area and flow, and is found under the new area only |
| `ServicePool.UpdateOntoTaken` | src/mce_app/mce_app_mbms_service_context.c:459-484 | moved onto a taken area it takes over the index, and the flow is not stored |
| `ServicePool.RemoveUndoesRegister` | src/mce_app/mce_app_mbms_service_context.c:277-324 | removing a service just registered restores slots, list, both tables and the count |
| `ServicePool.InvalidRemovalMiscounts` | src/mce_app/mce_app_mbms_service_context.c:277-324 | a removal after which the count is 2^32 - 1 in an empty pool |
| `ServicePool.MoveIntoInvalidArea` | src/mce_app/mce_app_mbms_service_context.c:459-484 | a run after which a slot is found under the invalid index |
| `ServicePool.MoveOntoTakenArea` | src/mce_app/mce_app_mbms_service_context.c:459-484 | a run after which a used slot cannot be found because another took over its index |
| `ServicePool.AreaChangeLosesTeid` | src/mce_app/mce_app_mbms_service_context.c:459-484 | a run after which the TEID of a live service finds nothing |
| `ServicePoolTable.Table.constructor` | src/mce_app/mce_app_main.c:226-253 | all slots free, in the list in order |
| `ServicePoolTable.Table.Register` | src/mce_app/mce_app_mbms_service_context.c:124-163 | makes the step, and says which slot was taken or that none was |
| `ServicePoolTable.Table.Release` | src/mce_app/mce_app_mbms_service_context.c:584-600 | the slot is cleared and moved from anywhere to the head |
| `ServicePoolTable.Table.Remove` | src/mce_app/mce_app_mbms_service_context.c:277-324 | makes the step |
| `ServicePoolTable.Table.Update` | src/mce_app/mce_app_mbms_service_context.c:449-494 | makes the step |
| `Mcch.FactorIs` | src/mce_app/mce_app_mbms_service_context.c:516 | the factor is how many repetition periods go into a modification period, in radio frames |
| `Mcch.PeriodMeans` | src/mce_app/mce_app_mbms_service_context.c:501-527 | for any time, in radio frames and milliseconds: the period is the one the repetitions up to it, clamped and counted on, fall into when as many make a period as go into it |
| `Mcch.PeriodsOrdered` | src/mce_app/mce_app_mbms_service_context.c:497-551 | for any monotone clamp and any time: rejected, or start < stop, current < stop, start not current, with start and stop the periods of the two times (start moved on by one from the current period) |
| `Mcch.RejectedIff` | src/mce_app/mce_app_mbms_service_context.c:534-549 | rejected if and only if the stop period is not after the current one or not after the start |
| `Mcch.AtLeastOneStartsLater` | src/mce_app/mce_app_mbms_service_context.c:505-533 | with the clamp the comments describe, an accepted session starts after the current period, as early as its start time allows |
| `Mcch.AtMostOneAcceptsIff` | src/mce_app/mce_app_mbms_service_context.c:505-513 | with the minimum as written, the exact condition for acceptance in start time, duration, clock and radio frames: the session must have started a whole modification period or more ago |
| `Mcch.AtMostOneRejectsTheFuture` | src/mce_app/mce_app_mbms_service_context.c:505-513 | which no session still to start meets |
| `McchSubframes.SearchShifted` | src/mce_app/mce_app_mbsfn_context.c:760-771 | the search with areas per local group returns the free subframes, shifted by the first |
| `McchSubframes.SearchCounted` | src/mce_app/mce_app_mbsfn_context.c:799-824 | the search without finds the first free subframe whatever is sought, and does not end if a global service area over 255 is |
| `McchSubframes.NextSubframes` | src/mce_app/mce_app_mbsfn_context.c:714-825 | the whole function, refusals included |
| `McchSubframes.GrantedInOrder` | src/mce_app/mce_app_mbsfn_context.c:784-824 | without areas per local group the areas of an MBMS area are given single subframes, the first not given before, as many as there are; none if all are reserved |
| `McchSubframes.GrantedShifted` | src/mce_app/mce_app_mbsfn_context.c:740-772 | with them the first area is given all of them, shifted; a second one is created if and only if subframe 0 may not be used and two may |
| `McchSubframes.ClusterDisjointIff` | src/mce_app/mce_app_mbsfn_scheduling.c:495-529 | over every run of creations the scheduler's assertion holds for a cluster if and only if it is not one of global and local areas (without areas per local group), or has one area or a second one is refused (with them) |
| `McchSubframes.ClusterWithinIff` | src/mce_app/mce_app_mbsfn_scheduling.c:1168 | and the subframes are among those MBSFN may use, as the exclusive or needs, if and only if nothing was shifted |
| `McchSubframes.ClusterSaneIff` | src/mce_app/mce_app_mbsfn_scheduling.c:495-529 | so both hold, and `CommonCsa` applies, if and only if a condition on the requests and the configuration does |
| `McchSubframes.GlobalAndLocalOverlap` | src/mce_app/mce_app_mbsfn_context.c:799-824 | a global and a local area that are given the same subframe |
| `McchSubframes.ShiftedAreasOverlap` | src/mce_app/mce_app_mbsfn_context.c:740-772 | two areas of one local group that overlap |
| `CommonCsa.Reuse` | src/mce_app/mce_app_mbsfn_scheduling.c:1103-1122 | the loop takes free subframes in order until the need is met |
| `CommonCsa.TakenServes` | src/mce_app/mce_app_mbsfn_scheduling.c:1103-1122 | the need that remains is what those subframes do not serve, and no fewer would have served it |
| `CommonCsa.TakenIsFree` | src/mce_app/mce_app_mbsfn_scheduling.c:1103-1122 | only free subframes are taken, the first one always, and all of them if need remains |
| `CommonCsa.ScheduleArea` | src/mce_app/mce_app_mbsfn_scheduling.c:1149-1181 | one area's pattern and remaining need, which is only left over when nothing is free |
| `CommonCsa.NeedIsMet` | src/mce_app/mce_app_mbsfn_scheduling.c:1149-1181 | fifteen repetitions of the MCCH subframe, sixteen of each data subframe and what is left for other patterns make up the need, and no data subframe could be spared |
| `CommonCsa.ScheduleGroup` | src/mce_app/mce_app_mbsfn_scheduling.c:1007-1049 | the loop over a group of areas with its union, or the error if and only if some area's remaining need does not fit elsewhere |
| `CommonCsa.GroupDisjoint` | src/mce_app/mce_app_mbsfn_scheduling.c:1007-1049 | within one group no subframe of the common pattern is given to two areas |
| `CommonCsa.GroupsCollideIff` | src/mce_app/mce_app_mbsfn_scheduling.c:217-250 | in the patterns of two groups a global and a local area are given the same subframe if and only if both groups have an area that needs data and some subframe is nobody's MCCH subframe |
| `CommonCsa.ScheduleCluster` | src/mce_app/mce_app_mbsfn_scheduling.c:199-251 | both groups are scheduled, or neither; a cluster that is scheduled gives a subframe to two areas if and only if the above holds |
| `CommonCsa.TwoAreasOneSubframe` | src/mce_app/mce_app_mbsfn_scheduling.c:217-250 | two areas that are scheduled and for which that happens |
| `Preemption.Preempt` | src/mce_app/mce_app_mbsfn_scheduling.c:254-313 | picks the first vulnerable service of the greatest level and invalidates its entry only, or nothing if and only if there is none of level 1 or more |
| `Preemption.PickIs` | src/mce_app/mce_app_mbsfn_scheduling.c:254-313 | what is picked is valid, of the area, vulnerable and of level 1 or more, none such has a greater level, and none before it the same |
| `Preemption.NothingIff` | src/mce_app/mce_app_mbsfn_scheduling.c:254-313 | nothing is picked if and only if there is none such |
| `Preemption.PicksOrdered` | src/mce_app/mce_app_mbms_service.c:971-994 | called again and again it goes through them by level, the list's order deciding between equals, none twice |
| `Preemption.LeftOverComesAfter` | src/mce_app/mce_app_mbms_service.c:971-994 | whatever is left over comes after everything taken |
| `Apn.EncodeLabels` | src/common/3gpp_24.008_sm_ies.c:120-138 | the loop over the fixed array writes the label encoding of the name up to its first NUL, and is past the end of the array if and only if that has more than 101 characters |
| `Apn.EncodeElement` | src/common/3gpp_24.008_sm_ies.c:100-154 | the whole element in the buffer, the rest of it untouched, or the error for each way it does not fit |
| `Apn.DecodeElement` | src/common/3gpp_24.008_sm_ies.c:52-97 | the decoder's loop against its specification, malformed input included |
| `Apn.LabelsLayout` | src/common/3gpp_24.008_sm_ies.c:120-138 | position by position: in front, and in the place of every dot, the length of the label that follows, everything else as in the name |
| `Apn.ElementOnTheWire` | src/common/3gpp_24.008_sm_ies.c:100-154 | identifier, length and labels by position |
| `Apn.EncodeResultIs` | src/common/3gpp_24.008_sm_ies.c:100-154 | exactly when the encoder succeeds, and which way it fails |
| `Apn.NameReadIff` | src/common/3gpp_24.008_sm_ies.c:76-95 | a name is decoded if and only if labels make up the element, or 256 octets more where the first is too long for it |
| `Apn.LabelsAreRead` | src/common/3gpp_24.008_sm_ies.c:76-95 | and is those labels with dots between |
| `Apn.DecodesIff` | src/common/3gpp_24.008_sm_ies.c:52-97 | the same for the whole element |
| `Apn.DecodeFails` | src/common/3gpp_24.008_sm_ies.c:63-75 | exactly when it is refused before its labels, why, and when it has no name |
| `Apn.AssertionFailsIff` | src/common/3gpp_24.008_sm_ies.c:82-94 | the decoder's assertion fails if and only if, behind labels, one comes that is longer than what is left |
| `Apn.DottedSplit` | src/common/3gpp_24.008_sm_ies.c:124-136 | the labels with their dots put back are the name |
| `Apn.RoundTrip` | src/common/3gpp_24.008_sm_ies.c:52-154 | decoding an encoded name gives it back and takes exactly the element's octets, whatever follows; an empty name is lost |
| `Apn.RoundTripIff` | src/common/3gpp_24.008_sm_ies.c:52-154 | a name comes back if and only if it is non-empty and NUL-free |
| `Pco.FitIff` | src/common/3gpp_24.008_sm_ies.c:291-305 | a list is encoded if and only if it fits |
| `Pco.FitFailsIff` | src/common/3gpp_24.008_sm_ies.c:291-305 | it is written past the buffer if and only if that ends within a container's header, and refused if and only if within contents |
| `Pco.ContainerOnTheWire` | src/common/3gpp_24.008_sm_ies.c:291-305 | every container at its offset: id with the greater octet first, length, contents |
| `Pco.ElementOnTheWire` | src/common/3gpp_24.008_sm_ies.c:310-334 | identifier, length, first octet and containers by position |
| `Pco.DecodedIsEncoded` | src/common/3gpp_24.008_sm_ies.c:228-246 | whatever the decoder accepts is the encoding of what it returns, with fewer than three octets over |
| `Pco.ListFailsIff` | src/common/3gpp_24.008_sm_ies.c:228-246 | exactly when it writes past its places, and when it refuses |
| `Pco.DecodesIff` | src/common/3gpp_24.008_sm_ies.c:204-277 | exactly which buffers are accepted |
| `Pco.DecodeFails` | src/common/3gpp_24.008_sm_ies.c:204-277 | and why the others are not |
| `Pco.EncodeList` | src/common/3gpp_24.008_sm_ies.c:291-305 | the encoder's loop: contents in the buffer, or the error it ends with |
| `Pco.EncodeElement` | src/common/3gpp_24.008_sm_ies.c:310-334 | identifier, length octet modulo 256 and options in the buffer, and the value returned in every case |
| `Pco.EncodeResultIff` | src/common/3gpp_24.008_sm_ies.c:330-332 | that value is a count, and the right one, if and only if the element fits; else an error code may have been added to it |
| `Pco.DecodeContainers` | src/common/3gpp_24.008_sm_ies.c:228-246 | the decoder's loop against its specification |
| `Pco.DecodeElement` | src/common/3gpp_24.008_sm_ies.c:252-277 | the decoder against its specification, error cases included |
| `Pco.ContainersRoundTrip` | src/common/3gpp_24.008_sm_ies.c:204-334 | at most eight containers come back in order, with or without identifier, taking exactly the element's octets; the protocol comes back halved |
| `Pco.RoundTripIff` | src/common/3gpp_24.008_sm_ies.c:204-334 | for any octets behind the element: the options come back, with exactly its octets taken, if and only if the configuration protocol is 0 and at most two octets follow |
| `Pco.BareRoundTripIff` | src/common/3gpp_24.008_sm_ies.c:204-306 | the same for the form without identifier and length |
| `Pco.TrailingOctetsAreRead` | src/common/3gpp_24.008_sm_ies.c:252-277 | any octets behind the element are decoded with it: their containers are added, their failure is its failure |
| `EpsQos.MapQos` | src/mce_app/EpsQualityOfService.c:192-278 | the mapper makes the structure of which `MappedFlags` and `MappedReadsBack` say what it means |
| `EpsQos.MappedFlags` | src/mce_app/EpsQualityOfService.c:192-278 | a default bearer has no rates; any other has basic ones, and extended ones if and only if some rate is above 8640 |
| `EpsQos.MappedReadsBack` | src/mce_app/EpsQualityOfService.c:192-278 | each of the eight octets stands for the rate of its direction and kind, over the whole range of rates |
| `EpsQos.CodesReadBack` | src/mce_app/EpsQualityOfService.c:162-218 | what basic and extended octet of a rate read back as, for every rate |
| `EpsQos.ElementOnTheWire` | src/mce_app/EpsQualityOfService.c:86-157 | the octet position of every field |
| `EpsQos.MappedOnTheWire` | src/mce_app/EpsQualityOfService.c:86-278 | the octets of a mapped bearer's element, by position, stand for its rates |
| `EpsQos.DecodedReadsBack` | src/mce_app/EpsQualityOfService.c:37-278 | and so do the fields the decoder finds in it |
| `EpsQos.DecodeFails` | src/mce_app/EpsQualityOfService.c:55-102 | exactly when the decoder refuses an element, with which error, or reads past the buffer |
| `EpsQos.DecodeIs` | src/mce_app/EpsQualityOfService.c:37-102 | by position, what it makes of one it accepts; absent rates keep their value |
| `EpsQos.BasicSteps` | src/mce_app/EpsQualityOfService.c:162-174 | the basic codes step by 1, 8 and 64 from 1 on |
| `EpsQos.ExtSteps` | src/mce_app/EpsQualityOfService.c:177-188 | the extended ones by 100, 1024 and 2048 from 8700 on, with one jump |
| `EpsQos.EncodeElement` | src/mce_app/EpsQualityOfService.c:105-157 | the element in the buffer, or an error |
| `EpsQos.RoundTripIff` | src/mce_app/EpsQualityOfService.c:37-157 | flags and present fields come back if and only if there are no extended rates without basic ones |
| `EpsQos.MappedRoundTrip` | src/mce_app/EpsQualityOfService.c:192-278 | what the mapper builds never has extended rates alone and is always decoded again, with or without identifier |
| `EpsQos.BasicReadBackIff` | src/mce_app/EpsQualityOfService.c:162-189 | the basic code reads back within 8 below the rate if and only if the rate is at most 568, or 8641 to 8647 |
| `EpsQos.BasicReadsTooHigh` | src/mce_app/EpsQualityOfService.c:207-208 | from 576 to 8255 it reads back 385 to 448 too high |
| `EpsQos.ExtReadBack` | src/mce_app/EpsQualityOfService.c:176-218 | the extended code reads back the rate floored to 100, then the bounds with steps 1000 and 2000 scaled by 1024/1000 |
| `EpsQos.NoExtRate` | src/mce_app/EpsQualityOfService.c:176-218 | there is no extended rate to read back if and only if the rate is below 8700 or above 256000 |
| `EpsQos.ExtMonotone` | src/mce_app/EpsQualityOfService.c:176-218 | on 8700 to 256000 it is monotone |
| `BitString.ToUint16` | src/common/asn1_conversions.h:53-72 | the same number for one or two octets |
| `BitString.ToUint` | src/common/asn1_conversions.h:79-118 | the shift-and-or loop equals the big-endian value divided by 2^unused, for any number of octets in mathematical integers, and for an `int` operand if and only if the first shift is defined |
| `BitString.FirstOctetGreatest` | src/common/asn1_conversions.h:42-118 | the value takes the first octet as the most significant |
| `BitString.IntConverts` | src/common/asn1_conversions.h:79-118 | with an `int`, up to three octets are always converted and more than five never |
| `BitString.NumberFits` | src/common/asn1_conversions.h:42-118 | the number has as many bits as count, so each result type holds it |

## Left out

- ITTI and SCTP sending, ASN.1 PER coding, logging and statistics: only a log of sent messages is kept, and encoding is taken to succeed, also for a service id of more than 24 bits.
- Real time and timer management: a timer is an event that may happen, and a failed timer set-up is the untimed case.
- Locks, allocation and freeing: one message is handled at a time.
- The session start failure, stop response, update response, counting and overload handlers: they change no table.
- PLMN and synchronisation area comparison in a setup request: booleans in `SetupReq`; the eNB's name is not kept.
- The bearer data of a service and the multicast address carried in requests: copied through without a decision.
- `uint8_t` counts of collected eNBs written through an `int` pointer: the count is taken whole. `MatchedEnbsFit` and, for the eNBs of an MBMS area, `TableHoldsAll` give the bounds under which that makes no difference.
- Mcch: `long` and `int` ranges, and the microsecond part of the start time, which the source computes and does not use.
- Subframe allocation outside the common pattern (src/mce_app/mce_app_mbsfn_scheduling.c:640-717 and 812-987): how much of an area's need it can take is an input (`Area.elsewhere`). Its loops search for a free pattern by skipping free ones, and count a radio frame's subframes again and again; the transport block arithmetic is left out with it.
- MCCH update time and CSA pattern packing inside the scheduling message: copied through.
- Mobile identity, classmark, DRX, quality of service, timer and authentication elements, and the constant tables: fixed-size packing and lookups that would only add easy members.
