# Protocol and store models of the UBS platform

This project models the stateful cores of the platform's services in Dafny and proves what they keep over whole
runs. It is plain Dafny 4.11: `dafny verify dfyconfig.toml` checks everything.

The style is the same in every module. The state of a service is a datatype; each synchronous segment of the
source (the code between two awaits) is a function on that state; a class with the source's own fields has methods
that update them in place and are proved equal to those functions; and lemmas about runs, which are sequences of
events in any order, state what the service promises. Where the source falls short of a promise there is a lemma that
says exactly when it holds.

| module | models |
|---|---|
| `AsyncMutexes`, `DynamicQueues` | the FIFO mutex and its sibling queue |
| `Framing`, `Wire` | length-prefixed frames, the incremental decoder, and both ends of a connection with their mutexes |
| `RequestRegistries` | request/response correlation, timeouts and close |
| `EventDedup` | de-duplication of event deliveries in a window of two minutes |
| `Caches`, `InFlight` | the TTL cache with its lazily cleaned expiry index, and in-flight de-duplication |
| `OwnershipGroups` | optimistic locking of group members |
| `CapabilityGuards`, `MemberRequests` | the guards on capability updates, and what all requests of plain members together can bring about |
| `GroupCreation`, `TeamOwnership` | retry-safe creation under a unique index, and insert-if-missing claims |
| `Ownerships`, `OwnershipQueries` | the entity ownership document, and the check and the search over it |
| `DocumentTree` | the ancestors and path columns against the parentId relation |
| `GlobalVariables`, `TokenInterference` | sequential token replacement against simultaneous substitution, and exactly when they differ |
| `Blog`, `BlogRules`, `BlogSaves` | drafts, publication and public reads; what a save accepts and leaves; and the same requests interleaved |
| `Paging` | page arithmetic |

## What is taken from outside

Times are integers handed to each operation; one operation happens at one instant. Strings are ASCII for trimming,
lower case and the regular expressions. Bytes are the integers 0 to 255. MessagePack, JSON and SHA-256 are opaque;
the digest counts as injective, so the text that is hashed stands for it. UUIDs and database ids are fresh values
chosen by the event. The database is a map or a sequence with the named unique keys and atomic single-document
operations; a bulk update is one step. `undefined` is `None`, and a missing string is the empty string wherever the
source only tests truthiness.

Points where the source does something a reader might not expect, each with its lemma:

- A frame of length zero is dispatched only when another byte arrives (`Framing.DeliveredIffLastNotEmpty`).
- `has` ignores expiry and the timer is not brought forward for an earlier expiry (`Caches.HasErrsExactly`, `Caches.HasMayLie`).
- A callback of `getOrCallAsync` that throws before returning a promise leaves its rejected promise registered until
  the next clear, because the `finally` runs before the promise is entered (`InFlight.SynchronousThrowSticks`).
- Two concurrent additions of one user both pass (`OwnershipGroups.ConcurrentAddsDuplicate`), and a sole owner may
  demote himself (`OwnershipGroups.UpdateKeepsSound`, `CapabilityGuards.SoleOwnerDemotesHimself`).
- A capability update replaces the whole entity list of its target, while its guards look at the listed entities only
  (`CapabilityGuards.OmittedEntityIsDeleted`, `CapabilityGuards.OnlyHeldIffOmittedHeld`).
- The search may return an entity the check refuses, because of what another team member holds on another entity
  (`OwnershipQueries.SearchOffersNoMoreExactly`, `OwnershipQueries.SearchOffersRefusedEntity`).
- An empty conjunction in a capability request is satisfied by everyone in the check and matches nothing in the
  search (`OwnershipQueries.AgreeExactlyOnAnswerable`).
- A text like `{{{{global:a}}}} {{global:b}}` lets a translation complete a token that is then replaced as well
  (`TokenInterference.ExactlyTheSafeTexts`, `TokenInterference.NestedBracesInterfere`).
- A document saved after its parent was removed stays active below a removed one (`DocumentTree.ClosedIffNoLateSave`,
  `DocumentTree.ChildBelowRemovedParent`).
- A request on a blog post that is saved after another one changed it may publish a post without content, or date it
  anew (`BlogSaves.ServedIffNeverOvertaken`, `BlogSaves.PublishedWithoutContent`, `BlogSaves.PublicationDatedAgain`).

## Model

| member | source | states |
|---|---|---|
| AsyncMutexes.AsyncMutex.Run | libs/async-mutex/src/async-mutex.ts:11-22 | a call starts its task at once on a free mutex and otherwise joins the end of the waiters |
| AsyncMutexes.AsyncMutex.Settle | libs/async-mutex/src/async-mutex.ts:24-35 | when the running task resolves or rejects, the head waiter starts, or the mutex becomes free |
| AsyncMutexes.EveryRunIsFifo | libs/async-mutex/src/async-mutex.ts:11-35 | every reachable state is the one determined by the calls made and the number of settled tasks alone |
| AsyncMutexes.MutualExclusion | libs/async-mutex/src/async-mutex.ts:1-6 | at most one task executes, tasks start in call order, none is lost, and busy is false exactly when nothing runs or waits |
| AsyncMutexes.NoLostWakeUp | libs/async-mutex/src/async-mutex.ts:27-34 | when the outstanding tasks settle one after the other, every call has been started and the mutex is free |
| DynamicQueues.DynamicQueue.Push | libs/dynamic-queue/src/dynamic-queue.ts:65-106 | push appends, and starts the head when the queue is not busy |
| DynamicQueues.DynamicQueue.RunFirst | libs/dynamic-queue/src/dynamic-queue.ts:111-131 | completion or error starts the next task or clears busy |
| DynamicQueues.QueueIsAMutex | libs/dynamic-queue/src/dynamic-queue.ts:65-131 | over every run the queue passes through the same states as the mutex, hence is FIFO with one task at a time |
| Framing.ReadAfterWrite | libs/microservice-setup-util/src/engine5/connection.ts:142-143 | the big-endian prefix reads back as the length written |
| Framing.WriteAfterRead | libs/microservice-setup-util/src/engine5/connection.ts:339-341 | every four bytes are the prefix of exactly the length they read as |
| Framing.FrameReader.OnData | libs/microservice-setup-util/src/engine5/connection.ts:330-361 | the chunk loop, with its lexicographic termination, computes the byte-at-a-time decoding of the chunk |
| Framing.FeedConcat | libs/microservice-setup-util/src/engine5/connection.ts:330-361 | from any decoder state, feeding a then b dispatches and ends like feeding a followed by b |
| Framing.Conservation | libs/microservice-setup-util/src/engine5/connection.ts:334-359 | for any bytes, re-encoding what was dispatched plus what is buffered gives back the stream |
| Framing.RoundTrip | libs/microservice-setup-util/src/engine5/connection.ts:141-144 | decoding an encoded list of messages dispatches exactly that list and ends at a frame boundary, save for an empty last message |
| Framing.DeliveredIffLastNotEmpty | libs/microservice-setup-util/src/engine5/connection.ts:352-358 | all messages are dispatched at the end of their bytes if and only if the last one is not empty |
| Framing.PartialDelivery | libs/microservice-setup-util/src/engine5/connection.ts:330-361 | any prefix of the stream dispatches a prefix of the messages |
| Wire.NextKeepsInv | libs/microservice-setup-util/src/engine5/connection.ts:134-161 | each write, acknowledgement, delivery and handler step keeps both mutexes FIFO and the wire equal to the frames of the started writes |
| Wire.EndToEnd | libs/microservice-setup-util/src/engine5/connection.ts:134-161 | in every interleaving and chunking, the receiver has dispatched a prefix of the messages in call order, and all of them once the link is quiet |
| Wire.SentInCallOrder | libs/microservice-setup-util/src/engine5/connection.ts:136-146 | what is sent are exactly the payloads that encode and fit the length prefix, each once and in call order |
| Wire.CallsArrive | libs/microservice-setup-util/src/engine5/connection.ts:134-161 | told from the calls alone: a quiet link has dispatched exactly those payloads in call order, save for an empty last one |
| Wire.WritableCallsArrive | libs/microservice-setup-util/src/engine5/connection.ts:134-161 | when all payloads encode and fit, a quiet link has dispatched the list of them |
| Wire.CanBecomeQuiet | libs/microservice-setup-util/src/engine5/connection.ts:326-361 | from every reachable state some continuation without further calls delivers everything |
| RequestRegistries.RequestRegistry.Register | libs/microservice-setup-util/src/engine5/connection.ts:210-240 | a sent request arms its timer and registers its callback |
| RequestRegistries.RequestRegistry.TakeRequestCallback | libs/microservice-setup-util/src/engine5/connection.ts:68-75 | a callback is handed out only for a non-empty registered id, and forgotten |
| RequestRegistries.RequestRegistry.Respond | libs/microservice-setup-util/src/engine5/connection-message-handler.ts:164-185 | a reply settles the request it names, disarms its timer, and does nothing when no callback is registered |
| RequestRegistries.RequestRegistry.Expire | libs/microservice-setup-util/src/engine5/connection.ts:211-214 | an armed timer rejects its request |
| RequestRegistries.RequestRegistry.Close | libs/microservice-setup-util/src/engine5/connection.ts:469-473 | closing forgets every callback and no timer |
| RequestRegistries.EachRequestFaresAlone | libs/microservice-setup-util/src/engine5/connection.ts:192-241 | in every run with fresh ids each request settles at most once, and exactly as its own events decide, as if no other request existed |
| RequestRegistries.EverySettlementHasItsCause | libs/microservice-setup-util/src/engine5/connection.ts:210-240 | in every run a request is resolved only by a success reply with its id and content, rejected only by such an error reply, and timed out only by its own timer with its own subject |
| RequestRegistries.ReplySettles | libs/microservice-setup-util/src/engine5/connection.ts:219-235 | the first reply to a waiting request rejects it if it is an error and resolves it otherwise |
| RequestRegistries.NoRequestIsForgotten | libs/microservice-setup-util/src/engine5/connection.ts:211-214 | every registered request is settled or has an armed timer, even after close |
| RequestRegistries.UnclaimedReplyHasNoEffect | libs/microservice-setup-util/src/engine5/connection-message-handler.ts:164-185 | early, late, duplicate and unknown replies change nothing |
| EventDedup.EventFilter.CleanupProcessedEventMessageIds | libs/microservice-setup-util/src/engine5/connection-message-handler.ts:203-209 | cleanup keeps exactly the ids inside the window |
| EventDedup.EventFilter.IsDuplicateEventMessage | libs/microservice-setup-util/src/engine5/connection-message-handler.ts:211-225 | an id is a duplicate when it is still stored, and is stored otherwise |
| EventDedup.WindowIsBounded | libs/microservice-setup-util/src/engine5/connection-message-handler.ts:216-224 | after a check no stored timestamp is older than the window, and a duplicate does not extend it |
| EventDedup.AcceptedOncePerWindow | libs/microservice-setup-util/src/engine5/connection-message-handler.ts:36-37 | under a non-decreasing clock a delivery is ignored exactly when an accepted one of its id lies at most 120000 ms before; accepted ones of an id are further apart |
| Caches.CacheManager.Get | libs/cache-manager/src/cache-manager.service.ts:46-63 | get answers, invalidates an expired entry, or prolongs an ON_GET entry |
| Caches.CacheManager.Put | libs/cache-manager/src/cache-manager.service.ts:65-78 | put stores value, policy and expiry and indexes a finite expiry |
| Caches.CacheManager.GetOrCall | libs/cache-manager/src/cache-manager.service.ts:108-115 | a miss stores and returns the result of the callback, and stores nothing when it throws |
| Caches.CacheManager.InvalidateRegex | libs/cache-manager/src/cache-manager.service.ts:136-149 | the loop removes exactly the matching keys and their index items |
| Caches.CacheManager.DrainExpirations | libs/cache-manager/src/cache-manager.service.ts:205-238 | the drain loop deletes the confirmed entries of the due items, drops these items and re-arms |
| Caches.DrainIsFullScan | libs/cache-manager/src/cache-manager.service.ts:205-238 | despite stale items a drain removes exactly the entries with expiresAt at most now, and keeps the index faithful |
| Caches.PutKeepsFaithful | libs/cache-manager/src/cache-manager.service.ts:172-187 | put keeps the index sorted and complete, and the scheduler armed exactly when it is non-empty |
| Caches.GetKeepsFaithful | libs/cache-manager/src/cache-manager.service.ts:160-187 | so does get, with lazy expiry and prolongation |
| Caches.PurgeKeepsFaithful | libs/cache-manager/src/cache-manager.service.ts:117-127 | so does every invalidation |
| Caches.DelayIsExact | libs/cache-manager/src/cache-manager.service.ts:179-203 | the timer waits exactly for the first expiry, unless that is past or beyond the longest delay |
| Caches.IndexIsTidied | libs/cache-manager/src/cache-manager.service.ts:160-238 | a drain arms the timer for what is left, and an invalidation leaves no item of its keys |
| Caches.StoringArms | libs/cache-manager/src/cache-manager.service.ts:65-78 | a put stores and indexes its expiry, leaves other keys alone, and arms the timer only if none is armed |
| Caches.SortSorts | libs/cache-manager/src/cache-manager.service.ts:175 | the model of the library sort returns the items in order of expiry |
| Caches.StepRefines | libs/cache-manager/src/cache-manager.service.ts:46-78 | one operation on the cache answers like the plain timed map and keeps the refinement relation |
| Caches.CacheIsATimedMap | libs/cache-manager/src/cache-manager.service.ts:46-78 | over all operations with the timer firing at any moment, every get and getOrCall answers like a map that never removes by time |
| Caches.EntryLivesItsLivetime | libs/cache-manager/src/cache-manager.service.ts:65-78 | a put value is served until its livetime is over, or for ever without one |
| Caches.OnlyOnGetIsProlonged | libs/cache-manager/src/cache-manager.service.ts:56-59 | a get prolongs a live ON_GET entry by its own livetime and leaves a CONSTANT one alone |
| Caches.HasIsHeld | libs/cache-manager/src/cache-manager.service.ts:42-44 | after any run has answers as the events and the plain timed map alone decide, whatever index and timer do |
| Caches.HasErrsExactly | libs/cache-manager/src/cache-manager.service.ts:42-44 | after any run has is wrong if and only if the last stored expiry has passed and, since the key was last put or found alive, there was neither a drain nor a get of it at or after that expiry |
| Caches.HasAfterDrain | libs/cache-manager/src/cache-manager.service.ts:42-44 | has never misses a live key, and right after a drain it reports exactly the live ones |
| Caches.HasMayLie | libs/cache-manager/src/cache-manager.service.ts:179-187 | a concrete run in which has reports an expired key because the timer waits for a later one |
| InFlight.AsyncCacheManager.GetOrCallAsync | libs/cache-manager/src/cache-manager.service.ts:80-106 | the synchronous segment of a call: cached value, shared promise, or a new callback |
| InFlight.AsyncCacheManager.CallbackSettled | libs/cache-manager/src/cache-manager.service.ts:94-102 | a resolved callback stores its value; in any case the key leaves inflight and the promise settles |
| InFlight.ExactIffUndisturbed | libs/cache-manager/src/cache-manager.service.ts:80-106 | inflight holds a key exactly while its one callback is pending, throughout a run, if and only if no callback throws synchronously and no clear hits a pending one |
| InFlight.AtMostOnePending | libs/cache-manager/src/cache-manager.service.ts:90-92 | in such runs at most one callback per key is pending |
| InFlight.JoinersShareTheOutcome | libs/cache-manager/src/cache-manager.service.ts:90-92 | a caller that misses while a callback is pending starts none and gets that callback's outcome, success or failure |
| InFlight.ResolvedValueIsServed | libs/cache-manager/src/cache-manager.service.ts:94-97 | after a callback resolved, callers are served its value from the cache until its livetime is over |
| InFlight.SettlingFreesTheKey | libs/cache-manager/src/cache-manager.service.ts:98-102 | a settled callback frees its key, leaves other keys alone, and stores nothing if it rejected |
| InFlight.CallTouchesTheCacheLikeGet | libs/cache-manager/src/cache-manager.service.ts:80-92 | whatever it answers, a call treats the cache as a get does |
| InFlight.OtherOperations | libs/cache-manager/src/cache-manager.service.ts:151-156 | the other operations act on the cache alone; a clear empties it and forgets who is in flight, but settles no promise |
| InFlight.SynchronousThrowSticks | libs/cache-manager/src/cache-manager.service.ts:94-104 | a synchronous throw leaves the key bound to a rejected promise |
| InFlight.StuckUntilClear | libs/cache-manager/src/cache-manager.service.ts:90-105 | and it stays bound in every continuation without clear |
| OwnershipGroups.GroupCollection.PrepareChange | libs/users-webservice/src/services/entity-ownership-group.service.ts:386-437 | a removal or update that is prepared here and saved later makes the serial step of the change on the group it read, or nothing once the group was written meanwhile; it is refused exactly when that step is |
| OwnershipGroups.ReadThenSaveIsSerial | libs/users-webservice/src/services/entity-ownership-group.service.ts:386-510 | reading and saving without interruption is one serial step |
| OwnershipGroups.GroupCollection.SaveUserCapabilitiesWithOptimisticLock | libs/users-webservice/src/services/entity-ownership-group.service.ts:485-510 | the write happens exactly when the stored version is the expected one, and is a conflict otherwise |
| OwnershipGroups.GroupCollection.PushMember | libs/users-webservice/src/services/entity-ownership-group.service.ts:380-382 | an addition appends to whatever is stored at that moment and bumps the version |
| OwnershipGroups.CommitReplacesItsSnapshot | libs/users-webservice/src/services/entity-ownership-group.service.ts:485-510 | in every reachable state a change that gets written replaces exactly the document it was computed from |
| OwnershipGroups.Serializable | libs/users-webservice/src/services/entity-ownership-group.service.ts:353-510 | every interleaving ends like the serial execution of the effects that took place, with every check passing |
| OwnershipGroups.CreateAndDelete | libs/users-webservice/src/services/entity-ownership-group.service.ts:141-181 | a new group has its creator as only member and owner, a deleted one is gone, no other group is touched |
| OwnershipGroups.AddIsServed | libs/users-webservice/src/services/entity-ownership-group.service.ts:353-383 | an addition that nobody interrupts appends a new member and leaves a group alone that has him |
| OwnershipGroups.ChangeIsServed | libs/users-webservice/src/services/entity-ownership-group.service.ts:386-510 | a removal or update that nobody interrupts is its serial step, or changes nothing when refused |
| OwnershipGroups.LeavingNeedsASecondOwner | libs/users-webservice/src/services/entity-ownership-group.service.ts:404-433 | a non-admin can remove himself exactly when he owns the group together with someone else |
| OwnershipGroups.RemovalKeepsSound | libs/users-webservice/src/services/entity-ownership-group.service.ts:415-438 | an accepted removal keeps distinct members and an owner |
| OwnershipGroups.RemovalRemoves | libs/users-webservice/src/services/entity-ownership-group.service.ts:435-438 | an accepted removal takes the user's entries away and leaves everybody else as he was |
| OwnershipGroups.RemovingOthers | libs/users-webservice/src/services/entity-ownership-group.service.ts:415-433 | somebody else, an admin or an internal caller can remove a user exactly when the group has another member and another owner stays |
| OwnershipGroups.UpdateKeepsSound | libs/users-webservice/src/services/entity-ownership-group.service.ts:441-483 | an accepted update keeps them if and only if it does not demote the sole owner |
| OwnershipGroups.SoundIffNeverSpoiled | libs/users-webservice/src/services/entity-ownership-group.service.ts:353-510 | over every interleaving all groups stay sound if and only if no addition is overtaken by one of the same user and no sole owner is demoted |
| OwnershipGroups.SerialAddsAreSafe | libs/users-webservice/src/services/entity-ownership-group.service.ts:353-439 | creations, additions one at a time and concurrent removals always keep distinct members and an owner |
| OwnershipGroups.ConcurrentAddsDuplicate | libs/users-webservice/src/services/entity-ownership-group.service.ts:367-383 | two concurrent additions of one user both get stored |
| CapabilityGuards.AttentionIsDifference | libs/users-webservice/src/util/eog-assertions.ts:84-93 | the capabilities that need attention are the symmetric difference of the lists |
| CapabilityGuards.AssertUserDontGivingCapabilitiesDoesntHave | libs/users-webservice/src/util/eog-assertions.ts:95-159 | the guard loops accept exactly admins, owners, and members who hold all capabilities that change |
| CapabilityGuards.UpdateUserCapability | libs/users-webservice/src/web/entity-ownership-group-member.controller.ts:61-85 | the request passes three guards and then the service |
| CapabilityGuards.AcceptedExactly | libs/users-webservice/src/web/entity-ownership-group-member.controller.ts:61-85 | a plain member's request is accepted exactly when it is about another non-owner and changes, for the group and in each listed entry, only capabilities he holds |
| CapabilityGuards.AfterServe | libs/users-webservice/src/services/entity-ownership-group.service.ts:477-480 | an accepted request replaces both lists of the target as a whole and touches nobody else |
| CapabilityGuards.OnlyHeldIffOmittedHeld | libs/users-webservice/src/services/entity-ownership-group.service.ts:477-480 | an accepted plain request changes, over all entities, only what the requester holds if and only if he holds all that the target has for the entities the request leaves out |
| CapabilityGuards.OnlyHeldIffUnseenHeld | libs/users-webservice/src/util/eog-assertions.ts:134-158 | the same when entries for one entity are repeated and only the first one is looked at |
| CapabilityGuards.OmittedEntityIsDeleted | libs/users-webservice/src/services/entity-ownership-group.service.ts:477-480 | a concrete accepted request by which a member without entity capabilities deletes one of another member |
| MemberRequests.HeldMeansHarmless | libs/users-webservice/src/util/eog-assertions.ts:95-159 | what passes the last guard, for an update or an invitation, gives nothing that did not exist at the start |
| CapabilityGuards.SoleOwnerDemotesHimself | libs/users-webservice/src/services/entity-ownership-group.service.ts:441-483 | a concrete accepted request that leaves a group without owner |
| MemberRequests.PlainMembersCannotGrow | libs/users-webservice/src/web/entity-ownership-group-member.controller.ts:61-170 | however updates, removals and invitations of plain members and the acceptances interleave, no group or entity capability appears that no one had, and the owners stay the same |
| MemberRequests.ChangeIsServed | libs/users-webservice/src/web/entity-ownership-group-member.controller.ts:61-85 | an update that nobody interrupts is served as by `CapabilityGuards.Serve` |
| MemberRequests.DismissedExactly | libs/users-webservice/src/web/entity-ownership-group-member.controller.ts:88-105 | a plain member removes exactly another non-owner, and only with EDIT or EOG_ADJUST_MEMBERS |
| MemberRequests.InviteIsServed | libs/users-webservice/src/web/entity-ownership-group-member.controller.ts:125-149 | an invitation is stored exactly when the inviter has one of three capabilities, holds what he offers, and invites neither himself nor a member nor someone already invited |
| MemberRequests.AcceptingJoins | libs/users-webservice/src/services/entity-ownership-group.service.ts:600-634 | an accepted invitation makes its user a member with just what it offers, unless he is one |
| MemberRequests.WithdrawnIsGone | libs/users-webservice/src/services/entity-ownership-group.service.ts:656-668 | a refused, removed or used invitation is gone and nothing else changes |
| GroupCreation.GroupStore.Insert | libs/users-webservice/src/services/entity-ownership-group.service.ts:172-175 | the unique sparse index refuses a second document with the same key |
| GroupCreation.GroupStore.CreateGroup | libs/users-webservice/src/services/entity-ownership-group.service.ts:146-181 | an uninterrupted call validates the key, reuses, refuses a reused key with other input, or creates |
| GroupCreation.RetriesShareOneGroup | libs/users-webservice/src/services/entity-ownership-group.service.ts:151-181 | in every interleaving all successful calls of a user with one key return one group and sent its stored input |
| GroupCreation.RetriesSucceed | libs/users-webservice/src/services/entity-ownership-group.service.ts:161-179 | once a call has succeeded, every other finished call with that key and input returned the same group unless its database operation failed, and one with other input was refused as key reuse |
| GroupCreation.RepeatedSuccess | libs/users-webservice/src/services/entity-ownership-group.service.ts:161-168 | repeating a successful request returns the same group and creates none |
| GroupCreation.OtherInputIsRefused | libs/users-webservice/src/services/entity-ownership-group.service.ts:161-168 | other input under a used key is refused and creates nothing |
| GroupCreation.SuccessIsOwn | libs/users-webservice/src/services/entity-ownership-group.service.ts:155 | where no user id contains a colon, a successful call returns a group owned by its caller |
| GroupCreation.CreateIsItsOwnRun | libs/users-webservice/src/services/entity-ownership-group.service.ts:146-181 | the uninterrupted call is the run of its own steps |
| GroupCreation.LosingTheRaceIsHarmless | libs/users-webservice/src/services/entity-ownership-group.service.ts:174-179 | after a duplicate key the second lookup finds the winner |
| GroupCreation.ThreeStepsFinish | libs/users-webservice/src/services/entity-ownership-group.service.ts:169-180 | raced or not, a call is finished by its own next three database operations |
| GroupCreation.KeysAreScoped | libs/users-webservice/src/services/entity-ownership-group.service.ts:155 | keys of different users differ as long as user ids contain no colon |
| GroupCreation.BadKeysAreRefused | libs/users-webservice/src/services/entity-ownership-group.service.ts:152-154 | exactly blank keys and keys of more than 200 characters are refused as malformed |
| GroupCreation.PlainCreationsAlwaysCreate | libs/users-webservice/src/services/entity-ownership-group.service.ts:182-184 | without a key every creation makes a new group |
| TeamOwnership.OwnershipCollection.Upsert | libs/users-webservice/src/services/entity-ownership.service.ts:47-52 | the upsert inserts a missing document and never changes an existing one |
| TeamOwnership.OwnershipCollection.EnsureTeamOwnership | libs/users-webservice/src/services/entity-ownership.service.ts:42-59 | an uninterrupted claim validates, inserts if missing, and succeeds only for the owning team without single users |
| TeamOwnership.OneTeamPerEntity | libs/users-webservice/src/services/entity-ownership.service.ts:42-59 | two successful claims of one entity named the same team |
| TeamOwnership.FirstClaimStands | libs/users-webservice/src/services/entity-ownership.service.ts:48-51 | no continuation takes an entity from the team that first claimed it |
| TeamOwnership.EnsureIsItsOwnRun | libs/users-webservice/src/services/entity-ownership.service.ts:42-59 | the uninterrupted claim is the run of its own steps |
| TeamOwnership.ClaimOutcome | libs/users-webservice/src/services/entity-ownership.service.ts:42-59 | a well-formed claim succeeds exactly when the entity is new or already owned by that team without users, and changes no existing document |
| TeamOwnership.OtherRequests | libs/users-webservice/src/services/entity-ownership.service.ts:91-108 | grants, revocations and personal registrations change the users of their entity only |
| OwnershipQueries.HasCapabilityFromInnerArray | libs/users-common/src/capability.ts:83-100 | the loops decide whether some conjunction is contained in the capabilities, or nothing is requested |
| OwnershipQueries.CheckIsSound | libs/users-webservice/src/services/entity-ownership.service.ts:119-186 | a capability returned by the check belongs to the user, comes from the entity or its team, and satisfies the request |
| OwnershipQueries.AcceptedIsReturned | libs/users-webservice/src/services/entity-ownership.service.ts:411-449 | an entity with an id that the check accepts is returned by the search |
| OwnershipQueries.CheckedEntityIsListed | libs/users-webservice/src/services/entity-ownership.service.ts:358-449 | the same on the whole collection, with the entity looked up by its keys |
| OwnershipQueries.OnlyDocumentIsChecked | libs/users-webservice/src/services/entity-ownership.service.ts:358-372 | the document that alone has the keys is the one checked |
| OwnershipQueries.ListedExactly | libs/users-webservice/src/services/entity-ownership.service.ts:411-449 | a search lists exactly the documents of the group and name that have an id and on which the user passes the personal check, or whose team he belongs to while somebody there holds the request |
| OwnershipQueries.EmptyRequestListsNothing | libs/users-webservice/src/services/entity-ownership.service.ts:411-449 | a request without any conjunction lists nothing |
| OwnershipQueries.AgreeExactlyOnAnswerable | libs/users-webservice/src/services/entity-ownership.service.ts:222-239 | for a request the check implies the search on all documents if and only if it is absent or a non-empty list of non-empty conjunctions |
| OwnershipQueries.PersonalSearchIsExact | libs/users-webservice/src/services/entity-ownership.service.ts:421-435 | the personal part of the search finds exactly the documents whose personal check succeeds |
| OwnershipQueries.CheckIsCovers | libs/users-webservice/src/services/entity-ownership.service.ts:119-186 | the check succeeds exactly when the user holds a requested conjunction on the entity, himself or in the team |
| OwnershipQueries.SearchOffersNoMoreExactly | libs/users-webservice/src/services/entity-ownership.service.ts:222-239 | the search never returns an entity the check refuses if and only if the user is no member of the team or holds on the entity whatever anyone in the team holds on any entity |
| OwnershipQueries.SearchOffersRefusedEntity | libs/users-webservice/src/services/entity-ownership.service.ts:222-239 | a concrete team in which it does |
| DocumentTree.ArticleCollection.Save | libs/greenhat-webservice/src/service/document.service.ts:116-121 | a save succeeds exactly when name and path are free among active documents and the slug is not empty |
| DocumentTree.AdditionAccepted | libs/greenhat-webservice/src/service/document.service.ts:47-115 | which additions pass the checks, and the document they make of what was read |
| Text.TrimmedExactly | libs/greenhat-webservice/src/service/document.service.ts:61 | trimming cuts the blanks off both ends and nothing else |
| DocumentTree.ArticleCollection.RenameDocument | libs/greenhat-webservice/src/service/document.service.ts:124-163 | a rename changes the name only, or fails and changes nothing |
| DocumentTree.RenameAccepted | libs/greenhat-webservice/src/service/document.service.ts:124-156 | a rename is accepted exactly of an active document to a name no other active document of the project has |
| DocumentTree.RenamedNameIsTaken | libs/greenhat-webservice/src/service/document.service.ts:124-163 | after a rename the trimmed name is stored, nothing else changed, and the name is taken in its project in whatever case |
| DocumentTree.ArticleCollection.RemoveDocumentRecursive | libs/greenhat-webservice/src/service/document.service.ts:165-199 | removal deactivates the matched documents and returns their number |
| DocumentTree.RemovalAccepted | libs/greenhat-webservice/src/service/document.service.ts:165-228 | removal and preview need an active root and the right to edit, and nothing else |
| DocumentTree.EveryRunKeepsTheIndex | libs/greenhat-webservice/src/service/document.service.ts:79-107 | in every interleaving ancestors and path agree with the parent, within one project, and the unique keys hold |
| DocumentTree.AncestorsAreTheChain | libs/greenhat-webservice/src/service/document.service.ts:100 | ancestors is the root-first parentId chain within one project |
| DocumentTree.PathIsTheSlugs | libs/greenhat-webservice/src/service/document.service.ts:94-95 | path is the slugs along that chain |
| DocumentTree.Acyclic | libs/greenhat-webservice/src/service/document.service.ts:99-100 | no parentId walk returns to where it began |
| DocumentTree.IndexIsClosure | libs/greenhat-webservice/src/service/document.service.ts:184 | a document is below a root along parentId exactly when the root is in its ancestors |
| DocumentTree.RemovalIsTheSubtree | libs/greenhat-webservice/src/service/document.service.ts:165-238 | recursive removal deactivates exactly the active documents below the root along parentId, and their number is the preview's totalWillBeRemoved |
| DocumentTree.PreviewCounts | libs/greenhat-webservice/src/service/document.service.ts:215-237 | the preview counts the active documents strictly below the root, and among them its children |
| DocumentTree.SubtreeIsVisible | libs/greenhat-webservice/src/service/document.service.ts:268-275 | in an active-closed tree every removed document is reached by opening listed children from the root |
| DocumentTree.ClosedIffNoLateSave | libs/greenhat-webservice/src/service/document.service.ts:79-118 | every ancestor of an active document stays active over a run if and only if no save happens below a parent removed meanwhile |
| DocumentTree.SaveAfterRemoval | libs/greenhat-webservice/src/service/document.service.ts:79-118 | whenever the parent of a draft is removed before a save that goes through, the saved document is active below a removed one |
| DocumentTree.ChildBelowRemovedParent | libs/greenhat-webservice/src/service/document.service.ts:79-199 | a concrete run of accepted requests in which that happens |
| DocumentTree.ServedOneByOne | libs/greenhat-webservice/src/service/document.service.ts:47-199 | with requests served one at a time it always does |
| DocumentTree.ServeServes | libs/greenhat-webservice/src/service/document.service.ts:47-199 | what one uninterrupted request leaves in the collection |
| DocumentTree.EveryDocumentHasASlug | libs/greenhat-webservice/src/service/document.service.ts:93-97 | no stored document has an empty slug |
| GlobalVariables.CollectVariables | libs/notify-webservice/src/service/global-variable.service.ts:102-113 | the first loop yields the distinct matches in order of first occurrence |
| GlobalVariables.GlobalVariableApply | libs/notify-webservice/src/service/global-variable.service.ts:95-131 | the second loop replaces the listed tokens one after the other |
| GlobalVariables.TranslationOrder | libs/notify-webservice/src/service/global-variable.service.ts:133-145 | the value in the requested language, else in the fallback language, else in en-us, else nothing |
| TokenInterference.OneTokenBecomesItsValue | libs/notify-webservice/src/service/global-variable.service.ts:95-147 | a text of one token becomes the value of its variable in the requested language |
| GlobalVariables.RenderParse | libs/notify-webservice/src/service/global-variable.service.ts:100-102 | every text is its literal characters and tokens put together |
| GlobalVariables.NameCharCodes | libs/notify-webservice/src/service/global-variable.service.ts:100 | the characters of a variable name |
| TokenInterference.ParseRender | libs/notify-webservice/src/service/global-variable.service.ts:100-102 | parsing gives a rendered template back if and only if it has no token among its literal characters |
| GlobalVariables.ReplaceOnTemplate | libs/notify-webservice/src/service/global-variable.service.ts:124-126 | split and join replace every occurrence of one token and nothing else |
| GlobalVariables.SequentialIsSimultaneous | libs/notify-webservice/src/service/global-variable.service.ts:114-128 | replacing a list of tokens in turn is replacing them all at once, as long as no token is among the literal characters when its turn comes |
| GlobalVariables.ApplyIsExpansion | libs/notify-webservice/src/service/global-variable.service.ts:95-131 | for any translations, as long as none helps to form a token still to come, the result is the text with each translated token replaced and all else verbatim |
| TokenInterference.ExactlyTheSafeTexts | libs/notify-webservice/src/service/global-variable.service.ts:95-131 | for all translations without opening braces that is the result if and only if no literal characters that begin a later token stand right before an earlier one |
| TokenInterference.AnyTranslationIsSafeExactly | libs/notify-webservice/src/service/global-variable.service.ts:95-131 | for all translations whatsoever it is if and only if the text mentions at most one variable |
| GlobalVariables.ParsedIsInert | libs/notify-webservice/src/service/global-variable.service.ts:100-102 | no token is left among the literal characters of a text |
| TokenInterference.OrderMattersExactly | libs/notify-webservice/src/service/global-variable.service.ts:114-128 | all orders of distinct tokens give the same text for all translations without opening braces if and only if no literal characters right before one token begin a different one |
| TokenInterference.OrderInTextMattersExactly | libs/notify-webservice/src/service/global-variable.service.ts:95-131 | the same for a text and its variables |
| TokenInterference.NestedBracesInterfere | libs/notify-webservice/src/service/global-variable.service.ts:95-131 | a concrete text with translations free of opening braces for which both fail |
| TokenInterference.OrderIsIrrelevant | libs/notify-webservice/src/service/global-variable.service.ts:114-128 | where that holds, each translation gives one text in every order |
| GlobalVariables.TranslationsWithTokensInterfere | libs/notify-webservice/src/service/global-variable.service.ts:122-127 | with a token as translation it does |
| Blog.CollectTitles | libs/greenhat-webservice/src/service/blog.service.ts:198-210 | the title loop keeps the trimmed non-empty titles or rejects |
| Blog.CollectContents | libs/greenhat-webservice/src/service/blog.service.ts:212-234 | the content loop keeps every markdown or rejects |
| Blog.BlogCollection.ApplySave | libs/greenhat-webservice/src/service/blog.service.ts:193-265 | a save request gives the changed document or is rejected |
| Blog.BlogCollection.Create | libs/greenhat-webservice/src/service/blog.service.ts:74-86 | a creation stores a draft with a free slug or changes nothing |
| Blog.BlogCollection.Update | libs/greenhat-webservice/src/service/blog.service.ts:88-101 | an update stores the changed document or changes nothing |
| Blog.BlogCollection.SetPublished | libs/greenhat-webservice/src/service/blog.service.ts:103-127 | publishing needs default-locale content and dates the post once |
| Blog.EveryRunKeepsInv | libs/greenhat-webservice/src/service/blog.service.ts:74-134 | in every reachable collection published posts have non-blank default-locale markdown and a date, dates never change once set, and slugs are well-formed and unique among active posts |
| Blog.PublicReadsServeContent | libs/greenhat-webservice/src/service/blog.service.ts:166-191 | every successful public read is determined by slug and locale and serves the non-empty markdown and the title stored for an available locale, the requested one if available |
| Blog.DefaultLocaleIsServed | libs/greenhat-webservice/src/service/blog.service.ts:333-343 | every published post can be read in every locale, in the default one where the requested one has no text |
| Blog.PublicationDecidesReads | libs/greenhat-webservice/src/service/blog.service.ts:103-134 | publishing puts a post on the public reads; taking it back to draft or removing it takes it off |
| Blog.UpdateStoresTexts | libs/greenhat-webservice/src/service/blog.service.ts:193-265 | an update stores for each locale the last text and the last non-blank title given, and leaves publication and other posts alone |
| BlogRules.SlugIsRuns | libs/greenhat-webservice/src/service/blog.service.ts:28 | the slug pattern accepts exactly runs of letters and digits joined by single hyphens |
| BlogRules.SaveAccepted | libs/greenhat-webservice/src/service/blog.service.ts:193-265 | a save is accepted exactly when entries and slug are well-formed, some locale has a title or text, a requested default locale has one, and a published post keeps text in the default locale |
| BlogRules.DefaultLocaleOfSave | libs/greenhat-webservice/src/service/blog.service.ts:241-250 | the default locale is the one asked for, else the old one while it has something, else tr-tr, else the first |
| BlogRules.SlugOfSave | libs/greenhat-webservice/src/service/blog.service.ts:255-279 | the slug is the one asked for, trimmed and in lower case, else the old one, else the time |
| BlogRules.ResolvedInOrder | libs/greenhat-webservice/src/service/blog.service.ts:333-342 | a reader gets the requested locale, else the default one, else the first one, that has markdown |
| BlogRules.OneMoreRequest | libs/greenhat-webservice/src/service/blog.service.ts:74-134 | a request acts on what the earlier ones left, and a refused one changes nothing |
| BlogSaves.EveryInterleavingKeepsSlugs | libs/greenhat-entity-mongo/src/index.ts:185-188 | however requests interleave, slugs are well-formed and unique among active posts, and locales well-formed |
| BlogSaves.ServedIffNeverOvertaken | libs/greenhat-webservice/src/service/blog.service.ts:88-127 | throughout an interleaving published posts keep content and date if and only if, at every save, what the request writes still meets its guards together with what is stored by then |
| BlogSaves.UndisturbedSavesAreSafe | libs/greenhat-webservice/src/service/blog.service.ts:88-127 | a save is never overtaken while nobody else wrote the post |
| BlogSaves.UndisturbedSchedulesAreSafe | libs/greenhat-webservice/src/service/blog.service.ts:88-127 | when no other write to its post falls between the read and the save of any request, published posts keep content and date throughout |
| BlogSaves.PublishedWithoutContent | libs/greenhat-webservice/src/service/blog.service.ts:108-126 | a concrete interleaving of two accepted requests that publishes a post without content |
| BlogSaves.PublicationDatedAgain | libs/greenhat-webservice/src/service/blog.service.ts:117-126 | a concrete interleaving of two publications in which the second save replaces a stored date |
| BlogSaves.PublicReadsServeContent | libs/greenhat-webservice/src/service/blog.service.ts:166-191 | unless a save is overtaken, public reads serve content in every interleaving too |
| BlogSaves.SavesKeepTheRest | libs/greenhat-webservice/src/service/blog.service.ts:88-134 | a save touches only what its request is about, and the work of others on the rest of the post survives it |
| BlogSaves.ServeIsPrepareAndSave | libs/greenhat-webservice/src/service/blog.service.ts:74-134 | a request that is not interrupted is served as by `Blog.Serve`: the index refuses exactly what the slug check refuses |
| Paging.PagesPartition | libs/crud-base/src/util/search.util.ts:26-63 | pages 0 to maxPagesIndex put together are the whole result, and a page is empty exactly when it comes later |
| Paging.LastPageHoldsTheLastElement | libs/crud-base/src/util/search.util.ts:52-63 | lastPage is set exactly on the page that holds the last element |
| Paging.CountsAndFirstPage | libs/crud-base/src/util/search.util.ts:52-63 | firstPage is set exactly on the page at the start, and maxItemLength counts the elements of all pages |
| Paging.MapAsync | libs/crud-base-common/src/search-result.ts:33-50 | the mapping loop maps the content in order with its index, keeps the rest, and passes on a rejection |
| Paging.MapsElementwise | libs/crud-base-common/src/search-result.ts:36-40 | each element is mapped with its own index, or the first rejection decides |
| Paging.MappingCommutesWithPaging | libs/crud-base-common/src/search-result.ts:33-50 | for a callback that ignores the index, mapping page by page is mapping the whole result |

## Left out

- Sockets, TLS, reconnection and the connection handshake; a write that fails on the socket is not modelled, so the stream only ever grows by whole frames.
- Matching every response to a request: `sendRequest` registers its callback after the write resolves, so an early reply is dropped; the model keeps that order and the request then times out.
- The callbacks of events and requests, their results and the messages sent back for them; `clearProcessedEvents`.
- Freshness of a cached value after an invalidation while a callback is in flight, which the source does not promise.
- Caches.CacheManager.InvalidateRegex: takes the set of accepted strings, so a regular expression with the g flag, whose test is stateful, is not captured.
- The delay given to the expiry timer is recorded, but when the timer fires is an event; timeliness is not promised.
- Deletion of a group between creation calls, and of an ownership between claims; edit and insert of ownerships replace the team by design and are not among the steps of the claim protocol.
- Mails to invited users, the list of a member's own invitations, group metadata and the migration of old capability strings.
- OwnershipGroups.GroupCollection.PushMember: the array save of the object mapper is taken as an atomic push that bumps the version without comparing it.
- MemberRequests.PlainMembersCannotGrow: requests of admins and of owners, and invitations they sent before, are not among the steps, because they may add capabilities.
- Role overrides in the ownership check; the two query paths are compared without them.
- GlobalVariables.GlobalVariableApply: the variables do not change during a call.
- Titles, contents and locales of documents beyond the locale check of an addition; the order of listed children.
- Blog.EveryRunKeepsInv: requests are served one at a time; `BlogSaves` has the interleaved ones.
- A field of a blog post counts as changed when its value differs from the one read; authors and times of single texts are not modelled.
- Excerpts, admin lists and the paging of blog lists.
- Paging.MappingCommutesWithPaging: a callback that uses the index of an element, which counts within the page, maps pages differently by design.
- Negative page sizes and pages, which the database rejects.
- Users, files, mail, JWT, the proxies, the IP blocker and the command line tools, which are wiring or would only add easy members.
