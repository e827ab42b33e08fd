# swpasskey: the protocol and state engine

A Dafny model of the part of swpasskey between a 64-byte report in and a 64-byte report out, and of the durable
credential state behind it, with proofs. `dafny verify dfyconfig.toml` checks all of it.

- **CBOR and the credential store.** `Cbor` says what the writer appends and the reader takes; `CborProofs` proves
  heads, values, `skip` and canonical maps; `CborIo` has the two objects. `StoreCodec` prints and parses the store
  (its flat maps by tables of columns), `StoreRoundTrip` proves that loading undoes printing for every order of
  entries and with unknown keys among them, `Store` has the operations with their save failures, rollbacks and
  restarts, and `StoreIo` the object.
- **CTAPHID.** `HidFramer` reassembles and fragments, `HidDevice` owns channels, the timer and the decisions, and
  `HidDeviceRuns` is about runs of reports and polls; `HidFramerIo` and `HidDeviceIo` have the objects.
- **The two threads.** `Loop` is a transition system in which every locked region, every report written and every
  look at the cancel token is one step; a run is any sequence of enabled steps. `LoopProofs` proves what holds under
  every interleaving, `LoopProgress` what each thread gets done in a bounded number of its own steps, and `LoopIo`
  shows the locked regions, on the object's fields, to be those steps.
- **PIN, assertions and registrations.** `ClientPin` and `Authenticator` give each operation as a function of the
  state and a `World`: what clocks, randomness, cryptography, the user and the persister do. `Runs` is any sequence of
  CTAP2, U2F and control-socket operations, each in an arbitrary world, with a crash after any part of any of them.
  `RunsPin`, `RunsToken`, `RunsCounters`, `RunsReleases`, `RunsRepeats`, `RunsUnique`, `RunsStarts`, `Enumeration` and
  `Outcomes` prove properties of runs and answers (`StoreRows` holds what they need of the store); `ClientPinIo` and
  `AuthenticatorIo` have the objects.
- **Formats.** `AuthData` (with `AuthDataIo`) is authenticator data and COSE keys, `LowSDer` low-s signatures in DER,
  `Json` (with `JsonIo`) the control socket's JSON.

A method of a class states its whole new state and result as a function of the old state; the lemmas are about those
functions, so they hold of the methods.

Cryptography is a record of functions about which nothing is assumed. A save replaces the file or fails and leaves it
(`src/store/file_store.cpp:73-103`). Times are milliseconds. `Released`, `WrongGuess` and the other events are a
history kept for the statements; the code has no such log. `Token.instance` and `PinManager.instances` number the
tokens for the same purpose. A crash in an operation leaves the file of a world in which the saves it prevents fail, and
any part of the operation's history that includes what was saved (`Runs.Happened`). Where the daemon cannot start on its
file, a run goes on as if somebody had moved the file aside, as the log message asks (`src/store/file_store.cpp:257-260`).

## Where the code is not what it says

- The declared largest message is 7609 bytes (`include/swpasskey/ctap/hid_defs.hpp:26`), but `ingest` refuses the 128th
  continuation packet before it looks whether the message is complete, while `frame` sends it. The two undo each other
  exactly up to 7550 bytes (`HidFramer.FrameRoundTrip`).
- A U2F authentication does not drop the assertions getNextAssertion still owes; handing out one of them for the row it
  used repeats a signature counter (`RunsRepeats.CountsCanRepeat`; exactly when: `RunsRepeats.PendingRepeatsExactly`),
  and where its save fails it lowers the stored one (`RunsRepeats.FailedSaveRepeats`; exactly when:
  `RunsReleases.NextKeepsExactly`). Counters also wrap at 2^32 (`RunsCounters.CountWraps`).
  `RunsReleases.CountersIncreaseExactly` says for all runs when counts repeat, and `RunsCounters.OrderlyRun` is a simple
  condition under which they do not and pending rows stay as stored.
- makeCredential ignores a failed erasure of the row it replaces, so uniqueness of discoverable credentials needs
  working saves (`RunsUnique.ReplaceExactly` says exactly when).
- A reset whose store part fails keeps the PIN token (`RunsToken.TokenEnders`), although memory is already emptied.
- A failed erasure puts the row back at the end of the list, not where it was: the rollback restores the store exactly
  when the row was the last one (`Store.EraseRestoresExactly`). `update_count_and_used` and `set_pin` leave memory ahead
  of the file when the save fails (`Store.UpdateRefines`, `Store.SetPinRefines`).
- A factory reset deletes the file's key before it stores the new one (`src/store/file_store.cpp:170-180`). If it cannot
  store it, the first save after that writes a file no later start can open (`RunsStarts.LostKeyExactly`,
  `RunsStarts.ResetCanLoseKey`; a start succeeds exactly when `Store.RestartRefines` says).
- `load_locked` does not look at bytes after the map, and no TPM seed without the `present` mark is written, so a store
  reads back with an absent TPM state cleared (exactly when: `StoreRoundTrip.RestoresExactly`).

## Model

| member | source | states |
|---|---|---|
| CborProofs.TakeHeadOf | src/cbor/cbor.cpp:113-146 | Reading any valid head, of any argument width, gives back its major type and argument and leaves exactly what follows |
| CborProofs.TakeHeadSound | src/cbor/cbor.cpp:113-146 | Whatever the reader accepts as a head is the encoding of what it returns |
| CborProofs.ShortestIsShortest | src/cbor/cbor.cpp:11-34 | The head written is at most as long as any other head for the same number |
| CborProofs.UintRoundTrip | src/cbor/cbor.cpp:42-42 | Unsigned integers round-trip over all 64-bit values, whatever follows |
| CborProofs.IntegerRoundTrip | src/cbor/cbor.cpp:168-186 | Signed integers round-trip over the full 64-bit range |
| CborProofs.StringRoundTrip | src/cbor/cbor.cpp:188-216 | Byte and text strings round-trip |
| CborProofs.BoolRoundTrip | src/cbor/cbor.cpp:218-230 | Booleans round-trip |
| CborProofs.SkipExact | src/cbor/cbor.cpp:250-300 | On any bytes, skip succeeds and leaves a given rest if and only if it took the encoding of one valid data item at most 32 levels deep |
| CborProofs.PrefixFree | src/cbor/cbor.cpp:11-81 | No encoded data item is a proper prefix of another, at any nesting: equal concatenations have equal parts |
| CborProofs.MapOrderFree | src/cbor/cbor.cpp:72-81 | For distinct keys the bytes of a map do not depend on entry order and are those of any strictly sorted arrangement |
| CborProofs.KeyOrderCanonical | src/cbor/cbor.cpp:72-81 | The bytewise order maps are written in is the CTAP2 canonical order (section 8 of CTAP 2.1): major type, length, bytes |
| CborProofs.RecordOrderFree | src/cbor/cbor.cpp:232-241 | A loop over a map's entries reads any two orders of the same entries as the same record, where its invariant for their keys determines it |
| CborIo.Writer.AppendType | src/cbor/cbor.cpp:11-40 | Appends the shortest head |
| CborIo.Writer.WriteInt | src/cbor/cbor.cpp:44-50 | Appends the encoding of a signed integer |
| CborIo.Writer.WriteMap | src/cbor/cbor.cpp:72-81 | Appends the map with its entries sorted by key bytes |
| CborIo.Reader.TakeHead | src/cbor/cbor.cpp:113-146 | Refines the head parser, and moves forward on success |
| CborIo.Reader.TakeBytes | src/cbor/cbor.cpp:148-155 | Takes n bytes or fails without moving |
| CborIo.Reader.Integer | src/cbor/cbor.cpp:168-186 | Refines the integer parser, with its two error cases |
| CborIo.Reader.SkipDepth | src/cbor/cbor.cpp:252-300 | Terminates on any bytes and declared counts, refines the recursive skip, and reads at most one head per byte consumed (one more when it fails) |
| StoreRoundTrip.RowReads | src/store/credential_store.cpp:70-152 | Every arrangement of a flat map, with entries to be skipped among its own, reads as the same row |
| StoreRoundTrip.CredentialReads | src/store/credential_store.cpp:70-152 | Every arrangement of a credential's map, with unknown keys among its own, decodes to that credential |
| StoreRoundTrip.LoadReads | src/store/credential_store.cpp:192-283 | Loading any arrangement of a printed store, with unknown text keys holding any item at most 32 levels deep at every map, and any bytes after it, restores the store |
| StoreRoundTrip.LoadSerialize | src/store/credential_store.cpp:285-328 | Loading what was printed restores credentials in order, PIN, TPM state when present, U2F attestation, serial and install id |
| Store.PutRefines | src/store/credential_store.cpp:350-376 | put takes effect in memory and on disk, as an update of the finite map from id to row, or changes nothing at all; and exactly when it succeeds |
| Store.EraseRefines | src/store/credential_store.cpp:425-440 | erase removes the row in memory and on disk, or leaves the map, the multiset of rows and the file as they were; and exactly when it succeeds |
| Store.EraseRestoresExactly | src/store/credential_store.cpp:425-440 | A failed erasure leaves the store as it was if and only if the row was the last one: any other moves to the end of the list |
| Store.UpdateRefines | src/store/credential_store.cpp:411-423 | A counter update changes one row in memory even when the save fails; the file then is untouched, otherwise it has the new row |
| Store.SetPinRefines | src/store/credential_store.cpp:501-505 | The PIN state changes in memory in any case, on disk exactly when the save succeeds |
| Store.SetU2fRefines | src/store/credential_store.cpp:534-538 | The U2F attestation likewise |
| Store.FactoryResetRefines | src/store/credential_store.cpp:466-494 | Memory is emptied but for serial and install id in any case; the file is the emptied store, the old file or gone |
| Store.ResetStartsExactly | src/store/file_store.cpp:152-181 | After a reset that failed to store its key the next start succeeds until something is saved; after one that stored it, unless the old file is neither removed nor replaced |
| Store.RestartRefines | src/store/file_store.cpp:222-300 | From every reachable state a start succeeds if and only if there is no file or the keychain has its key; memory is then exactly what the file held |
| RunsStarts.AlwaysStartsAgain | src/store/file_store.cpp:152-181 | In any run whose allowed resets store their key and remove the old file or save over it, with any other failed saves and crashes inside operations, the daemon can start on its own file at every moment |
| RunsStarts.LostKeyExactly | src/store/file_store.cpp:152-181 | Once a reset removed the file and could not store its key, and until the next reset or restart, the daemon can start again if and only if nothing has been saved since |
| RunsStarts.ResetCanLoseKey | src/store/file_store.cpp:256-262 | From any state, such a reset and one local PIN set leave a file the next start refuses |
| StoreRoundTrip.RestoresExactly | src/store/credential_store.cpp:300-307 | What is loaded is the very state that was printed if and only if it has a TPM state or none was ever filled in |
| StoreIo.ReadFlatMap | src/store/credential_store.cpp:70-152 | The loop over a flat map refines its parser: known keys by kind, unknown keys skipped |
| StoreIo.CredentialStore.LoadRows | src/store/credential_store.cpp:266-277 | Appends the rows, each decoded and validated, or fails with the first error |
| StoreIo.CredentialStore.LoadEntry | src/store/credential_store.cpp:198-281 | One key of the store's map and its value |
| StoreIo.CredentialStore.LoadLocked | src/store/credential_store.cpp:192-283 | Fills the fields with what the bytes say, or fails with the parser's error |
| StoreIo.CredentialStore.SerializeLocked | src/store/credential_store.cpp:285-328 | Prints the fields as the canonical map of sections |
| StoreIo.CredentialStore.FlushLocked | src/store/credential_store.cpp:340-348 | The file becomes the printed memory, or is left |
| StoreIo.CredentialStore.Put | src/store/credential_store.cpp:350-376 | The whole new state: replacement, append, and both rollbacks |
| StoreIo.CredentialStore.Erase | src/store/credential_store.cpp:425-440 | The whole new state: removal, and the rollback to the end of the list |
| StoreIo.CredentialStore.UpdateCountAndUsed | src/store/credential_store.cpp:411-423 | The whole new state |
| StoreIo.CredentialStore.FindByRpHash | src/store/credential_store.cpp:378-388 | Finds the discoverable rows of a relying party in order |
| StoreIo.CredentialStore.FindRow | src/store/credential_store.cpp:390-399 | Finds the first row with relying party and id |
| StoreIo.CredentialStore.SetPin | src/store/credential_store.cpp:501-505 | The whole new state |
| StoreIo.CredentialStore.FactoryReset | src/store/credential_store.cpp:466-494 | The whole new state, also when the persister fails |
| HidFramer.IngestKeepsValid | src/ctap/hid_framer.cpp:35-96 | Every reachable assembly holds 57 + 59 * next_seq bytes, fewer than announced; a completed message has at most 7550 bytes |
| HidFramer.FrameRoundTrip | src/ctap/hid_framer.cpp:35-126 | frame(m) fed to an idle reassembler, with arbitrary reports of other channels after its first one, yields m once, at its last report, if and only if the payload has at most 7550 bytes; from 7551 to 7609 bytes it ends in InvalidLen |
| HidFramer.NoiseRefused | src/ctap/hid_framer.cpp:46-75 | A report of another channel is refused and leaves an assembly alone |
| HidFramer.StreamReceived | src/ctap/hid_framer.cpp:35-126 | From the frames of a list of messages a host recovers exactly those that can be received, in order |
| HidFramer.PrefixReceived | src/ctap/hid_framer.cpp:35-126 | From a prefix of those reports it recovers a prefix of them |
| HidFramerIo.Framer.ReadReport | src/ctap/hid_framer.cpp:35-96 | The in-place reassembly step refines the pure one and keeps the assembly invariant |
| HidFramerIo.Framer.FrameMessage | src/ctap/hid_framer.cpp:98-126 | Filling one packet buffer again and again yields exactly the frames |
| HidFramerIo.Framer.Cancel | src/ctap/hid_framer.cpp:128-132 | Drops an assembly of the given channel only |
| HidFramerIo.Framer.OnTimeout | src/ctap/hid_framer.cpp:134-140 | Drops any assembly and says whether there was one |
| HidDevice.DeviceIngestKeepsValid | src/ctap/hid_device.cpp:138-234 | At most four channels with distinct ids, never 0 or broadcast; a partial message always has an armed timer |
| HidDevice.OneBytePacketIsFrame | src/ctap/hid_device.cpp:38-56 | Error and keepalive packets are the framing of their one-byte messages |
| HidDevice.DrawnIsUsable | src/ctap/hid_device.cpp:81-101 | An allocated channel id is neither 0 nor broadcast nor in use |
| HidDevice.AllocationEnds | src/ctap/hid_device.cpp:72-102 | With the RNG failing every time, allocation ends within six draws |
| HidDevice.InitAnswersNonce | src/ctap/hid_device.cpp:152-165 | A broadcast INIT is answered with its nonce and a channel id that is new and allocated from then on, without touching a partial message |
| HidDevice.TouchRecency | src/ctap/hid_device.cpp:63-70 | Using a channel moves it to the end of the recency list |
| HidDevice.ReapRecency | src/ctap/hid_device.cpp:72-80 | The channel dropped at four is the first of the recency list |
| HidDevice.OpenRecency | src/ctap/hid_device.cpp:81-101 | A new channel goes to the end of the recency list |
| HidDeviceRuns.IngestRecency | src/ctap/hid_device.cpp:63-102 | Any report takes a recency list of the channels before it to one of those after it: touch moves to the end, opening drops the first of four and appends |
| HidDeviceRuns.RunRecency | src/ctap/hid_device.cpp:63-102 | Over any run of reports and polls under an increasing clock the list stays the recency order |
| HidDeviceRuns.LeastRecentlyUsedDropped | src/ctap/hid_device.cpp:72-80 | In any such run from no channels, a channel disappears only because a fifth is opened, and every other channel was used after its last use |
| HidDeviceRuns.OwnerTimesOut | src/ctap/hid_device.cpp:123-136 | After an accepted packet, whatever other channels send and however often the device is polled meanwhile, a poll frees the message and tells its owner if and only if 500 ms have passed |
| HidDevice.OthersKeepTimer | src/ctap/hid_device.cpp:138-176 | No report of another channel touches a partial message or its timer |
| HidDevice.OwnPacketArmsTimer | src/ctap/hid_device.cpp:166-176 | Only an accepted packet of the assembly's own channel sets the timer |
| HidDevice.DispatchAndCancel | src/ctap/hid_device.cpp:178-233 | A message reaches the worker only while it is idle; a cancellation is asked for only by a whole CANCEL or INIT of the busy channel |
| HidDevice.RepliesSendable | src/ctap/hid_device.cpp:138-234 | Every direct reply can be framed and reassembled |
| HidDeviceIo.Device.OneByteReport | src/ctap/hid_device.cpp:38-56 | The packet filled byte by byte |
| HidDeviceIo.Device.InitResponse | src/ctap/hid_device.cpp:104-121 | The one packet that frames the INIT reply |
| HidDeviceIo.Device.TouchChannel | src/ctap/hid_device.cpp:63-70 | The loop that stamps a channel |
| HidDeviceIo.Device.ReapOldest | src/ctap/hid_device.cpp:73-80 | The minimum search and the removal |
| HidDeviceIo.Device.AllocateCid | src/ctap/hid_device.cpp:72-102 | The retry loop over the draws |
| HidDeviceIo.Device.PollTimeout | src/ctap/hid_device.cpp:123-136 | Refines the pure timeout step |
| HidDeviceIo.Device.IngestReport | src/ctap/hid_device.cpp:138-234 | Refines the pure ingest step, with its replies framed |
| LoopProofs.InvKept | src/daemon/loop.cpp:65-198 | Every step of either thread keeps the invariant of slot, outbox, wire, token and counts |
| LoopProofs.AnsweredOnce | src/daemon/loop.cpp:65-116 | Under every interleaving each completed transaction has exactly one response, on its own channel and command, and no other has any |
| LoopProofs.WireReassembles | src/daemon/loop.cpp:55-63 | A host reassembling the wire has at every moment a prefix of the messages sent, in order, and all of them after each batch |
| LoopProofs.AllAnsweredOnWire | src/daemon/loop.cpp:100-142 | When everything queued is written, the wire carries the response to every dispatched command |
| LoopProofs.KeepalivesPaced | src/daemon/loop.cpp:120-142 | No keepalive of a transaction follows its response; it gets at most one per 100 ms in flight |
| LoopProofs.CancelIsolated | src/daemon/loop.cpp:43-48 | A handler sees a cancellation only while stopping or when a CANCEL or INIT of its own channel, during its own transaction, came before the look |
| LoopProgress.WorkerAnswers | src/daemon/loop.cpp:65-116 | Under every interleaving that starts with a command in flight, once the worker has taken the at most three steps it has left, whatever the HID thread did between them, the transaction has its response |
| LoopProgress.HidDrains | src/daemon/loop.cpp:118-198 | Under every interleaving in which the HID thread takes a bounded number of steps without stopping or failing, whatever the worker does between them, all that was queued has been taken for writing |
| LoopProgress.BatchWritten | src/daemon/loop.cpp:55-63 | Under every interleaving, after as many steps of the HID thread as its batch has reports the batch is on the wire |
| LoopProgress.ResponseReachesHost | src/daemon/loop.cpp:65-198 | From a command in flight, three worker steps, then the HID thread's steps to its next drain and through its batch, interleaved with anything, give a reassembling host the response, if it is of receivable size |
| LoopProgress.WorkerCanAnswer | src/daemon/loop.cpp:65-116 | Such worker steps are always enabled unless stopping: three of them give the answer with the payload the handler returns |
| LoopProgress.HidCanDrain | src/daemon/loop.cpp:121-163 | So are the HID thread's, unless stopping or after a transport failure: it can by itself get everything queued onto the wire |
| LoopIo.Loop.Drain | src/daemon/loop.cpp:121-138 | The first locked region: outbox swap and keepalive decision |
| LoopIo.Loop.Ingest | src/daemon/loop.cpp:165-188 | The second locked region: ingest, cancellation, new transaction |
| LoopIo.Loop.Publish | src/daemon/loop.cpp:99-113 | The worker's locked region: response queued and slot freed at once |
| LoopIo.Loop.Take | src/daemon/loop.cpp:66-75 | The worker picks up the command and leaves the slot occupied |
| LoopIo.Loop.Stop | src/daemon/loop.cpp:43-48 | The stop flag and the token |
| RunsPin.BoundedGuessing | src/ctap/client_pin.cpp:234-287 | Over any run with failed saves, resets, and crashes between and inside operations, at most eight wrong comparisons happen between one right PIN or PIN write and the next |
| RunsToken.TokensWellUsed | src/ctap/client_pin.cpp:354-420 | Over any run, every token is issued once, and every successful verification uses one that was issued with that permission, was not dropped or ended since, is used for one relying party only, and was touched at most the idle time ago |
| RunsToken.EndedForGood | src/ctap/client_pin.cpp:153-168 | Over any run, a token used after a wrong PIN, a saved change or local set of the PIN, or a finished reset was issued after it, and not before |
| RunsToken.TokenEnders | src/ctap/client_pin.cpp:153-168 | A wrong PIN, a PIN change, a local PIN set and a restart end the token; a confirmed reset does if and only if the persister's reset and the save after it succeeded |
| Outcomes.PinCheckExactly | src/ctap/client_pin.cpp:234-287 | When the PIN check succeeds, in both directions, and that it restores the full retry budget in memory |
| Outcomes.NewPinVerifies | src/ctap/client_pin.cpp:289-319 | A newly set PIN is on disk with a full budget, and from then on exactly its hash passes the check |
| Outcomes.ChangePinTruthful | src/ctap/client_pin.cpp:321-352 | A changed PIN means the current PIN passed, the new one is on disk with a full budget, and no token is left |
| Outcomes.CtlSetPinExactly | src/ctap/authenticator.cpp:263-277 | When the control socket sets a PIN, in both directions, and that its hash is then on disk and no token left |
| ClientPinIo.CountCodePoints | src/ctap/client_pin.cpp:213-219 | The loop counts the bytes that are not continuation bytes |
| ClientPinIo.DelayFor | src/ctap/client_pin.cpp:46-57 | The doubling loop stops at the cap with the capped doubled delay |
| ClientPinIo.PinManager.PinHashFromPadded | src/ctap/client_pin.cpp:202-232 | The PIN up to its zero byte, by policy, hashed |
| ClientPinIo.PinManager.CheckPinHash | src/ctap/client_pin.cpp:234-287 | The whole new state: the lowered counter is saved before the comparison |
| ClientPinIo.PinManager.SetPin | src/ctap/client_pin.cpp:289-319 | The whole new state |
| ClientPinIo.PinManager.ChangePin | src/ctap/client_pin.cpp:321-352 | The whole new state, token dropped on success |
| ClientPinIo.PinManager.GetToken | src/ctap/client_pin.cpp:354-388 | The whole new state, the old token dropped first |
| ClientPinIo.PinManager.Verify | src/ctap/client_pin.cpp:390-420 | The whole new state: expiry, MAC, permission, binding on first use, new expiry |
| ClientPinIo.PinManager.SetPinLocal | src/ctap/client_pin.cpp:126-149 | The whole new state |
| ClientPinIo.PinManager.RegenerateKeyAgreement | src/ctap/client_pin.cpp:160-168 | Drops the token first; keeps the old key when generation fails |
| Enumeration.CandidatesMatch | src/ctap/get_assertion.cpp:186-209 | The candidates are exactly the matching stored rows, each once, even when the allowList repeats ids |
| Enumeration.EnumeratesAll | src/ctap/get_assertion.cpp:185-296 | getAssertion and getNextAssertion calls before the expiry try every matching row exactly once, newest use first with creation-time ties, and then answer NotAllowed |
| Enumeration.TriedOrNotAllowed | src/ctap/get_assertion.cpp:281-296 | A getNextAssertion call hands out the row that is due, or is refused and drops the list |
| RunsCounters.CountersIncrease | src/ctap/get_assertion.cpp:99-158 | Over any orderly run with failed saves and crashes the released counts of a credential strictly increase, none is above the count on disk, and every pending row is as stored |
| RunsReleases.CountersIncreaseExactly | src/ctap/get_assertion.cpp:99-158 | Over every run, whatever fails, wraps, collides or crashes, the released counts of each credential strictly increase if and only if no step hands out the next count of a row for which as high a count had been released |
| RunsReleases.OnlyNextRepeats | src/ctap/get_assertion.cpp:281-296 | Over any run with fresh ids, no full counter and no lowered one, that can only be a getNextAssertion |
| RunsReleases.NextKeepsExactly | src/ctap/get_assertion.cpp:281-296 | A getNextAssertion keeps all stored counts at or above the released ones if and only if it neither repeats a count nor, by a failed save or a crash after the save, lowers one |
| RunsRepeats.PendingRepeatsExactly | src/ctap/u2f.cpp:323-346 | After a U2F authentication with user presence, whatever the getNextAssertion calls that follow meet, the counts increase if and only if its row is not among those they hand out, wherever it is in the list |
| RunsRepeats.NextRepeatsExactly | src/ctap/u2f.cpp:323-346 | When it and the next getNextAssertion both succeed, the counts increase if and only if its row is not the one due |
| RunsRepeats.ThreeCommandsRepeat | src/ctap/u2f.cpp:285-357 | From every starting state with several candidates, getAssertion, a U2F authentication by the row due next, and getNextAssertion release a count twice when everything works |
| RunsRepeats.CountsCanRepeat | src/ctap/u2f.cpp:285-357 | There is such a state: two discoverable rows of one relying party |
| RunsRepeats.FailedSaveRepeats | src/ctap/get_assertion.cpp:134-139 | From every such state, after two U2F authentications by the row due next, a getNextAssertion whose save fails lowers its count, and the next U2F authentication releases one again |
| RunsCounters.StashFreshExactly | src/ctap/u2f.cpp:285-357 | A bumping U2F authentication keeps every pending row as stored if and only if its row is not pending |
| RunsCounters.CountWraps | src/ctap/get_assertion.cpp:99-158 | A released count exceeds the previous one if and only if the counter was not at its maximum; then it is 0 |
| Outcomes.ReleasedIsDurable | src/ctap/get_assertion.cpp:134-139 | Whatever count an operation releases, of CTAP2 or U2F, is on disk when it ends |
| Outcomes.AssertionTruthful | src/ctap/get_assertion.cpp:160-279 | UP in an assertion means the user allowed it and the counter was raised, UV that a live token with the permission was used; it is for a stored row of the relying party |
| Outcomes.StashTruthful | src/ctap/get_assertion.cpp:251-263 | The pending list carries the first assertion's UP and UV, and bumps counters exactly with UP |
| Outcomes.NextTruthful | src/ctap/get_assertion.cpp:281-296 | A later assertion says the same UP and UV, for the row that was due, with its next count released exactly with UP |
| Outcomes.RegistrationReplaces | src/ctap/make_credential.cpp:246-263 | With working saves and a fresh id, memory and disk end with exactly the new row and the old ones but the user's discoverable rows at this relying party |
| Outcomes.RegistrationExactly | src/ctap/make_credential.cpp:121-263 | A registration succeeds if and only if all its gates hold, a usable key was made, and the row was saved and signed for |
| Outcomes.ExclusionTold | src/ctap/make_credential.cpp:173-198 | CredentialExcluded is answered if and only if the request and its PIN authentication hold, a listed credential exists, and the user did not cancel |
| Outcomes.RegistrationTruthful | src/ctap/make_credential.cpp:265-276 | A registration always says UP after the user allowed it, UV exactly when a token was used, and never lacks UV while a PIN is set |
| Outcomes.UvMeansTokenUsed | src/ctap/authenticator.cpp:140-172 | A UV result comes from a live token that grants the permission and authenticates the request |
| Outcomes.U2fRegisterTruthful | src/ctap/u2f.cpp:183-283 | A U2F registration is answered only after the user allowed it, and its never discoverable row is on disk |
| Outcomes.U2fAuthenticateTruthful | src/ctap/u2f.cpp:285-357 | A U2F signature is for a stored row of the application and never for check-only; presence, count and release agree |
| Outcomes.ResetTruthful | src/ctap/authenticator.cpp:209-233 | A confirmed reset was allowed by the user and leaves no credential, PIN, attestation, pending assertion or token, in memory or on disk |
| Outcomes.DeleteExactly | src/ctap/authenticator.cpp:279-288 | When a deletion succeeds, in both directions, and what memory and disk then hold |
| RunsUnique.DiscoverableUnique | src/ctap/make_credential.cpp:246-263 | In every run whose saves succeed, up to the crash in operations cut off by one, and with fresh ids, no two discoverable rows share relying party and user, in memory or on disk |
| RunsUnique.ReplaceExactly | src/ctap/make_credential.cpp:246-263 | A stored registration keeps that if and only if the user had no such row or the save of its erasure succeeded, because a failed erase is ignored |
| AuthenticatorIo.Authenticator.CheckPinAuth | src/ctap/authenticator.cpp:140-172 | The whole new state and the outcome |
| AuthenticatorIo.Authenticator.FindListed | src/ctap/get_assertion.cpp:186-206 | The allowList loop |
| AuthenticatorIo.Authenticator.BuildAssertion | src/ctap/get_assertion.cpp:99-158 | The whole new state: the bump is saved before the assertion is released |
| AuthenticatorIo.Authenticator.GetAssertion | src/ctap/get_assertion.cpp:160-279 | The whole new state, the pending list and the outcome |
| AuthenticatorIo.Authenticator.GetNextAssertion | src/ctap/get_assertion.cpp:281-296 | The whole new state, the shortened list and the outcome |
| AuthenticatorIo.Authenticator.PassGates | src/ctap/make_credential.cpp:121-208 | The refusals in order |
| AuthenticatorIo.Authenticator.EraseOlds | src/ctap/make_credential.cpp:246-256 | The replacement loop, ignoring failed erasures |
| AuthenticatorIo.Authenticator.AddCredential | src/ctap/make_credential.cpp:246-276 | The whole new state: old rows erased, new row saved, then signed |
| AuthenticatorIo.Authenticator.MakeCredential | src/ctap/make_credential.cpp:121-312 | The whole new state and the outcome |
| AuthenticatorIo.Authenticator.U2fRegister | src/ctap/u2f.cpp:183-283 | The whole new state and the reply |
| AuthenticatorIo.Authenticator.U2fAuthenticate | src/ctap/u2f.cpp:285-357 | The whole new state and the reply, the bump saved first |
| AuthenticatorIo.Authenticator.Reset | src/ctap/authenticator.cpp:209-233 | The whole new state: a failed store reset keeps the token |
| AuthenticatorIo.Authenticator.CtlSetPin | src/ctap/authenticator.cpp:263-277 | The whole new state |
| AuthenticatorIo.Authenticator.CtlDelete | src/ctap/authenticator.cpp:279-288 | The whole new state |
| AuthenticatorIo.Authenticator.HandlePin | src/ctap/client_pin.cpp:422-548 | The whole new state and the answer of each PIN command |
| AuthenticatorIo.Authenticator.HandleCbor | src/ctap/authenticator.cpp:290-340 | The whole new state and the answer; every command but getNextAssertion drops the pending list first |
| AuthData.CoseReads | src/ctap/auth_data.cpp:159-193 | Every arrangement of a key's map, whatever other integer keys it has, reads back as the key |
| AuthData.CoseCanonical | src/ctap/auth_data.cpp:290-300 | A key is written as the 77-byte map with keys in the order 1, 3, -1, -2, -3 |
| AuthData.CoseRoundTrip | src/ctap/auth_data.cpp:159-193 | A written key reads back |
| AuthData.AuthDataParses | src/ctap/auth_data.cpp:327-355 | A parser after section 6.1 of WebAuthn Level 3 recovers exactly what the builders were given, if and only if the credential id has fewer than 65536 bytes |
| AuthData.RegistrationParses | src/ctap/make_credential.cpp:265-282 | The authenticator data of every successful registration reads back as the stored id and key, count 1 and the extension asked for |
| AuthData.AssertionParses | src/ctap/get_assertion.cpp:109-129 | The authenticator data of every assertion reads back, with the extension output exactly when asked for with user presence |
| AuthDataIo.ReadKey | src/ctap/auth_data.cpp:10-19 | The major type is checked before the head is read |
| AuthDataIo.ParseCoseP256 | src/ctap/auth_data.cpp:159-193 | The loop refines the parser, with its error cases |
| AuthDataIo.EncodeCoseP256 | src/ctap/auth_data.cpp:290-300 | The entry list and the writer produce the map |
| AuthDataIo.AttestedCredentialData | src/ctap/auth_data.cpp:344-355 | The bytes pushed one after the other |
| AuthDataIo.AuthenticatorData | src/ctap/auth_data.cpp:327-342 | The bytes pushed one after the other |
| LowSDer.LowSOutput | src/crypto/openssl_provider.cpp:333-368 | For all 32-byte r and s the output is strict DER of r and of an s of at most half the order, the smaller of s and n - s for s up to n, in at most 71 bytes |
| LowSDer.DecodeExact | src/crypto/openssl_provider.cpp:348-367 | The strict decoder (section 8.3 of X.690) accepts exactly that encoding for those numbers |
| LowSDer.NormalizeIdempotent | src/crypto/openssl_provider.cpp:370-385 | Normalising changes nothing in what either function has produced |
| LowSDer.EncodeInt | src/crypto/openssl_provider.cpp:348-359 | One DER INTEGER |
| LowSDer.RsToDerLowS | src/crypto/openssl_provider.cpp:333-368 | The steps produce that encoding |
| Json.JsonRoundTrip | src/ctl/json.cpp:16-259 | An object with distinct keys reads back without error if and only if it is flat, and then as exactly its fields, for all bytes in keys and strings |
| Json.ObjectBack | src/ctl/json.cpp:198-259 | For any members the parser reports the last value per key up to the first nested member |
| Json.StringBack | src/ctl/json.cpp:127-194 | Every byte string is read back with every escape undone |
| Json.DecimalBack | src/ctl/json.cpp:100-104 | The text of a number determines it |
| JsonIo.JsonWriter.WriteStr | src/ctl/json.cpp:16-47 | The escaping loop |
| JsonIo.JsonWriter.Str | src/ctl/json.cpp:94-98 | Appends one string member, with its comma |
| JsonIo.JsonWriter.Num | src/ctl/json.cpp:100-104 | Appends one number member, with its comma |
| JsonIo.JsonWriter.Boolean | src/ctl/json.cpp:106-110 | Appends one boolean member, with its comma |
| JsonIo.WriteObject | src/ctl/json.cpp:49-110 | The writer's own calls for a flat list of fields append exactly that object, with its comma |
| JsonIo.WriteThenParse | src/ctl/json.cpp:49-259 | What the writer's calls produce, the parser reads back as exactly the fields, for distinct keys |
| JsonIo.ReadString | src/ctl/json.cpp:127-194 | The index-driven loop refines the string parser |
| JsonIo.ParseFlatJson | src/ctl/json.cpp:198-259 | The index-driven loop refines the object parser, with its errors |

## Left out

- CborIo.Writer.WriteMap: the sort is the insertion sort of `Cbor.SortByKey`; for entries with equal keys, whose order `std::sort` leaves open, the model picks one.
- StoreIo.ReadFlatMap: the chain of comparisons with key names is a table of columns searched in order; the same keys, kinds and casts.
- StoreRoundTrip.LoadSerialize: counts of rows are below 2^64, strings shorter than 2^64 bytes.
- HidDevice.DeviceIngestKeepsValid: `allocate_cid` loops until a draw is usable; the model takes the list of draws, and where that list does not end the loop the request is left unanswered. `HidDevice.AllocationEnds` is about the failing RNG only; a working RNG that keeps drawing taken ids is not bounded.
- HidDeviceIo.Device.AllocateCid: the fallback counter is a field of the device here, a function-local static in the code.
- LoopProofs.AnsweredOnce: mutexes, condition variables and atomics are taken at their word: a locked region is one step. Logging, statistics and the read timeouts are not modelled.
- LoopProofs.WireReassembles: direct errors on channel 0 and responses of more than 7550 bytes are on the wire but cannot be reassembled; `HidFramer.Receivable` leaves exactly those out. Responses of more than 7609 bytes are framed as nothing, as in the code.
- LoopIo.Loop.Drain: `run` and `worker_main` are not methods: their locked regions are, and how those interleave is the transition system's business.
- Store.RestartRefines: locks, permissions, a damaged or truncated file other than by a reset, and a start on no file that cannot store its key or write its file are not modelled; an old file that a reset could neither remove nor leave readable is one that cannot be opened.
- JsonIo.WriteObject: the loop stands for a caller's calls one after the other; the code has no such method.
- RunsCounters.CountersIncrease: about released counters with user presence; registrations count as releasing 1, U2F registrations release nothing.
- RunsToken.TokensWellUsed: a token's age is measured between the readings of the clock in the operations that use it.
- AuthenticatorIo.Authenticator.GetAssertion: parsing of request bodies, the CBOR of responses other than authenticator data, and hmac-secret outputs are not modelled; a request is a record, a malformed body is `Harmless`, and what those commands answer is given with the command.
- AuthenticatorIo.Authenticator.U2fAuthenticate: APDU parsing, lengths and status bytes are not modelled, nor is the reply's byte layout.
- AuthenticatorIo.Authenticator.MakeCredential: key, id and wrapped secret are one outcome that is there or not; destroying keys is not modelled.
- AuthenticatorIo.Authenticator.Reset: key destruction and the backend's own state are not modelled; its re-initialisation is an outcome.
- LowSDer.NormalizeIdempotent: OpenSSL's reader is any function that reads strict DER as what it encodes.
- AuthData.RegistrationParses: the attestation statement and its signature are not modelled.
- Json.JsonRoundTrip: what is read is text: numbers and booleans as written, as in the code.
- The in-memory store without a persister, TPM state operations, `set_serial`, `set_install_id`: they add nothing to the store's failure rules.
- The store's file envelope, key chains, TPM and Secure Enclave backends, transports, the control socket's server, prompts, logging, metrics, CLI and getInfo: input and output around the engine.
- Clearing of memory and constant-time comparison: not visible in results.
