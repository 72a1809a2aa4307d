# A verified model of a C binder library

This project models, in Dafny, the parts of a C rewrite of Android's libbinder (and of the C++ service registry that works
across CPUs) whose correctness is hardest to see from one function at a time, and proves what the code is meant to
guarantee. One module stands for one component:

| file | component |
|---|---|
| `RefBase.dfy`, `RefBaseCalls.dfy` | the lock-free reference counts of `RefBase.c`: a machine whose steps are single atomic accesses of any number of threads, and the C functions as methods whose every access is a step of that machine |
| `BpBinder.dfy`, `BpBinderCalls.dfy` | death links of a proxy: a machine whose steps are locked sections and single reports of any number of threads, and the C functions as methods whose every section is a step of it |
| `IPCThreadState.dfy` | a binder thread that calls out, waits, and serves other transactions and the driver's reference commands while it waits, to any depth |
| `PostWriteDerefs.dfy`, `PostWriteDerefsCalls.dfy` | the temporary references that pool threads hold until a command has reached the driver: a machine in which a count change and the command it causes are separate steps, and the C functions over it |
| `ParcelCodec.dfy`, `Parcel.dfy`, `ParcelCuts.dfy`, `ParcelObjects.dfy`, `ParcelItems.dfy` | the growable parcel buffer: byte layout, growth, padding masks, object table and its reference ledger, what breaks them, objects sent from one parcel to another, typed reads and writes |
| `Status.dfy` | exceptions carried in a parcel |
| `HashMap.dfy` | the chained hash table, with linked entries on the heap that growing relinks |
| `Vector.dfy` | the growing and shrinking array |
| `CpcServiceManager.dfy`, `CpcShim.dfy` | the cross-CPU registry and its client side |
| `SocketQueue.dfy` | the stream queue over short socket transfers |
| `Sums.dfy` | sums over sequences and C strings, which several modules count with |

Sizes are those of a 64-bit target: 8-byte pointers, 24-byte `flat_binder_object`, little-endian words. Allocation
succeeds except where a failure is named. System calls, the driver, and other threads and processes are parameters, scripts
or nondeterministic choices. A method named `Others` stands for what other threads do in between. In
`BpBinderCalls` and `PostWriteDerefsCalls` that is any run of their steps in the machine: `BpBinderCalls.OtherStep`, `PostWriteDerefsCalls.OtherStep` and their runs show that whatever
another thread does keeps what a thread relies on.

## How the models are built

*Reference counts.* `RefBase.State` holds both counts, the program point of every thread, a ledger of the references that
finished calls have given to clients, and a history of callbacks. A client may enter a function only while the weak count
is positive or before the first reference was taken, and attemptIncWeak at any time; the assertions that `RefBase.c` makes about its clients (an
increment by someone who holds nothing, more than `MAX_COUNT` references) are guards of the steps, and the assertions that
the library makes about itself are theorems. The lifetime flag does not change after construction; `decWeak`'s look at the
flags and the strong count, and `onLastWeakRef` with the delete call that follows, are one step each. `RefBase_delete` and
`RefBase_weakref_impl_delete` have no effect in the source, so their calls are counted. In `RefBaseCalls` the compare-and-swap
may fail for no reason, and other threads may bring the machine into any reachable state that leaves this thread where it
is, keeps the references it holds, does not bring a dead object back except by forceIncStrong, and stays below
`MAX_COUNT`, finitely often during one call.

*Death links.* Accepted links are numbered. A thread in `sendObituary` stands before the unlocked look, past it, or has a
list still to report; the list, the fates of all links and the commands to the driver are the shared state. `quiet`, in
the classes over a machine, adds what a call does when no other thread runs.

*Driver conversation.* The driver is a script of read results of any length and content. It takes whole write buffers;
when the script ends it reports a closed file. Handlers are arbitrary programs over what a handler can do with its thread.
The references that the driver asks for are counted for one arbitrary local object, acknowledgements for one arbitrary
acknowledgement. `IPCThreadState.Open` replays what the driver sees: it takes each reply for the innermost open request. `PostWriteDerefs` follows one
arbitrary proxy over any number of pool threads; in it the two vectors are emptied before rather than after the loop that
drops their entries, which no call can observe.

*Parcels.* `Parcel.Buffer.refs` counts the strong references that the parcel holds on one arbitrary local binder, so the
ledger covers every local binder. Memory that the source leaves uninitialised (new buffer bytes, lengths and the last byte
of an array on the stack) holds arbitrary values. `ParcelItems.Emit` says what a run of writes appends when any of them
may be refused.

*Socket.* Bytes sent and bytes delivered are logs of their own; the stream holds what is in between.

*Registry.* `After`, `Outcome` and `Notices` say what each call does; the class methods are proved equal to them and the
theorems speak about all runs of calls. The death-link count is kept for one arbitrary binder.

## Where the code and its promises differ

- `forceIncStrong` on an object of strong lifetime whose count is already zero brings it back, and the object is deleted
  again (`RefBase.ForcedObjectIsDeletedTwice`). `RefBase.StrongZeroIsFinalUnlessForced` says exactly when zero is final,
  `RefBase.StrongLifetimeEndsOnce` that there is one delete call for each time the count is back at zero.
- Each death report takes a weak reference on the proxy that nothing in the death protocol drops: the references held
  match the unanswered requests if and only if nothing was reported (`BpBinder.WeakRefsMatchUntilReport`;
  `BpBinder.ReportKeepsReference` is a run that leaves one behind).
- A release and an acquire of one proxy can meet in one write buffer, in that order. It happens in exactly the runs in
  which some thread brings the proxy back from zero while its own release is unsent
  (`PostWriteDerefs.ReleaseMeetsAcquireIffRevived`, with a run in `PostWriteDerefs.ReleaseBeforeAcquire`).
- `Parcel_write` returns the recorded error when a growth is refused, so it can report success without writing anything;
  `Parcel.Buffer.Write` says exactly when it writes, and `Parcel.RefusedWriteLooksFine` gives an input. Strings inherit
  this: exactly when there is room for the length word and not for the characters, a string is cut down to its length
  (`ParcelItems.WriteString16`, with an input in `ParcelItems.HalfAString`), and so do statuses (`Status.LooksWritten`,
  `Status.MessageLost`).
- Shrinking a parcel through the middle of a recorded object can break its reference ledger on a later write, if and only
  if the kept bytes may be those of a local binder (`ParcelCuts.CutBreaksLedger`). `ParcelCuts.CutAndRefill` says when the
  calls leave it broken, `ParcelCuts.BrokenLedger` is such a run, and the ledger holds whenever the cut spares every object.
- `writeObject` decides whether its table has room before it grows the buffer, and growing a buffer of the driver's shrinks
  the table's capacity. `Parcel.Buffer.WriteObject` says exactly when it then stores outside the table,
  `ParcelCuts.StoreOutside` how that is reached.
- A buffer of the driver's that is shrunk below its cursor, or through an object, leaves cursor or table outside the new
  buffer, and those are the only cases (`Parcel.Buffer.SetDataSize`).
- A status whose message has more than 64 characters overruns the String that receives it, and one whose terminator is
  missing makes the reader abort; `Status.WhenTooLong` and `Status.WhenUnterminated` say exactly which bytes do that, with
  inputs in `Status.LongMessage` and `Status.NoTerminator`. A message of exactly 64 characters comes back with a stray
  last byte.
- A status with the exception `EX_HAS_REPLY_HEADER` never comes back as itself, and after an `EX_PARCELABLE` status the
  reader's cursor stops four bytes before the end of what was written (`Status.ParseRoundTrip`).
- The registry accepts service names with slashes, which clients then cannot look up (`CpcShim.FoundUnlessSlashed`).

## Model

| member | source | states |
|---|---|---|
| `RefBase.EffectConserves` | binderlib/utils/RefBase.c:340-393 | every atomic access keeps both ledgers balanced: what the counts gain, holders or calls in flight gain |
| `RefBase.StepKeepsInv` | binderlib/utils/RefBase.c:184-280 | every step of every thread, in any interleaving, keeps the count, callback and deletion invariants |
| `RefBase.RunKeepsInv` | binderlib/utils/RefBase.c:184-412 | the invariants hold after every run of any number of threads |
| `RefBase.BiasIsRemovedOnce` | binderlib/utils/RefBase.c:347-358 | at most one thread ever sees the bias as the old value and removes it, and until it does the count stays above the bias, so the library's own assertion on the old value holds |
| `RefBase.BiasNeverReturns` | binderlib/utils/RefBase.c:45-45 | once the first strong reference is taken the count never reads as the bias again |
| `RefBase.CountsMatchLedger` | binderlib/utils/RefBase.c:340-393 | the unbiased strong count is strong holders plus calls in flight, the weak count covers it, neither overflows |
| `RefBase.MasksAreRanges` | binderlib/utils/RefBase.c:55-61 | the bit masks of the two sanity checks let through exactly the ranges the proofs use |
| `RefBase.DecrementsAreSafe` | binderlib/utils/RefBase.c:190-190 | neither "too many times" check can fail for a caller that holds a reference |
| `RefBase.HolderMayIncrement` | binderlib/utils/RefBase.c:347-370 | while some client holds a strong reference the checks of both increments hold |
| `RefBase.CallbacksBalance` | binderlib/utils/RefBase.c:241-250 | weak lifetime, nothing in flight: onFirstRef calls plus accepted attempts less onLastStrongRef calls is one exactly while referenced, compensations included |
| `RefBase.WeakZeroIsFinal` | binderlib/utils/RefBase.c:262-280 | once the weak count has come back to zero it stays zero in every continuation, also when attemptIncWeak is called then |
| `RefBase.StrongZeroIsFinalUnlessForced` | binderlib/utils/RefBase.c:220-240 | strong lifetime: zero is final in a run if and only if no forceIncStrong finds a zero count; racing attemptIncStrong calls never bring it back |
| `RefBase.RunIsLater` | binderlib/utils/RefBase.c:395-412 | in every run a dead object of strong lifetime stays dead until forceIncStrong revives it |
| `RefBase.GivesUpOnlyUnreferenced` | binderlib/utils/RefBase.c:216-224 | in every run an attemptIncStrong that leaves its first loop without a reference read zero or the bias when it left: a swap lost to another thread never makes it give up |
| `RefBase.FailsOnlyWhenDead` | binderlib/utils/RefBase.c:225-241 | strong lifetime, every run: attemptIncStrong fails only if the count was zero at a moment of that call, and so only on an object that is dead when it fails unless forceIncStrong has revived it since |
| `RefBase.ForcedObjectIsDeletedTwice` | binderlib/utils/RefBase.c:395-412 | a run in which forceIncStrong revives a deleted object, which is then deleted again |
| `RefBase.StrongLifetimeEndsOnce` | binderlib/utils/RefBase.c:374-393 | strong lifetime, every run: with no call in flight onLastStrongRef and the delete call were each made once for every time the count came back to zero, so a dead object was deleted exactly once if and only if nobody revived it; the control block goes at most once, and after both |
| `RefBase.WeakLifetimeEndsOnce` | binderlib/utils/RefBase.c:205-208 | weak lifetime: the object is deleted once, exactly when the last weak reference is gone |
| `RefBaseCalls.Object.IncStrong` | binderlib/utils/RefBase.c:340-359 | among any interference the caller ends with one strong reference more, or the assertion on the old count fails, exactly because that count was zero; alone, the first call removes the bias |
| `RefBaseCalls.Object.IncStrongRequireStrong` | binderlib/utils/RefBase.c:361-372 | a holder gains one reference and both counts rise by one |
| `RefBaseCalls.Object.ForceIncStrong` | binderlib/utils/RefBase.c:395-412 | the caller gains a reference from the biased, a zero or a positive count |
| `RefBaseCalls.Object.DecStrong` | binderlib/utils/RefBase.c:374-393 | the holder ends with one reference less, its weak half given back too |
| `RefBaseCalls.Object.DecWeak` | binderlib/utils/RefBase.c:184-209 | the holder ends with one weak reference less |
| `RefBaseCalls.Object.IncWeak` | binderlib/utils/RefBase.c:168-174 | the caller gains a weak reference |
| `RefBaseCalls.Object.AttemptIncStrong` | binderlib/utils/RefBase.c:211-260 | under any interference: succeeds for a thread that holds a reference and for an object that accepts; on an object of strong lifetime it fails only when that is dead, unless it was revived meanwhile; leaves nothing behind when it fails; alone, succeeds exactly when the lifetime rules allow |
| `RefBaseCalls.Object.FirstLoop` | binderlib/utils/RefBase.c:216-224 | the first compare-and-swap loop ends, swaps only a live unbiased count, and gives up only on a count of zero or the bias, so never for a thread that holds a reference |
| `RefBaseCalls.Object.BiasLoop` | binderlib/utils/RefBase.c:227-240 | the second loop, strong lifetime: it ends, never raises a zero count, and gives up only on one |
| `RefBaseCalls.Object.SlowPath` | binderlib/utils/RefBase.c:225-249 | past the first loop: a weak-lifetime object decides alone, a strong-lifetime one refuses only when it is dead, unless it was revived meanwhile |
| `RefBaseCalls.Object.AskAndAdd` | binderlib/utils/RefBase.c:242-249 | weak lifetime: asks the object, adds, and compensates when it was referenced after all |
| `RefBaseCalls.Object.AttemptIncWeak` | binderlib/utils/RefBase.c:262-280 | for any caller: never fails for a thread that holds a reference, and fails only when the count is zero; alone, succeeds exactly on a positive count |
| `RefBaseCalls.Object.HeldMeansStrong` | binderlib/utils/RefBase.c:347-348 | a held strong reference shows in the count |
| `BpBinder.StepKeepsInv` | binderlib/base/BpBinder.c:285-506 | every locked section and every report of any thread keeps the links, the accounts and the report count in step |
| `BpBinder.RunKeepsInv` | binderlib/base/BpBinder.c:285-506 | so they hold after every run of any number of threads |
| `BpBinder.EachLinkHasOnePlace` | binderlib/base/BpBinder.c:404-436 | in every run each accepted link is on the list, with exactly one thread that is reporting, or discharged, and has been discharged exactly once in the last case only, also when several sendObituary calls pass the unlocked check |
| `BpBinder.AllDischargedOnce` | binderlib/base/BpBinder.c:404-436 | once an obituary was sent and all calls have returned, every link ever accepted was discharged exactly once |
| `BpBinder.NoLinkAfterObituary` | binderlib/base/BpBinder.c:298-322 | once an obituary was sent no continuation accepts another link |
| `BpBinder.AccountsBalance` | binderlib/base/BpBinder.c:300-361 | requests less clears is one exactly while some link is on the list; binderDied calls are the reported links; the weak references held are accounted for |
| `BpBinder.WeakRefsMatchUntilReport` | binderlib/base/BpBinder.c:438-454 | the weak references held are the unanswered requests if and only if nothing was reported |
| `BpBinder.ReportKeepsReference` | binderlib/base/BpBinder.c:438-454 | a run that ends with everything answered and a weak reference left |
| `BpBinderCalls.OtherStep` | binderlib/base/BpBinder.c:285-506 | a step of another thread keeps what this thread relies on |
| `BpBinderCalls.OthersLeave` | binderlib/base/BpBinder.c:404-436 | other threads can neither move this thread nor take back an obituary or a death |
| `BpBinderCalls.Proxy.LinkToDeath` | binderlib/base/BpBinder.c:285-322 | refused after an obituary; otherwise one link more, and a driver request for the first one only |
| `BpBinderCalls.Proxy.UnlinkToDeath` | binderlib/base/BpBinder.c:324-361 | discharges exactly the first matching link, and withdraws the request with the last one |
| `BpBinderCalls.Proxy.SendObituary` | binderlib/base/BpBinder.c:404-436 | among any steps of other threads: when it returns nothing is linked; alone, every link that was linked is reported, each once, and the request is withdrawn once |
| `BpBinderCalls.Proxy.TakeObituaries` | binderlib/base/BpBinder.c:413-424 | the locked section takes the whole list: what was linked is being reported, nothing else changes, and the request is withdrawn once |
| `BpBinderCalls.Proxy.ReportAll` | binderlib/base/BpBinder.c:429-435 | every link taken is reported once, among other threads' steps |
| `BpBinderCalls.Proxy.ReportOneDeath` | binderlib/base/BpBinder.c:438-454 | exactly the next link it took is reported |
| `BpBinderCalls.Proxy.OnLastStrongRef` | binderlib/base/BpBinder.c:483-496 | afterwards the list is gone, the request withdrawn exactly if there was one, every link that was linked is dropped with one discharge, and every other link is as it was |
| `BpBinderCalls.Proxy.ClearDeathNotificationDone` | binderlib/base/IPCThreadState.c:997-1002 | each answered clear gives back one weak reference |
| `BpBinder.FateIsFinal` | binderlib/base/BpBinder.c:324-454 | in every continuation of every run a discharged link keeps its discharge, and any link only moves forward |
| `BpBinder.FirstMatch` | binderlib/base/BpBinder.c:336-357 | the entry that the search stops at is the first that matches, and none if none does |
| `BpBinder.LinkIsFound` | binderlib/base/BpBinder.c:315-357 | in every run an accepted link is found by unlinkToDeath if and only if that is given its flags and its recipient, or no recipient and its cookie, and no earlier link is like that; unlinking it restores the list |
| `IPCThreadState.Thread.ServeTransaction` | binderlib/base/IPCThreadState.c:878-988 | whatever the handler does, to any depth: the eight identity fields are restored, every look of the handler is made and sees its own sender, and a two-way request is answered with what its sender is to be told: that the target is gone, the handler's error, or success |
| `IPCThreadState.Thread.RunHandler` | binderlib/base/IPCThreadState.c:936-947 | the handler sees its own sender as the caller, also after nested calls return, and its calls are written |
| `IPCThreadState.Thread.WaitForResponse` | binderlib/base/IPCThreadState.c:546-646 | waiting keeps the identity and all accounts, and ends; its result is that of the first command, among those it took itself, that ends such a wait, and it takes nothing after that one; without one the driver is closed |
| `IPCThreadState.Thread.Transact` | binderlib/base/IPCThreadState.c:430-466 | the command is written next, the caller's identity survives the call, and the result is that of the last command taken, which must answer such a call |
| `IPCThreadState.Thread.SendReply` | binderlib/base/IPCThreadState.c:533-544 | writes the reply, which closes the innermost open request if it is what that is to be told, keeps the identity, and reports what the last command taken says |
| `IPCThreadState.Thread.TalkWithDriver` | binderlib/base/IPCThreadState.c:648-750 | hands over the whole out-buffer or nothing, reads only when nothing is left to execute |
| `IPCThreadState.Thread.ExecuteCommand` | binderlib/base/IPCThreadState.c:794-1030 | every command keeps the identity and leaves no request open; the driver's increments are acknowledged at once and its decrements put off |
| `IPCThreadState.Thread.ServeDeath` | binderlib/base/IPCThreadState.c:990-995 | the acknowledgement is written last, after the recipients' own calls, all of which are written |
| `IPCThreadState.Thread.GetAndExecuteCommand` | binderlib/base/IPCThreadState.c:261-308 | one turn of the looper keeps the identity and leaves no request open |
| `IPCThreadState.Thread.ExecuteRefs` | binderlib/base/IPCThreadState.c:808-860 | an increment of the driver takes and acknowledges one reference, a decrement waits in its vector and drops none |
| `IPCThreadState.Thread.ProcessPendingDerefs` | binderlib/base/IPCThreadState.c:310-344 | drops exactly what waits, the weak references before the strong ones, and leaves nothing |
| `IPCThreadState.Thread.JoinThreadPool` | binderlib/base/IPCThreadState.c:361-403 | ends or aborts for every script, aborts only on an unexpected result, and leaves with nothing to drop or to send |
| `IPCThreadState.Serve` | binderlib/base/IPCThreadState.c:261-403 | whole runs of a pool thread, for every script and every handler: every reply answers the innermost open request with what its sender is to be told and no request stays open, so each value is replied once for each request that calls for it; every increment and every death is acknowledged once, with its own command; honest identities; no command lost or repeated; at the end the references held for the driver are those it asked for less those it gave back |
| `IPCThreadState.EveryRequestAnswered` | binderlib/base/IPCThreadState.c:949-957 | as long as no reply is wrong, every value has been replied once for each request that calls for it, save the open ones |
| `PostWriteDerefs.StepKeepsInv` | binderlib/base/IPCThreadState.c:346-496 | every step of any pool thread keeps the reference and command accounts |
| `PostWriteDerefs.RunKeepsInv` | binderlib/base/IPCThreadState.c:346-496 | so they hold in every run, with count change and command apart |
| `PostWriteDerefs.AcquiresMatchReferences` | binderlib/base/BpBinder.c:463-481 | at every step acquires less releases, sent or waiting, is one exactly while the proxy is referenced, up to the commands that threads have still to write; exactly so when none has; the driver never sees more releases than acquires |
| `PostWriteDerefs.WaitingAcquireHolds` | binderlib/base/IPCThreadState.c:468-477 | while an acquire waits in a buffer the proxy is referenced, its thread holds the one temporary reference and no other buffer has an acquire |
| `PostWriteDerefs.ReleaseMeetsAcquireIffRevived` | binderlib/base/BpBinder.c:463-481 | a release and an acquire meet in one buffer in exactly those runs in which a thread brings the proxy back from zero with its own release unsent |
| `PostWriteDerefs.ReleaseBeforeAcquire` | binderlib/base/ProcessState.c:229-239 | a run that leaves a release before an acquire in one buffer |
| `PostWriteDerefsCalls.OtherStep` | binderlib/base/IPCThreadState.c:346-496 | a step of another thread keeps what this thread relies on |
| `PostWriteDerefsCalls.Pool.IncStrong` | binderlib/base/BpBinder.c:463-471 | among any steps of other threads: exactly the call that found no reference writes an acquire |
| `PostWriteDerefsCalls.Pool.IncStrongHandle` | binderlib/base/IPCThreadState.c:468-477 | writes the acquire and keeps a temporary reference |
| `PostWriteDerefsCalls.Pool.DecStrong` | binderlib/base/BpBinder.c:473-481 | exactly the call that drops the last reference writes a release |
| `PostWriteDerefsCalls.Pool.DecStrongHandle` | binderlib/base/IPCThreadState.c:479-484 | writes the release |
| `PostWriteDerefsCalls.Pool.IncWeakHandle` | binderlib/base/IPCThreadState.c:486-496 | a new proxy writes an increment and takes a temporary weak reference |
| `PostWriteDerefsCalls.Pool.TalkWithDriver` | binderlib/base/IPCThreadState.c:730-741 | temporary references are dropped only after the buffer that carries their command was consumed, each once, among other threads' steps |
| `PostWriteDerefsCalls.Pool.Consume` | binderlib/base/IPCThreadState.c:346-359 | the references to drop are exactly those of the acquire and increment commands consumed |
| `PostWriteDerefsCalls.Pool.DropStrong` | binderlib/base/IPCThreadState.c:354-358 | a dropped reference that was the last one writes a release |
| `PostWriteDerefs.OverReleaseConcat` | binderlib/base/IPCThreadState.c:468-484 | a buffer handed over keeps the driver from ever seeing more releases than acquires |
| `ParcelCodec.WordRoundTrip` | binderlib/base/Parcel.c:751-759 | a little-endian word of any width gives its value back |
| `ParcelCodec.Int32RoundTrip` | binderlib/base/Parcel.c:746-754 | so does every signed 32-bit value |
| `ParcelCodec.ObjectRoundTrip` | binderlib/base/Parcel.c:515-518 | so does a 24-byte object record |
| `ParcelCodec.MasksAreArithmetic` | binderlib/base/Parcel.c:53-62 | on machine words the padding and byte masks are the arithmetic of the model |
| `ParcelCodec.MaskKeepsExactly` | binderlib/base/Parcel.c:333-345 | the mask keeps exactly the written bytes of the last word and clears exactly the pad bytes |
| `Parcel.Buffer.ContinueWrite` | binderlib/base/Parcel.c:82-257 | growing keeps contents and cursor; shrinking cuts them; the kept entries are those below the new size; cursor and table end inside the buffer unless a buffer of the driver's is shrunk below its cursor or through an object; the ledger survives when no object is cut, also when a foreign buffer is taken over |
| `Parcel.Buffer.DropObjects` | binderlib/base/Parcel.c:174-202 | each dropped entry is released once |
| `Parcel.Buffer.TakeOver` | binderlib/base/Parcel.c:109-171 | taking over copies what stays and acquires exactly its objects; what it leaves is in order exactly when cursor and objects end within the copy |
| `Parcel.KeptIsExact` | binderlib/base/Parcel.c:96-107 | shrinking drops exactly the entries at or past the new size |
| `ParcelCuts.CutBreaksLedger` | binderlib/base/Parcel.c:97-107 | after a cut through an object some write of the missing bytes makes the kept entry stand for something else, if and only if the kept bytes may be those of a local binder |
| `ParcelCuts.CutAndRefill` | binderlib/base/Parcel.c:883-896 | setDataSize through an object and a write of the missing bytes: the ledger holds afterwards if and only if the entry still stands for what it stood for |
| `ParcelCuts.BrokenLedger` | binderlib/base/Parcel.c:883-896 | a run that breaks it: any local binder, its last four bytes cut off and any other four written |
| `Parcel.TableRefsSplit` | binderlib/base/Parcel.c:972-1008 | the references of a table are those of its parts, which the release and acquire loops walk |
| `Parcel.Buffer.ReleaseObjects` | binderlib/base/Parcel.c:972-989 | releases every entry's reference once |
| `Parcel.Buffer.AcquireObjects` | binderlib/base/Parcel.c:991-1008 | acquires every entry's reference once |
| `Parcel.Buffer.FreeData` | binderlib/base/Parcel.c:1010-1039 | a freed parcel is empty and holds no reference |
| `Parcel.Buffer.GrowData` | binderlib/base/Parcel.c:287-302 | succeeds exactly within the limits, leaves the data alone and gives exactly the larger of the old capacity, three halves and 128 bytes |
| `Parcel.GrowthCoversObject` | binderlib/base/Parcel.c:537-541 | growing by a pointer's size always leaves room for a whole object |
| `Parcel.Buffer.WriteAligned` | binderlib/base/Parcel.c:304-316 | writes the bytes at the cursor exactly when there is room now or after growing; otherwise changes nothing |
| `Parcel.Buffer.WriteInplace` | binderlib/base/Parcel.c:318-355 | reserves the bytes with their pad bytes zero and everything else as it was |
| `Parcel.Buffer.Write` | binderlib/base/Parcel.c:788-799 | writes the padded bytes exactly when it can; otherwise changes nothing and reports the recorded error |
| `Parcel.RefusedWriteLooksFine` | binderlib/base/Parcel.c:793-798 | an input for which success is reported and nothing is written |
| `Parcel.Buffer.WriteObject` | binderlib/base/Parcel.c:508-561 | stores outside its table exactly when growing took the driver's table with spare slots over and the object is to be recorded; otherwise succeeds exactly when growth by a pointer does and the object is no refused descriptor, and then records and references it |
| `ParcelCuts.StoreOutside` | binderlib/base/Parcel.c:508-561 | a run in which writeObject stores outside its table: a buffer of the driver's with an object of unknown type, then an object written at its end |
| `Parcel.RecordObject` | binderlib/base/Parcel.c:530-534 | appending an object adds exactly its own references to what the table stands for |
| `ParcelObjects.Transfer` | binderlib/base/Parcel.c:508-624 | any objects of the three types written to one parcel, handed over with its table and read in another: each comes back as it was written, save exactly those that are neither recorded nor null |
| `ParcelObjects.TableIsValid` | binderlib/base/Parcel.c:1080-1112 | the receiver accepts the whole table of such a parcel |
| `Parcel.Buffer.SetDataSize` | binderlib/base/Parcel.c:883-896 | the size becomes what was asked for, the common prefix stays, the ledger survives when no object is cut; cursor and table end inside exactly as for continueWrite |
| `Parcel.Buffer.SetDataCapacity` | binderlib/base/Parcel.c:898-907 | gives the capacity and changes nothing else |
| `Parcel.Buffer.SetDataPosition` | binderlib/base/Parcel.c:1257-1269 | moves the cursor only; the bounds still hold exactly when it is within the data |
| `Parcel.Buffer.ReadAligned` | binderlib/base/Parcel.c:259-268 | the next bytes, exactly when there are enough |
| `Parcel.Buffer.ReadInplace` | binderlib/base/Parcel.c:357-371 | the same with padding |
| `Parcel.Buffer.Read` | binderlib/base/Parcel.c:770-786 | the same into the caller's memory |
| `Parcel.Buffer.FindObject` | binderlib/base/Parcel.c:589-616 | never finds an offset that is not there; on an ordered table finds it if and only if it is there, from every hint |
| `Parcel.Buffer.ReadObject` | binderlib/base/Parcel.c:563-624 | gives only an object that is recorded or null, and on an ordered table exactly then |
| `Parcel.Buffer.IpcSetDataReference` | binderlib/base/Parcel.c:1064-1112 | afterwards the table is the given one if it is increasing, non-overlapping and of known types, and empty otherwise |
| `Parcel.ValidStep` | binderlib/base/Parcel.c:1080-1110 | checking each entry against its predecessor decides the whole table |
| `ParcelItems.DecodeEncode` | binderlib/base/Parcel.c:746-842 | reading a written item gives it back and stops where its bytes stop |
| `ParcelItems.StrRoundTrip` | binderlib/base/Parcel.c:801-842 | so does every NUL-free string that a String can hold |
| `ParcelItems.FlagIsAnyBit` | binderlib/base/Parcel.c:1051-1057 | a flag is read as false exactly when its four bytes are zero |
| `ParcelItems.WriteInt32` | binderlib/base/Parcel.c:751-754 | writes four bytes exactly when there is room |
| `ParcelItems.WriteString16` | binderlib/base/Parcel.c:801-820 | writes length and padded characters, or only the length, or nothing, by the exact room for each; what it reports in each case |
| `ParcelItems.HalfAString` | binderlib/base/Parcel.c:801-820 | an input for which a string is reported as written and only its length is there |
| `ParcelItems.EmitConcat` | binderlib/base/Parcel.c:304-355 | what a run of writes appends is what its first part appends followed by what the rest appends after it |
| `ParcelItems.AllOrNot` | binderlib/base/Parcel.c:304-355 | a run of writes appends everything if and only if each write has room after the ones before it |
| `ParcelItems.ReadInt32` | binderlib/base/Parcel.c:746-749 | the value at the cursor, or nothing changed |
| `ParcelItems.ReadString16` | binderlib/base/Parcel.c:373-393 | the string at the cursor whatever the uninitialised length was; a missing terminator aborts |
| `ParcelItems.WriteAll` | binderlib/base/Parcel.c:746-820 | any run of typed writes within the limit appends exactly the items' bytes and keeps the ledger |
| `ParcelItems.ReadAll` | binderlib/base/Parcel.c:746-842 | the matching reads give the items back and end at the data size |
| `ParcelItems.RoundTrip` | binderlib/base/Parcel.c:746-842 | typed writes, a rewind and the matching reads: same values, nothing left over |
| `Status.ParseIsSafe` | binderlib/base/Status.c:109-204 | on any bytes on which the read returns, the cursor stays within the data and every failure is recorded as a failed transaction with the same code |
| `Status.WhenTooLong` | binderlib/utils/BinderString.c:32-53 | the read overruns its String if and only if a message is there with its terminator and its first 65 bytes are characters |
| `Status.WhenUnterminated` | binderlib/base/Parcel.c:373-393 | the read aborts if and only if a message is there without its terminator |
| `Status.LongMessage` | binderlib/utils/BinderString.c:49-53 | every text of more than 64 characters, written as a message, overruns |
| `Status.NoTerminator` | binderlib/base/Parcel.c:388-391 | an input that makes the read abort |
| `Status.ParseRoundTrip` | binderlib/base/Status.c:56-204 | what comes back of exception, message and code, and where the cursor ends, for every exception that is written and every message up to 64 characters |
| `Status.HeaderReadsLength` | binderlib/base/Status.c:123-143 | a written reply-header exception is read as a header of the message's length |
| `Status.HeaderIsSkipped` | binderlib/base/Status.c:122-146 | from the bytes: a reply header is skipped to the end it gives and means no exception, or the read fails there |
| `Status.TraceIsSkipped` | binderlib/base/Status.c:148-204 | from the bytes, for every message that fits: the stack trace is skipped to the end it gives, then come the code of a service-specific exception or the blob of a parcelable one, and how the read fails where one is missing |
| `Status.NothingToRead` | binderlib/base/Status.c:116-154 | from the bytes: the results of too little data, no exception, and an exception without a message |
| `Status.TraceRoundTrip` | binderlib/base/Status.c:157-178 | whatever stack trace a writer puts in, the code after it comes back and the read ends where the bytes end |
| `Status.Status.WriteToParcel` | binderlib/base/Status.c:56-81 | appends exactly what the pieces of the wire format come to in the room there is, with the status of the last, or nothing for a failed transaction; never disturbs what was there |
| `Status.WholeStatus` | binderlib/base/Status.c:56-81 | the whole wire format is appended if and only if every piece has room after the ones before it |
| `Status.LooksWritten` | binderlib/base/Status.c:56-81 | success is reported with something missing if and only if no error is recorded and every piece has room but the characters of the message |
| `Status.MessageLost` | binderlib/base/Status.c:56-81 | a place where that happens |
| `Status.Status.ReadFromParcel` | binderlib/base/Status.c:109-204 | the fields, the cursor and the result are those of the parser |
| `Status.Status.SetFromStatusT` | binderlib/base/Status.c:102-107 | a code becomes no exception or a failed transaction |
| `Status.WriteThenRead` | binderlib/base/Status.c:56-204 | through a real parcel: same exception, message and service-specific code |
| `HashMap.HashBitsBelow` | binderlib/utils/HashMap.h:89-105 | every bucket index is below the capacity |
| `HashMap.StrHash` | binderlib/utils/HashMap.h:108-117 | the loop folds over the text up to its terminator |
| `HashMap.StrEqual` | binderlib/utils/HashMap.c:138-141 | the comparison stops at the terminator and decides equality of the C strings |
| `HashMap.EqualKeysShareBuckets` | binderlib/utils/HashMap.c:123-141 | keys that compare equal fall into the same bucket |
| `HashMap.HashMapBase.FindEntry` | binderlib/utils/HashMap.c:68-90 | finds the entry of the key and its predecessor if and only if the map has the key |
| `HashMap.HashMapBase.Find` | binderlib/utils/HashMap.c:216-228 | the map's value, exactly when it has the key |
| `HashMap.HashMapBase.Insert` | binderlib/utils/HashMap.c:143-192 | refines the map operation of each strategy, with its error codes and the old entry |
| `HashMap.HashMapBase.Delete` | binderlib/utils/HashMap.c:194-214 | removes exactly the key's entry and returns it |
| `HashMap.HashMapBase.Grow` | binderlib/utils/HashMap.c:92-121 | relinks every entry once, keeps the map, doubles the capacity and restores the load bound |
| `HashMap.HashMapBase.MoveBucket` | binderlib/utils/HashMap.c:109-113 | the safe traversal survives relinking the entries it walks over |
| `HashMap.MovingEnds` | binderlib/utils/HashMap.c:109-118 | after the last bucket the new table has exactly the old entries |
| `HashMap.GrownCapacity` | binderlib/utils/HashMap.c:48-52 | doubling keeps four thirds of the size within the capacity with one more entry |
| `HashMap.HashMapBase.Iterate` | binderlib/utils/HashMap.c:230-240 | visits every key of the map exactly once, with its value, and nothing else |
| `HashMap.FlattenIsExact` | binderlib/utils/HashMap.h:45-47 | bucket order meets every entry exactly once |
| `HashMap.HashMapBase.Clear` | binderlib/utils/HashMap.c:242-252 | deleting while traversing empties the map |
| `HashMap.HashMapBase.DeleteHead` | binderlib/utils/HashMap.h:57-61 | the pointer saved before a deletion is the head of what is left of the chain |
| `HashMap.UnlinkAt` | binderlib/utils/HashMap.c:61-66 | linking around an entry keeps every chain |
| `HashMap.LinkFirst` | binderlib/utils/HashMap.c:54-59 | linking in at the head keeps every chain |
| `HashMap.HashMapBase.ModelKeys` | binderlib/utils/HashMap.c:143-214 | the size counts the keys of the map |
| `Vector.VectorBase.Add` | binderlib/utils/Vector.c:65-72 | appends; doubles exactly when full; keeps the amortised bound |
| `Vector.VectorBase.Delete` | binderlib/utils/Vector.c:88-104 | removes exactly the element; halves exactly when a quarter is left; keeps the amortised bound |
| `Vector.VectorBase.ShrinkAtQuarter` | binderlib/utils/Vector.c:99-102 | halves exactly when a quarter is left, and the stored potential pays for it |
| `Vector.VectorBase.Set` | binderlib/utils/Vector.c:74-79 | replaces inside, ignores outside |
| `Vector.VectorBase.Get` | binderlib/utils/Vector.c:81-86 | the element inside, the error outside |
| `Vector.VectorBase.Clear` | binderlib/utils/Vector.c:106-114 | every element goes to the callback once, in order |
| `Vector.DeletePays` | binderlib/utils/Vector.c:99-102 | a deletion with its halving costs at most two moves of potential |
| `Vector.HalvesAndDoubles` | binderlib/utils/Vector.c:67-101 | the capacity stays a power of two |
| `Vector.Run` | binderlib/utils/Vector.c:54-104 | any run from a new vector gives the sequence that the operations describe, with at most two moved elements per operation and a constant |
| `CpcServiceManager.CpcServiceManager.AddService` | cmds/cpcservicemanager/CpcServiceManager.cpp:85-119 | binds the name to the given binder and CPU, also when it was bound before, links before it unlinks, and tells every registered callback in order |
| `CpcServiceManager.CpcServiceManager.RegisterForNotifications` | cmds/cpcservicemanager/CpcServiceManager.cpp:131-150 | appends the callback and tells it at once if the name is bound |
| `CpcServiceManager.CpcServiceManager.UnregisterForNotifications` | cmds/cpcservicemanager/CpcServiceManager.cpp:152-172 | removes the first registration and keeps no empty list |
| `CpcServiceManager.CpcServiceManager.BinderDied` | cmds/cpcservicemanager/CpcServiceManager.cpp:174-184 | removes exactly the names of that binder |
| `CpcServiceManager.CpcServiceManager.ListServices` | cmds/cpcservicemanager/CpcServiceManager.cpp:121-129 | lists every bound name once |
| `CpcServiceManager.CpcServiceManager.IsValidServiceName` | cmds/cpcservicemanager/CpcServiceManager.cpp:63-83 | decides the naming rule |
| `CpcServiceManager.NoLostWakeUp` | cmds/cpcservicemanager/CpcServiceManager.cpp:112-150 | in every run, a callback registered since some moment has been told about a name that is bound, at a moment since it registered |
| `CpcServiceManager.WokenByStep` | cmds/cpcservicemanager/CpcServiceManager.cpp:112-148 | the step that makes a name bound for a registered callback is the one that tells it |
| `CpcServiceManager.LinksMatchNames` | cmds/cpcservicemanager/CpcServiceManager.cpp:99-110 | in every run a live binder has as many death links as names, also when a name is registered again with the same binder |
| `CpcServiceManager.StaysTidy` | cmds/cpcservicemanager/CpcServiceManager.cpp:88-163 | no empty listener list and no slash in a stored CPU name, after every call |
| `CpcServiceManager.ListedSplits` | libs/binder/ICpcServiceManager.cpp:139-146 | splitting a listed entry at its first slash gives back CPU and service name |
| `CpcShim.CpcServiceManagerShim.RegisterForNotifications` | libs/binder/ICpcServiceManager.cpp:348-366 | records the waiter exactly when the registry has it |
| `CpcShim.CpcServiceManagerShim.UnregisterForNotifications` | libs/binder/ICpcServiceManager.cpp:368-393 | drops every registration of the callback, here and there, and nobody else's |
| `CpcShim.CpcServiceManagerShim.WaitForService` | libs/binder/ICpcServiceManager.cpp:273-305 | wakes if and only if the name is bound at some moment of the other clients' calls, and leaves no waiter behind |
| `CpcShim.CpcServiceManagerShim.Resolve` | libs/binder/ICpcServiceManager.cpp:124-150 | finds the CPU that a bare name is bound on, or splits a name that holds a slash |
| `CpcShim.FoundUnlessSlashed` | libs/binder/ICpcServiceManager.cpp:130-150 | a bound service is found under its name if and only if the name has no slash |
| `CpcShim.GivenPlace` | libs/binder/ICpcServiceManager.cpp:124-150 | a name given with its CPU is split at the first slash, whatever is bound |
| `CpcShim.RegisteredIsFound` | cmds/cpcservicemanager/CpcServiceManager.cpp:85-119 | what was registered last under a name without a slash is found on the CPU given with it, also when the name was bound before, and other names are found as before |
| `CpcShim.OthersKeepMatch` | cmds/cpcservicemanager/CpcServiceManager.cpp:131-172 | no call of another client disturbs the agreement |
| `CpcShim.RegisterMatches` | libs/binder/ICpcServiceManager.cpp:358-364 | registering keeps the record equal to the client's part of the registry's list, in order |
| `CpcShim.EraseMatches` | libs/binder/ICpcServiceManager.cpp:376-384 | so does erasing one entry, and other clients' entries stay |
| `CpcShim.StepOfWait` | libs/binder/ICpcServiceManager.cpp:276-298 | while the waiter is registered a step sets it ready exactly when it binds the name |
| `SocketQueue.SocketQueueBase.Write` | libs/binder/include/binder/SocketQueueBase.h:335-367 | a contiguous prefix of the bytes goes out, all of them exactly on success, whatever the transfer sizes; it goes on while system calls move something and fails only when the last one moved nothing |
| `SocketQueue.SocketQueueBase.Read` | libs/binder/include/binder/SocketQueueBase.h:369-401 | the next bytes of the stream arrive in order, a full array exactly on success; it goes on while system calls move something and fails only when the last one moved nothing |
| `SocketQueue.Exchange` | libs/binder/include/binder/SocketQueueBase.h:335-401 | any calls at both ends of a connection, of any sizes and in any order, failing ones included: at every moment what one end has read is a prefix of what the other has written, and all that was written is what was read and what is in flight; a call moves a prefix of what it was asked for, succeeds exactly when it moves all, and otherwise met a system call that moved nothing |
| `SocketQueue.StaysInOrder` | libs/binder/include/binder/SocketQueueBase.h:369-401 | one more call leaves the earlier logs alone and in order |

## Left out

- SetDataPosition: a cursor past the end of the data is accepted, but no other operation is stated for it.
- WriteAligned: writing in place into a buffer that still belongs to the driver is excluded, for this and every other write (WriteInplace, Write, WriteInt32, WriteObject): the driver maps its buffers read-only (binderlib/base/ProcessState.c, line 392), so such a write faults.
- IpcSetDataReference: the driver places every object inside the data, so a type word is never read past its end.
- SetDataSize: after a foreign buffer was left out of bounds nothing more is stated about it.
- WriteString16: a null String, which is written as the length -1.
- TalkWithDriver: the driver takes the whole write buffer or reports an error, as the source itself insists.
- `VectorImpl_append`, whose resize reports its result the wrong way round, and the handle table of `ProcessState.c`, whose gap slots share one entry.
- Insert: does not model `HASHMAP_APPEND`, which no caller uses and which may give a key two entries; nor is `HashMap_erase` modelled, whose test for a missing key compares with a status code.
- Per-uid proxy counts, whose map only adds and is never updated.
- Handle objects in the parcel ledger, the descriptor scan, file descriptors closed on release, and the stability word after a binder.
- `BR_ACQUIRE_RESULT` and `BR_ATTEMPT_ACQUIRE`; the counts behind the driver's reference commands are the subject of `RefBase`.
- Nested flushing on threads outside the pool, and the starvation counters.
- Identity of obituaries and attached objects: the source stores the address of a local variable, so links are numbered values here; `ObjectManager`.
- The `BC_DECREFS` of a proxy's destructor, which nothing calls because the delete functions do nothing.
- The strong reference that each death report takes on its recipient (binderlib/base/BpBinder.c, line 442), which is a count of another object.
- Memory ordering: atomic accesses are sequentially consistent steps.
- A character in `str_hash` counts as 0 to 255; an int capacity in `Vector.c` does not overflow; a callback does not call back into the registry; calls from the shim to the registry succeed.
- Connecting to a remote CPU, vsock and rpmsg addressing, mutexes and condition variables of the socket queue and the shim.
- `ServiceManager.c`, marshalling of the service manager interface, `BBinder` accessors, `Timers.c`, `Threads.c`, logging.
