# A verified model of the course programs

The repository holds the programs of an operating-systems course: small synchronisation
algorithms (`Preparation/`), and a client and a server for the GETFILE file transfer protocol,
single-threaded (`pr1/gflib/`) and with a boss and worker threads (`pr1/mtgf/`). This project
models their cores in Dafny and proves what they are for.

`dafny verify dfyconfig.toml` checks everything.

## How it is organised

| file | subject |
|---|---|
| `Peterson.dfy` | Peterson's lock, one shared access per step |
| `SemaphoreBuffer.dfy` | the bounded buffer with three semaphores, any number of processes |
| `OneSlotBuffer.dfy` | the one-slot buffer with a mutex and two condition variables |
| `Monitor.dfy` | the Java monitor over a ring buffer, with `if` around `wait` |
| `Messages.dfy` | producer and consumer that exchange N messages |
| `Steque.dfy` | the linked list that is a queue and a stack |
| `WorkQueue.dfy` | boss and workers around the request queue |
| `CString.dfy`, `Decimal.dfy` | memory with terminators, `strtok`; `%zu`, `%d` and `atol` |
| `Chunks.dfy` | a stream in the chunks that `recv` delivers, and the boundaries between them |
| `GfServer.dfy` | request printing and request tokenising in the reused buffer |
| `GfClient.dfy` | the receive state machine of `gfc_perform` |
| `GfDelivery.dfy` | what that machine makes of a header, a body, and an answer without a file |
| `GfSplits.dfy` | which splits of a whole answer deliver the file |
| `GfClosing.dfy` | connections that close early |
| `GfInvalid.dfy` | answers with an invalid header |
| `Handler.dfy` | the loops that read and send a file |
| `Content.dfy` | the index of the files |
| `Workload.dfy`, `Download.dfy` | the request generator, local names, directories |
| `EndToEnd.dfy` | request, lookup, answer and reaction put together |
| `Ring.dfy`, `Counting.dfy`, `Runs.dfy` | ring buffer arithmetic; counting the processes in a state; runs |

Each concurrent program is a `State` with a function `Step` that executes one statement of one
process, and a class with the program's variables whose methods execute the same statement in
place and are proved equal to `Step`. A scheduler loop picks any process that can run. A run is a
sequence of states linked by steps, and the theorems quantify over all runs. `produce_item`, the
results of `recv`, `pread`, `write`, `open` and `mkdir`, and the scheduler are arbitrary.

`NextToken` says what `strtok` finds in a piece of memory, terminators included; the class
`Strtok` is the library with its saved position, cutting the buffer in place. The client is the
function `Receive` on the locals of `gfc_perform` and the fields of the request; the class
`Request` does the same with fields, loops and `strtok`. Where C leaves the behaviour open (a null
pointer passed to `strcmp`, an unterminated buffer passed to `strcat`, `strtok` running past the
buffer) the models stop in an outcome `Unspecified`. Bytes are characters; every result holds for
all characters, in particular for the 256 byte values.

## Where the code and its documentation differ

The model follows the code.

* The client counts the header as complete as soon as anything follows the blank behind the
  length. A `recv` boundary inside the closing CRLFCRLF therefore makes it take the rest of the
  header for the beginning of the file. Bytes of the file that share a `recv` with the end of the
  header go through `strtok` and survive only without line feeds and NULs and below the size of the
  buffer. `GfSplits.ArrivesIff` says for every split of the answer whether the file arrives, and
  `GfSplits.SafeSplits` which splits are safe for all files: those with a boundary at the end of
  the header and none inside its last four characters, and no others.
* `gfclient.h` promises 0 for every successful communication; an empty file ends with -1
  (`GfClosing.ClosedEarly`).
* It promises a negative value when the connection closes early. For an answer with a file
  `GfClosing.ClosedEarlyIff` says when the client keeps that promise, the end of the stream counting
  as a boundary, too. If no `recv` boundary lies inside the closing CRLFCRLF, it does if and only if
  at least nine bytes came and the chunk that completes the header is not a full buffer without NUL;
  otherwise the code compares with a null pointer, or appends an unterminated buffer. If a boundary
  lies there, it does if and only if no later chunk ends exactly the length of the file behind it;
  otherwise the client returns 0 with status OK, having taken the rest of the header for the file
  (`GfClosing.BrokenHeaderPosesAsFile` is an example). For an answer FILE_NOT_FOUND or ERROR
  `GfClosing.ErrorClosed` says it: the client keeps the promise from the ninth byte on, but only up
  to one byte short of the status word; with the whole word it returns 0, whatever is missing
  behind it (`GfClosing.CutOffErrorIsAccepted`).
* It also promises a negative value for an invalid header. A first word other than GETFILE is
  noticed with the eighth byte (`GfInvalid.WrongSchemeIsInvalid`). An unknown status is only noticed
  when the connection closes, and not at all if it starts with FILE_NOT_FOUND or ERROR and a chunk
  ends right behind that (`GfInvalid.UnknownStatusIff`). A length that is no number is accepted with
  the value that `atol` makes of it (`GfInvalid.AnyLengthIff`).
* `handler_get` does not look at the result of writing the header. `Handler.HandlerGet` says what is
  sent in any case; the results in `EndToEnd.dfy` are about headers that are taken whole.
* A worker tests the queue before it takes the lock. With two workers or more one of them can
  pop an empty steque; with one it cannot (`WorkQueue.UnderflowIff`).
* `content.c` strips the last character of every line, also when it is not a line feed
  (`Content.LineIsReadBackIff`).
* The answer to a malformed request has one blank more than the one `gfs_sendheader` prints; the
  client understands both (`EndToEnd.RejectionArrives`).
* The monitor tests its condition with `if`, and Java allows spurious wakeups. Such a wakeup lets
  a thread use the slot although it should sleep if and only if that thread must sleep and nobody
  is in the monitor (`Monitor.WakeupIsHarmfulIff`); at the start one lets `remove` read an empty
  ring (`Monitor.SpuriousWakeupReadsEmptyRing`). The other results about the monitor hold with
  any number of spurious wakeups that are not of this kind.

## Model

| member | source | states |
|---|---|---|
| Peterson.StepKeepsInv | Preparation/MutualExclusive.c:8-21 | a process in the critical region faces a peer that has yet to store `turn` or is held by its loop condition; every single shared access keeps this |
| Peterson.MutualExclusion | Preparation/MutualExclusive.c:8-21 | in no state of any run are both processes between `enter_region` and `leave_region`, with the two stores and the two reads as separate steps |
| Peterson.BoundedBypass | Preparation/MutualExclusive.c:13-15 | while a process that has stored `turn` waits, the other enters the critical region at most once |
| Peterson.NeverBothBlocked | Preparation/MutualExclusive.c:15 | the two loop conditions are never both true |
| Peterson.StepRanks | Preparation/MutualExclusive.c:12-20 | no step takes an entering process further from its entry, and the step of the helpful process takes it nearer |
| Peterson.NoStarvation | Preparation/MutualExclusive.c:8-21 | on every infinite run under a fair scheduler each process in `enter_region` reaches the critical region |
| Peterson.Processes.Advance | Preparation/MutualExclusive.c:8-21 | the in-place step on `turn` and `interested` has exactly the effect of the specified step |
| Peterson.Processes.Schedule | Preparation/MutualExclusive.c:8-21 | any scheduling of the in-place steps is a run, so it keeps mutual exclusion |
| Ring.AgreesAfterStore | Preparation/PriducerConsumer.java:45 | storing in a ring that is not full overwrites no stored item and appends to its contents |
| Ring.AgreesAfterLoad | Preparation/PriducerConsumer.java:54 | reading slot `lo` of a ring that is not empty yields the oldest item |
| Ring.AgreesAfterAdvanceHi | Preparation/PriducerConsumer.java:46 | after the update `hi` names the slot behind the youngest item, also across the end of the array |
| Ring.AgreesAfterAdvanceLo | Preparation/PriducerConsumer.java:55 | after the update `lo` names the oldest item left |
| SemaphoreBuffer.StepKeepsInv | Preparation/mutex-pro-con.c:11-34 | every statement of every process keeps the agreement of semaphores, `count`, indices and ring contents |
| SemaphoreBuffer.SlotsAreConserved | Preparation/mutex-pro-con.c:14-18 | in every reachable state `empty` + `full` + processes with a reserved slot = N |
| SemaphoreBuffer.MutualExclusion | Preparation/mutex-pro-con.c:15-17 | at most one of any number of processes is between `down(&mutex)` and `up(&mutex)` |
| SemaphoreBuffer.NoOverflowNoUnderflow | Preparation/mutex-pro-con.c:16-30 | `insert_item` never meets a full buffer and `remove_item` never an empty one |
| SemaphoreBuffer.FirstInFirstOut | Preparation/mutex-pro-con.c:16-30 | the removed items are the first inserted ones, in order, and the others sit in the ring in order, from slot `lo` on, or from the next one while `lo` has still to be advanced |
| SemaphoreBuffer.EachInOrder | Preparation/mutex-pro-con.c:13-34 | for any number of processes: each producer inserts what `produce_item` returned to it, and each consumer passes to `consume_item` what it removed, in order, up to one item in its hand |
| SemaphoreBuffer.ConsumesWhatWasProduced | Preparation/mutex-pro-con.c:7-35 | with one producer and one consumer, the values consumed are the first ones produced, in order, and the others are in a hand or in the ring |
| SemaphoreBuffer.NoDeadlock | Preparation/mutex-pro-con.c:14-32 | with a producer and a consumer, some process can take its next step in every reachable state |
| SemaphoreBuffer.SharedBuffer.Execute | Preparation/mutex-pro-con.c:7-35 | each statement, executed on the shared variables and the array in place, has exactly the specified effect |
| SemaphoreBuffer.SharedBuffer.Schedule | Preparation/mutex-pro-con.c:7-35 | a scheduler that picks any process that is not waiting never gets stuck and produces a run |
| OneSlotBuffer.StepKeepsInv | Preparation/buffer-mutex.c:13-35 | every statement keeps the agreement of mutex, buffer, loop counters and what was taken |
| OneSlotBuffer.SpuriousKeepsInv | Preparation/buffer-mutex.c:16-31 | a spurious wakeup keeps it, too |
| OneSlotBuffer.HandsOverInOrder | Preparation/buffer-mutex.c:16-32 | on every run, spurious wakeups included, the consumer takes 1, 2, 3, ... without gap, nothing is overwritten, and at most one number is in between |
| OneSlotBuffer.StepKeepsSignals | Preparation/buffer-mutex.c:18-33 | no signal is lost: an unsignalled waiter has to wait or is about to be signalled, after every statement |
| OneSlotBuffer.RunKeepsSignals | Preparation/buffer-mutex.c:16-33 | so it is in every state of every run, spurious wakeups included |
| OneSlotBuffer.NoWakeupInVain | Preparation/buffer-mutex.c:16-33 | without spurious wakeups a signalled thread need not wait any more |
| OneSlotBuffer.StuckOnlyWhenFinished | Preparation/buffer-mutex.c:13-36 | a state in which no signal is lost and nobody can move is the finished one |
| OneSlotBuffer.StepDecreasesMeasure | Preparation/buffer-mutex.c:13-35 | every step of either thread lowers a bounded measure |
| OneSlotBuffer.EveryRunFinishes | Preparation/buffer-mutex.c:13-36 | whoever the scheduler picks, a run with q spurious wakeups has at most 14 steps per number and 3 q more, and can be continued until both threads are gone, 1..MAX taken in order and the buffer 0 |
| OneSlotBuffer.FourteenStepsPerNumber | Preparation/buffer-mutex.c:13-36 | without spurious wakeups a run has at most 14 steps per number |
| OneSlotBuffer.SharedSlot.Produce | Preparation/buffer-mutex.c:13-21 | the producer's statement in place has exactly the specified effect |
| OneSlotBuffer.SharedSlot.Consume | Preparation/buffer-mutex.c:28-36 | the consumer's statement in place has exactly the specified effect |
| OneSlotBuffer.SharedSlot.Schedule | Preparation/buffer-mutex.c:9-37 | the program terminates in the finished state under every scheduler and any bounded number of spurious wakeups |
| Monitor.StepKeepsInv | Preparation/PriducerConsumer.java:43-64 | every statement of either thread keeps the monitor invariant |
| Monitor.WakeupKeepsInv | Preparation/PriducerConsumer.java:60-64 | so does a spurious wakeup of a thread that need not sleep, or while the other thread is in the monitor |
| Monitor.IfIsEnough | Preparation/PriducerConsumer.java:44-53 | without spurious wakeups a thread that comes back from `wait` finds its condition true |
| Monitor.IfIsStillEnough | Preparation/PriducerConsumer.java:44-53 | with harmless ones it does so by the time it gets the monitor, and whenever it uses the slot |
| Monitor.NoLostWakeup | Preparation/PriducerConsumer.java:44-57 | an unnotified waiting consumer means an empty buffer, an unnotified waiting producer a full one, except while the other thread is about to notify; both never wait unnotified |
| Monitor.NoDeadlock | Preparation/PriducerConsumer.java:43-64 | some thread can always take its next step, for every capacity of at least 1 |
| Monitor.MutualExclusion | Preparation/PriducerConsumer.java:43-51 | at most one thread is inside the monitor |
| Monitor.FirstInFirstOut | Preparation/PriducerConsumer.java:45-58 | what was removed is the beginning of what was inserted and the rest sits in the ring in order, from slot `lo` on, or from the next one while `lo` has still to be advanced |
| Monitor.ReturnsWhatWasPassed | Preparation/PriducerConsumer.java:43-59 | the results of `remove` are the first arguments of `insert`, in order, and the others are in the hands of a thread or in the ring |
| Monitor.WakeupIsHarmfulIff | Preparation/PriducerConsumer.java:44-62 | in every reachable state a spurious wakeup of a waiting thread can lead to a use of the slot that should not happen if and only if the thread must sleep and the monitor is free |
| Monitor.SpuriousWakeupReadsEmptyRing | Preparation/PriducerConsumer.java:53-62 | an instance: at the start such a wakeup lets `remove` reach the slot with `count` 0 |
| Monitor.OurMonitor.Insert | Preparation/PriducerConsumer.java:43-49 | a statement of `insert` on the fields in place has exactly the specified effect |
| Monitor.OurMonitor.Remove | Preparation/PriducerConsumer.java:51-59 | a statement of `remove` on the fields in place has exactly the specified effect |
| Monitor.OurMonitor.Schedule | Preparation/PriducerConsumer.java:12-64 | a scheduler that picks any thread that can run, or wakes one up harmlessly, never gets stuck and produces a run |
| Messages.MessagesAreConserved | Preparation/information.c:9-30 | after k start-up sends k messages exist in the mailboxes and in the threads' hands, N from then on, and no mailbox exceeds N |
| Messages.ItemsArriveInOrder | Preparation/information.c:11-30 | the values that `produce_item` returned are those passed to `consume_item`, followed by the one extracted and those on their way, in order |
| Messages.NoDeadlockIff | Preparation/information.c:12-26 | the threads never both wait in `receive`, if and only if N is at least 1 |
| Messages.Mailboxes.Produce | Preparation/information.c:4-16 | a statement of the producer on the mailboxes in place has exactly the specified effect |
| Messages.Mailboxes.Consume | Preparation/information.c:18-31 | a statement of the consumer on the mailboxes in place has exactly the specified effect |
| Messages.Mailboxes.Schedule | Preparation/information.c:4-31 | a scheduler that picks any thread that can run never gets stuck and produces a run |
| StequeList.Steque.Enqueue | pr1/mtgf/steque.c:11-25 | the item becomes the last one; the list stays acyclic with `back` its last node and `N` its length |
| StequeList.Steque.Push | pr1/mtgf/steque.c:27-39 | the item becomes the first one |
| StequeList.Steque.Pop | pr1/mtgf/steque.c:49-69 | the first item is removed and returned; on an empty steque the process exits |
| StequeList.Steque.Cycle | pr1/mtgf/steque.c:71-79 | the first item moves to the back, also when it links to itself in between |
| StequeList.Steque.Front | pr1/mtgf/steque.c:81-89 | the first item, or the exit of the process |
| StequeList.Steque.IsEmpty | pr1/mtgf/steque.c:45-47 | `N == 0` exactly when there are no items |
| StequeList.Steque.Size | pr1/mtgf/steque.c:41-43 | `N` is the number of items |
| StequeList.Steque.Destroy | pr1/mtgf/steque.c:91-94 | the loop terminates with an empty steque |
| StequeList.RotateTimesShifts | pr1/mtgf/steque.c:71-79 | k cycles shift the contents by k |
| StequeList.FullCycleRestores | pr1/mtgf/steque.c:71-79 | as many cycles as there are items restore the order |
| WorkQueue.StepKeepsLocks | pr1/mtgf/handler.c:84-127 | with any number of workers each lock is held by exactly the worker between its lock and unlock |
| WorkQueue.NoRequestLostOrDoubled | pr1/mtgf/handler.c:81-145 | with any number of workers requests are popped in the order of their arrival, and each popped one is dealt with or in the hands of as many workers as popped it |
| WorkQueue.DoneMeansUnlocked | pr1/mtgf/handler.c:94-127 | a worker back at the head of its loop holds neither lock, also after a file was not found |
| WorkQueue.MutualExclusion | pr1/mtgf/handler.c:84-127 | no two workers pop or send at the same time |
| WorkQueue.DoneMeansSent | pr1/mtgf/handler.c:94-127 | for any number of workers, each request that is done has had a negative descriptor and nothing of a file sent, or a descriptor and as many bytes sent as `lseek` answered, unless a `pread` went past the end |
| WorkQueue.ExitsIff | pr1/mtgf/handler.c:111-125 | the process exits exactly when a `pread` delivers nothing or `gfs_send` does not take what was read, before the whole file is sent |
| WorkQueue.LoneWorkerIsSafe | pr1/mtgf/handler.c:78-131 | a single worker never pops an empty steque and deals with the requests in order |
| WorkQueue.LoneWorkerMayMove | pr1/mtgf/handler.c:78-131 | nothing ever holds a single worker up |
| WorkQueue.StepMakesProgress | pr1/mtgf/handler.c:78-131 | while a request waits, each step of the single worker finishes one, or takes it nearer to that |
| WorkQueue.EveryRequestIsDone | pr1/mtgf/handler.c:74-147 | on every infinite run without an I/O error in which the single worker moves again and again, every request that is enqueued is dealt with, whatever else the boss enqueues: its file is not found, or all of it is sent |
| WorkQueue.FairRunsExist | pr1/mtgf/handler.c:74-147 | there are such runs: one request whose file is not found, and the worker moves ever after |
| WorkQueue.TwoWorkersUnderflow | pr1/mtgf/handler.c:81-85 | two workers can see the same last request, and the slower one then pops an empty steque |
| WorkQueue.UnderflowIff | pr1/mtgf/handler.c:81-85 | popping an empty steque is reachable if and only if there are two workers or more |
| WorkQueue.Server.HandlerGet | pr1/mtgf/handler.c:138-147 | the boss appends the request to the real list and changes nothing else |
| WorkQueue.Server.Callback | pr1/mtgf/handler.c:74-134 | a worker's statement on the list, the locks and its locals in place has exactly the specified effect |
| WorkQueue.Server.Schedule | pr1/mtgf/handler.c:74-147 | boss and one worker under any scheduler never underflow the steque, lose no request, and send the files of those that are done |
| CString.TokenIs | pr1/gflib/gfclient.c:254 | delimiters, a word and a character that ends it: `strtok` returns the word and stops behind that character |
| CString.TokenShape | pr1/gflib/gfclient.c:254 | conversely, where `strtok` returns a token the memory has this shape |
| CString.NeverOverruns | pr1/gflib/gfclient.c:250-286 | in terminated memory `strtok` stays before the terminator |
| CString.Strtok.Next | pr1/gflib/gfserver.c:179-181 | `strtok` in place returns the specified token, cuts exactly one cell and saves the position behind it |
| CString.Strtok.StartOver | pr1/gflib/gfclient.c:283 | `strtok` with an empty delimiter set, fed back into `strtok`, changes neither memory nor position |
| Decimal.ValueOfPrint | pr1/gflib/gfserver.c:82 | the printed digits denote the number |
| Decimal.AtolOfPrint | pr1/gflib/gfclient.c:290 | `atol` reads back what `%zu` printed exactly for numbers up to LONG_MAX, and LONG_MAX beyond |
| Decimal.AtolReads | pr1/gflib/gfclient.c:290 | white space, a sign, a number and anything behind it: `atol` returns the signed number, or the bound of `long` |
| Decimal.NoLeadingZero | pr1/gflib/gfserver.c:82 | a printed number starts with 0 only if it is 0 |
| GfServer.RequestRoundTrip | pr1/gflib/gfserver.c:176-197 | whatever the reused buffer held, the printed request leads to the handler with its path exactly when the path starts with a slash, has no blank and ends within the buffer |
| GfServer.ServeIs | pr1/gflib/gfserver.c:179-197 | any buffer with three words: the handler is called exactly when they are GETFILE, GET and a path that starts with a slash, and otherwise the request is rejected |
| GfServer.UnspecifiedIff | pr1/gflib/gfserver.c:179-190 | C leaves open what happens exactly when the buffer does not hold three words that are ended within it |
| GfServer.OtherRequestsAreRejected | pr1/gflib/gfserver.c:190-194 | instances: another method and another scheme |
| GfServer.RequestEndsInMarker | pr1/gflib/gfclient.c:162-169 | the request is the three words, a blank and CRLFCRLF |
| GfServer.RejectionEndsInMarker | pr1/gflib/gfserver.c:190-194 | so is the rejection, with a terminator behind it |
| GfServer.Server.Tokenise | pr1/gflib/gfserver.c:179-197 | cutting the buffer in place gives the specified reaction and only turns bytes into NULs |
| GfServer.Server.ServeOne | pr1/gflib/gfserver.c:166-200 | one round on whatever the earlier rounds left in the buffer |
| GfServer.Server.ServeAll | pr1/gflib/gfserver.c:160-201 | after any sequence of earlier requests a printed request is recovered under the same condition, and any three words get the same reaction as in a fresh buffer |
| GfClient.Request.TakeHeader | pr1/gflib/gfclient.c:242-329 | the new bytes are appended up to the first NUL, and the text so far is parsed |
| GfClient.Request.ParseText | pr1/gflib/gfclient.c:250-328 | parsing a copy of the text so far with in-place `strtok` gives the specified state |
| GfClient.Request.TakeLength | pr1/gflib/gfclient.c:283-325 | the nested calls of `strtok` find the length, the rest of the header and the first line behind it |
| GfClient.Request.TakeBody | pr1/gflib/gfclient.c:332-344 | bytes are counted, passed on, and end the transfer when the length is reached |
| GfClient.Request.Close | pr1/gflib/gfclient.c:220-240 | the end of the stream |
| GfClient.Request.Perform | pr1/gflib/gfclient.c:205-347 | the loop over arbitrary results of `recv` ends in the state obtained by reacting to them one by one |
| GfDelivery.CommitsToNothingEarly | pr1/gflib/gfclient.c:242-293 | for every length and every split before the first carriage return nothing but the status is set, and that with the eleventh byte |
| GfDelivery.StoresLengthIff | pr1/gflib/gfclient.c:283-293 | for every clean split of the header the client then has stored exactly the length, if and only if it is at most LONG_MAX, and nothing else |
| GfDelivery.BodyArrives | pr1/gflib/gfclient.c:332-344 | however the body is split, it is passed on unchanged and in order, and the client returns 0 with the last byte and not before |
| GfDelivery.DeliveredIff | pr1/gflib/gfclient.c:242-344 | a non-empty file whose header is not split in its last four characters arrives exactly when the bytes sharing a `recv` with the header end have no line feed and no NUL and fit the buffer |
| GfSplits.ArrivesIff | pr1/gflib/gfclient.c:205-347 | for every split of the whole answer: a non-empty file arrives if and only if no boundary lies inside the last four characters of the header and the chunk that completes it does no harm, or the file repeats what follows the first such boundary and a chunk ends behind that |
| GfDelivery.CleanSplitDelivers | pr1/gflib/gfclient.c:205-347 | for every clean split of the header and every split of a non-empty file: returns 0, status OK, the bytes written are the file, both lengths are its size |
| GfSplits.SafeSplits | pr1/gflib/gfclient.c:283-293 | the splits of an answer that are safe for all files of a length are exactly those with a boundary at the end of the header and none inside its last four characters |
| GfSplits.BrokenHeaderIsWritten | pr1/gflib/gfclient.c:288-344 | with a boundary inside the last four characters, in any stream that begins like the answer, the write callback gets all that follows the first of them, the rest of the header included, up to a chunk that ends exactly the length of the file later |
| GfSplits.BrokenHeaderCanDeliver | pr1/gflib/gfclient.c:288-344 | an instance in which the file arrives nevertheless |
| GfClosing.ClosedEarlyIff | pr1/gflib/gfclient.c:205-347 | for every answer with a file that ends before the whole file is in, and every one with an empty file, in every split: the client returns -1 if and only if it notices, as described above; what happens otherwise |
| GfClosing.ErrorClosed | pr1/gflib/gfclient.c:220-278 | for every answer FILE_NOT_FOUND or ERROR that ends anywhere, in every split: a null pointer comparison below nine bytes, -1 up to one byte short of the status word, 0 from there on |
| GfClosing.CutOffErrorIsAccepted | pr1/gflib/gfclient.c:262-278 | an instance: the connection closes behind the word ERROR, and the client returns 0 |
| GfClosing.ClosedEarly | pr1/gflib/gfclient.c:220-240 | after a clean split of the header, a stream that ends before the whole file, and every empty file, gives -1, with the bytes that came passed on and reported |
| GfClosing.BrokenHeaderPosesAsFile | pr1/gflib/gfclient.c:283-344 | a header split behind its first carriage return, and no byte of a file of three: the client returns 0 with status OK and three bytes received |
| GfClosing.ClosedInHeader | pr1/gflib/gfclient.c:222-239 | a stream that ends before the first carriage return gives -1 if at least nine bytes came, and a null pointer comparison otherwise; the status, and what is reported as the length |
| GfClosing.WaitsIff | pr1/gflib/gfclient.c:205-347 | for every answer with a file that is not all there, in every split: exactly when the client waits for more |
| GfClosing.FailedEarlyIff | pr1/gflib/gfclient.c:215-217 | `recv` fails then: the client returns -1 exactly if it waits, with everything else as it was, whatever `recv` would return later |
| GfClosing.FailureIsFinal | pr1/gflib/gfclient.c:215-217 | the same for any stream whatsoever |
| GfClosing.ErrorFailed | pr1/gflib/gfclient.c:215-278 | the same for the answers without a file: -1 up to one byte short of the status word |
| GfDelivery.ErrorStatusArrives | pr1/gflib/gfclient.c:262-278 | however an answer FILE_NOT_FOUND or ERROR is split, the client has that status, returns 0 and writes nothing |
| GfDelivery.ServerAnswers | pr1/gflib/gfserver.c:66-78 | the answers that the server prints for the two statuses are of that kind |
| GfDelivery.AnswersEndInMarker | pr1/gflib/gfserver.c:66-85 | every answer is made of the scheme, the name of its status, for a file its length, and CRLFCRLF |
| GfDelivery.StatusNamesDiffer | pr1/gflib/gfclient.c:358-371 | different statuses have different names |
| GfDelivery.StatusIsReadBack | pr1/gflib/gfclient.c:262-281 | the parser turns the name of each status that is sent back into the status |
| GfInvalid.WrongSchemeIsInvalid | pr1/gflib/gfclient.c:242-259 | however an answer that starts with another word is split, the client waits for eight bytes and then returns -1 with status INVALID and the bytes received by then, unless the chunk with the eighth is a full buffer without NUL |
| GfInvalid.ShortAnswerClosed | pr1/gflib/gfclient.c:220-240 | a stream that ends within seven bytes: -1 with status INVALID if it has two words, even if the second is OK, and a null pointer comparison if it has one |
| GfInvalid.UnknownStatusIff | pr1/gflib/gfclient.c:220-280 | however an answer with an unknown status is split, the client goes on receiving and returns -1 with status INVALID when the connection closes, unless a chunk ends behind a known status that the unknown one starts with; then it returns 0 |
| GfInvalid.AnyLengthIff | pr1/gflib/gfclient.c:283-344 | whatever word stands for the length, for every clean split of the header and every split behind it: the client returns -1 when the connection closes, unless a chunk ends as many bytes behind the header as `atol` makes of the word; then it returns 0 |
| GfInvalid.LengthsThatAreNoNumbers | pr1/gflib/gfclient.c:290 | the word abc counts as 0, 3x as 3, and -1 as the largest `size_t` |
| GfInvalid.OneLineEnd | pr1/gflib/gfclient.c:284-325 | a header with one line end in place of two: the first line behind it is taken for the file |
| Handler.Context.WriteAll | pr1/gflib/copy/gfserver.c:66-89 | whatever each partial send takes, the loop sends everything once and in order and terminates |
| Handler.Context.SendHeader | pr1/gflib/gfserver.c:62-86 | what one `write` takes of the header is sent, and the connection is closed unless the status is OK |
| Handler.HandlerGet | pr1/gflib/handler.c:13-46 | for every schedule of reads and writes: what one `write` takes of the header, then the whole file once and in order, and its length; or -1 with a beginning of the file sent and the connection closed; -1 exactly if some read delivers nothing or some `gfs_send` takes less than was read |
| Content.StrCmpIsAnOrder | pr1/gflib/content.c:18-20 | the comparison is a total order and 0 only for equal keys |
| Content.StrCmpIs | pr1/gflib/content.c:18-20 | and it is the order of a dictionary |
| Content.LineIsReadBackIff | pr1/gflib/content.c:35-41 | a line with key, path and at most one character behind it is taken apart as it was put together if and only if there is such a character; otherwise the path loses its last one |
| Content.Index.ReadEntry | pr1/gflib/content.c:36-46 | one line, NULs inside included: the entry, the exit if its file cannot be opened, or a write before an empty text |
| Content.FirstFailureDecides | pr1/gflib/content.c:32-46 | of the first line that is not ready: an empty text leaves open what happens; without a delimiter or with a file that cannot be opened the process exits |
| Content.SortSorts | pr1/gflib/content.c:58 | the result of sorting is a sorted permutation |
| Content.Index.Init | pr1/gflib/content.c:22-61 | for any number of lines every write of an entry is inside the grown array, and the table ends as a sorted permutation of the entries, exactly when all files can be opened; otherwise the first line that fails says how it ends |
| Content.Index.Get | pr1/gflib/content.c:63-79 | bisection stays in bounds, terminates, and returns the descriptor of an entry with the key, or -1 exactly when there is none |
| Content.InitAndGet | pr1/gflib/content.c:22-79 | index and plain lookup in the lines agree for distinct keys |
| Workload.RoundRobin | pr1/gflib/workload.c:49-51 | among k choices of n entries a path occurs floor(k/n) times for each entry that holds it, and once more for each of the first k mod n entries that does |
| Workload.EachEntryInTurn | pr1/gflib/workload.c:49-51 | if the entries differ, each is chosen floor(k/n) or ceil(k/n) times |
| Workload.Draw | pr1/gflib/workload.c:43-53 | k calls of the generator return just these choices |
| Workload.Generator.GetPath | pr1/gflib/workload.c:43-53 | the choice and the advance of the counter |
| Download.CounterIsRecoverable | pr1/gflib/gfclient_download.c:39-43 | the digits after the last dash of a local name denote the counter, whatever the path |
| Download.NameShape | pr1/gflib/gfclient_download.c:39-43 | a local name is the path without its first character, a dash, and at least six digits, more only without a leading zero |
| Download.NamesDiffer | pr1/gflib/gfclient_download.c:39-43 | names of different requests differ |
| Download.NameFits | pr1/gflib/gfclient_download.c:95-145 | the name of an admitted path fits the 512 bytes |
| Download.DirectoriesAre | pr1/gflib/gfclient_download.c:49-63 | exactly the beginnings of the path before a slash at index 1 or later are made |
| Download.ParentsFirst | pr1/gflib/gfclient_download.c:49-63 | a directory is made after the directories that contain it |
| Download.MakeDirectories | pr1/gflib/gfclient_download.c:45-63 | the loop makes those directories in order, restores the buffer it cuts, terminates, and exits exactly when a call is refused |
| Download.RequestLoop | pr1/gflib/gfclient_download.c:137-147 | the local names of all requests have that shape with the number of the request, are pairwise distinct, even for repeated paths, and fit; the loop stops early only at a path of more than 256 characters |
| EndToEnd.Answer | pr1/gflib/handler.c:13-46 | from the request in the dirty buffer to the header and the file on the connection |
| EndToEnd.Fetch | pr1/gflib/gfclient.c:171-350 | for every non-empty file found under the path, every read schedule, every partial-send schedule behind the header and every split of the answer, the client gets exactly the file, returns 0 and reports status and lengths if and only if the split is one of those of `GfSplits.ArrivesIff` |
| EndToEnd.FetchMissing | pr1/gflib/handler.c:19-20 | for a path that the index does not have, the client learns FILE_NOT_FOUND from every split of the answer |
| EndToEnd.RejectionArrives | pr1/gflib/gfserver.c:190-194 | a rejected request reaches the client as FILE_NOT_FOUND, however the answer is split |

## Left out

- CString.Strtok.NextWord: says of the buffer only that cells stay or become NUL; `Next` says which one.
- GfServer.Server.ServeOne: says of the buffer afterwards only that bytes stay or become NUL, which is all the next request depends on.
- EndToEnd.Fetch: a header of which the first `write` takes only a part is not followed to the client.
- WorkQueue.Server.SendFile: the bytes of a file are counted (`WorkQueue.DoneMeansSent`), not compared with its contents; `Handler.HandlerGet` does that for the same loop.
- Content.Index.Init: a line longer than `fgets` takes at once appears as several lines.
- GfInvalid.UnknownStatusIff: the chunks leave room in the buffer; a full one without NUL leaves open what happens.
- GfInvalid.AnyLengthIff: the header ends on a boundary and is not broken; `GfSplits.ArrivesIff` has the other splits for numbers.
- Content.Index.Get: the `lseek` to the beginning of the file, on which no `pread` depends.
- Memory models weaker than sequential consistency.
- Runs of the monitor after a spurious wakeup that does harm, and more than one producer or consumer there.
- GfInvalid.WrongSchemeIsInvalid: answers that start with a blank, which `strtok` skips, are not covered.
- A variant of the worker loop with the emptiness test inside the lock; it would be a repair, not the source.
- Data races inside the steque operations, which count as single steps although the boss takes no lock.
- Overflow of `int` and `size_t` counters: of the steque's `N`, of the byte counters, and of the request counters beyond INT_MAX.
- The field `bytesreceived`, the stored header and the header callback, which is not called on every path that ends well.
- Socket set-up, name lookup, `accept`, option parsing, logging, memory freeing, random workload mode.
- Preparation/producer-consumer.c, whose test and `sleep` are not atomic, so that a wakeup can be lost.
- pr1/mtgf/gfclient_download.c and the metrics variant of the workload, which read shared counters outside their locks.
- pr1/echo, pr1/transfer, training/ and the rest of pr1/gflib/copy/: exercises and drafts.
