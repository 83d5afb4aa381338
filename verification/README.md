# A verified model of xdrpp

xdrpp is an ONC RPC stack in C++: a compiler for XDR declarations, a codec, record-marked messages over
sockets, an event loop, call dispatch, and a small replicated key/value demo on top. This project models
the parts of it that are hard to get right and proves what they are for. `dafny verify dfyconfig.toml`
checks all of it.

| module | models | main results |
|---|---|---|
| `PermuteArgs` | the in-place exchange of two blocks by gcd-many cycles | the cycles are disjoint, equally long and cover the range, so the two blocks end up exchanged and nothing else moves |
| `Getopt`, `GetoptWords` | `getopt_internal` as a resumable scanner, and what words mean | a whole run reports what a scan of the untouched argv says, and leaves argv as a stable partition, exactly if it does not stop at a lone '-' behind skipped operands; it terminates; what each kind of word reports, by its text, the option string and the table |
| `Endian`, `RecordMarking`, `MsgSock` | byte order, records, the incremental reader and the queueing writer | whatever the kernel does to the stream, the receiver has delivered a prefix of the messages put, and all of them once nothing is queued or on the way; a sender that has not stalled gets there in a bounded number of calls, if each takes at least one byte |
| `RpcSock` | replies matched to calls by xid | in every run each callback is invoked at most once, with its own reply or null, and exactly once when the socket is gone, if and only if `send_call()` has not lost it; which calls are lost is exact, and none is until the xid counter wraps |
| `Pollset` | the vector for poll(2) and its hash index | they stay a bijection through registration, one-shot firing and compaction; a call of poll() serves every ready descriptor, as far as no callback has touched it |
| `Inject`, `Signals`, `SignalRuns` | callbacks injected by other threads, and signal hand-off, as interleaved steps | no lost wake-up; in every run each signal is delivered, raised again or flagged, and an owner given up is not in use, unless a flag was cleared under a handler, which is exact |
| `UnionGen` | xdrc's unions: parser, the two emitted selections, the generated class | both selections pick the declared arm; exactly the arm of the discriminant is alive, with no double destruction and no leak |
| `Xdr`, `XdrLaws`, `XdrSize`, `XdrKnown`, `XdrPut`, `XdrGet`, `XdrMeaning` | the codec over a deep embedding of the types | exact conditions for encoding and decoding, prefix-freedom, sizes, loading into used objects; what each type former means, and lists of any length under recursive types |
| `XdrOrder`, `XdrOrderMeaning` | the comparison operators | a strict total order whose incomparability is equality, and which order it is |
| `RpcMsg`, `Reply`, `Dispatch`, `Calls` | the message grammar, the formatted replies, dispatch and reply handles | every reply reads as what the server meant, and every call gets exactly one, exactly if its method does not throw; a call's bytes decide its reply, and a remote call gives the client what the method makes of its arguments |
| `Tiering`, `TieringRuns`, `TieringEnds` | puts fanned out over any graph of servers | an acknowledged put is stored at every reachable leaf, and nothing else is stored; the leaves agree whenever the root is not at work; all puts can always still be answered, if and only if the graph has no cycle |
| `Uaddr` | universal addresses | the port is read back for every host |

## How the model is built

Code that works by changing things step by step is a class or a method over arrays, proved against a
function or predicate on values (`Scan`, `Parse`, `Enc`, `Dec`, `Exchanged`, ...); these in turn are tied
to each other by lemmas. Concurrent code is a state machine whose steps interleave, sequentially
consistent. System calls are parameters or arbitrary choices within their contracts: reads and writes
take any part of what they are offered, or block, or fail.

An XDR type is a value of `Xdr.Ty`; `TRef` names a struct or union that contains itself. A value is an
`Xdr.Val`, with numbers as raw words, so that a float is the word that holds it. `Typed` says that a C++
object of the type can hold the value, `Within(bounds)` that its unions have arms and, if `bounds`, that
declared maxima are met, `Depth` counts nested containers and classes, which is what `stack_limit` bounds.

The model follows the code where its comments or documents say something else:

* `msgsock.h` calls the length word little-endian; it is big-endian, as `nextlen()` and `message_t::alloc()`
  have it and section 11 of RFC 5531 wants it.
* A record that is too long makes `input()` report a failure and go round again. The callback is invoked in each
  turn of the loop that is left: three times, less one for each length word that the same call has dealt
  with before (`MsgSock.MsgSock.Input`; three, two and one reports in `MsgSock.OverlongArrives`).
* `output()` arms no write callback if its first `writev()` would block with none armed. `putmsg()` only writes
  when the queue was empty, so nothing is ever written again: later messages pile up behind the first.
  `MsgSock.MsgSock.PutMsg` and `Output` say exactly when that happens (`Stalled`).
* `rpc_sock::get_xid()` looks for the host-order xid among words in network order and does not look for 0. On
  a little-endian host it can give out the xid of a call that still waits, once the counter has wrapped, and the
  new callback is lost (`RpcSock.Collision`; exactly when, on either kind of host: `RpcSock.RpcSock.Invoke`).
* `rpc_sock::recv_call()` reports an incoming call through a null message if there is neither a server
  callback nor a message: exactly at the end of the stream and on garbage (`RpcSock.RpcSock.RecvMsg`).
* A signal stolen from a pollset while its handler is at work leaves the handler holding that pollset,
  which may be destroyed (`SignalRuns.StolenInFlight`).
* `signal_flags` can be cleared under a handler at work: by `erase_signal_cb()`, if the handler sets it between the
  two looks taken there, and by a pass, if a callback has registered the signal again during it. A later
  `erase_signal_cb()` then does not wait for the handler (`SignalRuns.SetBetweenLooks`,
  `SignalRuns.RegisteredDuringPass`), and a signal registered meanwhile is flagged without its owner being woken
  (`SignalRuns.FlaggedUnnoticed`). The theorems hold in all runs and name this as the only exception; for erasing,
  `SignalRuns.EraserWaits` makes it exact. `SignalRuns.DisciplinedRun` is what is left without it.
* The comment on `xvector` promises an error when too long a vector is marshaled. There is none, only
  when it is unmarshaled (`XdrPut.Put.PutValue`, `XdrGet.MessageRound`).
* Any word but 0 is unmarshaled as true, so an encoding need not be the only one that is read as its value
  (`XdrLaws.LooseBool`, `XdrLaws.CodeVersusStrict`).
* A method that throws has its call answered twice, and a message whose length is not a multiple of 4 makes
  `dispatch()` itself throw (`Dispatch.Server.Dispatch`).
* The callback of `async_tier` reads the success arm of every accepted reply, so that an error status
  throws out of it (`Reply.TierEscapes`).
* A tiered server connected to itself, directly or through others, can come to wait for its own answer for ever
  (`TieringEnds.CycleStuck`), and one without connections acknowledges what nobody stores
  (`TieringEnds.ChildlessAcks`; exactly when: `TieringRuns.StoredIffReachable`).
* Without a long option table, a cluster such as `-a-` stops a scan with skipped operands left in front of
  `optind` (`Getopt.LoneDashExample`).

## Model

| member | source | states |
|---|---|---|
| `PermuteArgs.ComputeGcd` | xdrdemo/cxx/xdrpp/compat/getopt_long.c:107-120 | the loop returns the greatest common divisor: it divides both arguments, and every common divisor is at most it |
| `PermuteArgs.GcdDivides` | xdrdemo/cxx/xdrpp/compat/getopt_long.c:107-120 | the recursive gcd divides both arguments |
| `PermuteArgs.Bezout` | xdrdemo/cxx/xdrpp/compat/getopt_long.c:107-120 | the gcd is an integer combination of its arguments |
| `PermuteArgs.GcdGreatest` | xdrdemo/cxx/xdrpp/compat/getopt_long.c:107-120 | no common divisor is greater |
| `PermuteArgs.VisitResidue` | xdrdemo/cxx/xdrpp/compat/getopt_long.c:138-154 | cycle i visits only offsets with residue i modulo the gcd, so that cycles are disjoint |
| `PermuteArgs.VisitDistinct` | xdrdemo/cxx/xdrpp/compat/getopt_long.c:138-154 | a cycle comes back to its start after exactly (A + B) / gcd steps and visits no offset twice before |
| `PermuteArgs.VisitCovers` | xdrdemo/cxx/xdrpp/compat/getopt_long.c:138-154 | every offset with residue i is visited by cycle i, so that together the cycles cover the range |
| `PermuteArgs.CyclePath` | xdrdemo/cxx/xdrpp/compat/getopt_long.c:138-154 | the path of cycle i takes each offset's element from its predecessor, and adds exactly its residue class to what is covered |
| `PermuteArgs.FollowCycle` | xdrdemo/cxx/xdrpp/compat/getopt_long.c:144-153 | the inner loop moves the elements of one cycle each one step on and touches nothing else |
| `PermuteArgs.Permute` | xdrdemo/cxx/xdrpp/compat/getopt_long.c:127-157 | for any two non-empty adjacent blocks A, B the array holds B A in their place and is otherwise unchanged |
| `Getopt.FindLong` | xdrdemo/cxx/xdrpp/compat/getopt_long.c:186-219 | the matching loop finds the first exact match, else the only partial one, or says that it is ambiguous or that there is none |
| `Getopt.Scanner.ParseLong` | xdrdemo/cxx/xdrpp/compat/getopt_long.c:164-284 | a long option moves `optind` over its word and its argument, and reports its value, its argument (behind '=', the next word, or none), `optopt`, `*idx` and the store through its flag, or why it is none |
| `Getopt.Scanner.ScanLetter` | xdrdemo/cxx/xdrpp/compat/getopt_long.c:421-477 | one letter of a cluster: how far `place` and `optind` move, and the letter, argument and `optopt` reported, with separate and attached arguments, -W, unknown letters and a lone '-' |
| `Getopt.Scanner.TryLong` | xdrdemo/cxx/xdrpp/compat/getopt_long.c:405-419 | a word that may be a long option is taken as one, or left as it was if it is none and a short option will do |
| `Getopt.Scanner.ScanWord` | xdrdemo/cxx/xdrpp/compat/getopt_long.c:399-477 | a call inside an option word does the step that the reference scan takes there, reports what it says, and returns -1 only at a lone '-' without a table |
| `Getopt.Scanner.AtEnd` | xdrdemo/cxx/xdrpp/compat/getopt_long.c:326-343 | at the end of argv the skipped operands are moved behind the options, and `optind` is the first of them |
| `Getopt.Scanner.SkipOperand` | xdrdemo/cxx/xdrpp/compat/getopt_long.c:362-374 | an operand is skipped, and a finished block of operands moved up to it, keeping the invariant of the whole run |
| `Getopt.Scanner.AtMarker` | xdrdemo/cxx/xdrpp/compat/getopt_long.c:382-396 | at "--" the partition is complete, with the marker consumed and the rest of argv untouched |
| `Getopt.Scanner.NextOption` | xdrdemo/cxx/xdrpp/compat/getopt_long.c:323-375 | the loop ends at an option word, at an operand taken in order, or with the partition complete |
| `Getopt.Scanner.Prologue` | xdrdemo/cxx/xdrpp/compat/getopt_long.c:304-322 | a reset forgets an earlier run; otherwise the scan resumes where it was |
| `Getopt.Scanner.GetoptInternal` | xdrdemo/cxx/xdrpp/compat/getopt_long.c:289-478 | every call makes progress and reports the next of the run's results; one that returns -1 has nothing left to report, and leaves the partition of the whole argv, if and only if it was not stopped by a lone '-' behind skipped operands, which needs that there is no table |
| `Getopt.OperandSkipped` | xdrdemo/cxx/xdrpp/compat/getopt_long.c:362-374 | moving the block of operands up to a further one keeps argv arranged as consumed words, operands, untouched rest |
| `Getopt.PartitionDone` | xdrdemo/cxx/xdrpp/compat/getopt_long.c:326-343 | at the end of a scan, moving the block of operands back completes the partition |
| `Getopt.MarkerDone` | xdrdemo/cxx/xdrpp/compat/getopt_long.c:382-396 | the same at "--" |
| `Getopt.StoppedAtDash` | xdrdemo/cxx/xdrpp/compat/getopt_long.c:421-430 | a scan stopped by a lone '-' leaves a partition if and only if it has skipped no operand |
| `Getopt.ReportsInWord` | xdrdemo/cxx/xdrpp/compat/getopt_long.c:399-477 | what is left to report inside a word is the report of one call and what is left after its step, in the word or behind it and the words it takes |
| `Getopt.Run` | xdrdemo/cxx/xdrpp/compat/getopt_long.c:485-499 | calls until -1 terminate; for every argv and every set of options, results and arguments are those that a scan of the untouched argv reports, though words are moved meanwhile, and the exact condition for argv to be partitioned holds |
| `Getopt.RunGetoptLong` | xdrdemo/cxx/xdrpp/compat/getopt_long.c:500-525 | with a long option table a whole run always partitions argv; if it permutes it ends at the end of argv or at "--" |
| `Getopt.StablePartition` | xdrdemo/cxx/xdrpp/compat/getopt_long.c:324-397 | the reference scan's consumed words and operands are the two parts of argv in original order, and the operands are non-options |
| `Getopt.PermutingScanEnds` | xdrdemo/cxx/xdrpp/compat/getopt_long.c:324-397 | a permuting scan with a table ends at the end of argv or at "--" |
| `Getopt.LoneDashExample` | xdrdemo/cxx/xdrpp/compat/getopt_long.c:421-430 | the cluster "-a-" stops a scan with an operand left in front of `optind` |
| `GetoptWords.LookupMeans` | xdrdemo/cxx/xdrpp/compat/getopt_long.c:186-226 | a text stands for the first entry of that name, else for the first that it abbreviates, unless two that it abbreviates differ in meaning, or are just two for getopt_long_only(); it is ambiguous exactly then, and unmatched exactly if it abbreviates none; a single letter that could be a short option abbreviates nothing |
| `GetoptWords.LongWithValue` | xdrdemo/cxx/xdrpp/compat/getopt_long.c:179-254 | "--n=a", and "-n=a" for getopt_long_only(), reports the entry that n stands for with the argument a, and then what follows; it is refused if the entry takes no argument |
| `GetoptWords.LongWithoutValue` | xdrdemo/cxx/xdrpp/compat/getopt_long.c:243-283 | "--n" reports the entry that n stands for; it takes the next word, as its argument, if and only if one is required, and is refused if there is none |
| `GetoptWords.LongUnknown` | xdrdemo/cxx/xdrpp/compat/getopt_long.c:220-275 | a name that stands for no entry is reported as '?', unless the word can be read as short options |
| `GetoptWords.Letter` | xdrdemo/cxx/xdrpp/compat/getopt_long.c:453-477 | a letter of the option string, by what stands behind it there: reported alone, with the attached text, or with the next word, which it takes if and only if an argument is required and none is attached; refused if there is none; the rest of the cluster follows |
| `GetoptWords.UnknownLetter` | xdrdemo/cxx/xdrpp/compat/getopt_long.c:421-437 | a character that is no option letter is reported as '?', and the cluster goes on |
| `GetoptWords.DashW` | xdrdemo/cxx/xdrpp/compat/getopt_long.c:438-452 | with "W;" in the option string, "-Wtext" and "-W text" report what "--text" does |
| `GetoptWords.ReportsTail` | xdrdemo/cxx/xdrpp/compat/getopt_long.c:323-397 | what is reported from a word on depends on the words from there on only |
| `GetoptWords.Operand` | xdrdemo/cxx/xdrpp/compat/getopt_long.c:311-374 | an operand is reported as 1 if the option string starts with '-'; it ends the run if that starts with '+', under POSIXLY_CORRECT, and for getopt(); otherwise it is set aside |
| `GetoptWords.XdrcSession` | xdrdemo/cxx/xdrpp/xdrc/xdrc.cc:112-135 | for xdrc's own options, "--session=T" and "-session=T" give 's' with T |
| `GetoptWords.XdrcServer` | xdrdemo/cxx/xdrpp/xdrc/xdrc.cc:112-135 | "-server" abbreviates two of its names and gives '?' |
| `Endian.BigEndianValue` | xdrdemo/cxx/xdrpp/xdrpp/marshal.h:45-82 | the byte at place i of a marshaled word counts 256 to the power 3 - i |
| `Endian.WordOrder` | xdrdemo/cxx/xdrpp/xdrpp/marshal.h:45-82 | words are in the order of their bytes: v < w if and only if the first byte that differs is less |
| `Endian.SwapReverses` | xdrdemo/cxx/xdrpp/xdrpp/endian.h:55-60 | the shifts and masks of swap32 reverse the bytes of a word |
| `Endian.SwapTwice` | xdrdemo/cxx/xdrpp/xdrpp/endian.h:55-60 | swap32 undoes itself |
| `Endian.Swap64Reverses` | xdrdemo/cxx/xdrpp/xdrpp/endian.h:62-68 | swap64 reverses all eight bytes and undoes itself |
| `Endian.NetworkOrder` | xdrdemo/cxx/xdrpp/xdrpp/endian.h:70-76 | on hosts of either byte order, storing a word through swap32le writes it big-endian, and loading it gets it back |
| `RecordMarking.ParseFrames` | xdrdemo/cxx/xdrpp/xdrpp/marshal.cc:15-31 | parsing a stream of the records that alloc() makes gives the messages, whatever follows |
| `RecordMarking.FramesOfParse` | xdrdemo/cxx/xdrpp/xdrpp/msgsock.cc:84-119 | what is parsed of any stream is exactly the frames of the messages and an incomplete or refused rest |
| `RecordMarking.ParseAppend` | xdrdemo/cxx/xdrpp/xdrpp/msgsock.cc:38-119 | more bytes never change what has been parsed before them |
| `RecordMarking.ParsePrefix` | xdrdemo/cxx/xdrpp/xdrpp/msgsock.cc:38-119 | every prefix of a stream of acceptable messages parses to a prefix of them and is refused nowhere |
| `RecordMarking.Message.constructor` | xdrdemo/cxx/xdrpp/xdrpp/marshal.cc:15-31 | alloc() writes the length word with the last-fragment bit in network order |
| `RecordMarking.Message.Shrink` | xdrdemo/cxx/xdrpp/xdrpp/marshal.cc:33-41 | shrink() keeps the front of the data and the length word in step, or changes nothing if the new size is greater |
| `RecordMarking.Message.RawIsFrame` | xdrdemo/cxx/xdrpp/xdrpp/marshal.cc:15-41 | what is sent of a message, after any shrinking, is one whole record of its data |
| `MsgSock.CaughtUpAtRest` | xdrdemo/cxx/xdrpp/xdrpp/msgsock.cc:38-119 | between calls the bytes consumed are the frames of the messages delivered, and the partial frame |
| `MsgSock.MsgSock.ReadBody` | xdrdemo/cxx/xdrpp/xdrpp/msgsock.cc:46-81 | one readv() for a body and the next length, cut anywhere, keeps the reader caught up |
| `MsgSock.MsgSock.Input` | xdrdemo/cxx/xdrpp/xdrpp/msgsock.cc:38-119 | any number of reads of any size keep the reader caught up; end of stream and errors are reported; a record that is too long is reported last, 3 - w times if the socket lives, where w is the number of length words that the same call has dealt with before |
| `MsgSock.AtRefusal` | xdrdemo/cxx/xdrpp/xdrpp/msgsock.cc:85-117 | a reader that has got to the length word of too long a message, wherever reads were cut, has delivered what comes before and holds nothing else |
| `MsgSock.OverlongArrives` | xdrdemo/cxx/xdrpp/xdrpp/msgsock.cc:38-119 | too long a record behind none, one or two messages, all there when input() is called: these are delivered, and it is reported three times, twice, or once |
| `MsgSock.MsgSock.PopWbytes` | xdrdemo/cxx/xdrpp/xdrpp/msgsock.cc:136-155 | dropping n written bytes drops exactly n bytes of what is queued, and keeps `wstart_` inside the front message |
| `MsgSock.MsgSock.Output` | xdrdemo/cxx/xdrpp/xdrpp/msgsock.cc:157-188 | accepted bytes and queued bytes together stay what was put; when the write callback is armed, and when the queue stalls |
| `MsgSock.MsgSock.PutMsg` | xdrdemo/cxx/xdrpp/xdrpp/msgsock.cc:121-134 | a message is queued behind the others, or dropped after a failure; the queue stalls if and only if it was stalled already or this first attempt to write blocked |
| `MsgSock.EndToEnd` | xdrdemo/cxx/xdrpp/xdrpp/msgsock.cc:38-188 | the receiver has delivered a prefix of the messages put, refused none, and has them all once nothing is queued or under way |
| `MsgSock.Session` | xdrdemo/cxx/xdrpp/xdrpp/msgsock.cc:38-188 | the same over whole runs of puts, write callbacks and read callbacks in any order |
| `MsgSock.Drain` | xdrdemo/cxx/xdrpp/xdrpp/msgsock.cc:38-188 | write and read callbacks in any order, each of whose system calls takes at least one byte, deliver all that a sender has put that has not stalled or failed, in at most two calls for each byte queued and one for each under way |
| `RpcSock.WordAt` | xdrdemo/cxx/xdrpp/xdrpp/message.h:43-45 | word i of a message whose bytes are those of some words is the i-th of them, in the host's memory order, for every i |
| `RpcSock.NextXid` | xdrdemo/cxx/xdrpp/xdrpp/msgsock.h:120-124 | the probe gives the least xid above that is not a key, or 0 if all above are keys |
| `RpcSock.Collision` | xdrdemo/cxx/xdrpp/xdrpp/msgsock.h:120-124 | on a little-endian host the counter comes round while the first call waits: its xid is given out again and the second callback is lost |
| `RpcSock.RpcSock.Invoke` | xdrdemo/cxx/xdrpp/xdrpp/arpc.h:64-82 | a call's callback is lost if and only if, on a big-endian host, the counter has come to 0 while call 0 waits, and on a little-endian host, the swapped xid is a key; never before the counter wraps |
| `RpcSock.AccountedIssue` | xdrdemo/cxx/xdrpp/xdrpp/msgsock.cc:227-232 | a call under an xid whose word is free keeps the account: every callback waits under its own xid, was lost, or was invoked once |
| `RpcSock.AccountedLose` | xdrdemo/cxx/xdrpp/xdrpp/msgsock.cc:227-232 | so does one that is lost since its word is taken |
| `RpcSock.AccountedFire` | xdrdemo/cxx/xdrpp/xdrpp/msgsock.cc:190-225 | so does invoking a callback that was taken out, with its own reply or null, even if its xid has been given out again |
| `RpcSock.RpcSock.GetXid` | xdrdemo/cxx/xdrpp/xdrpp/msgsock.h:115-124 | the xid given out is the first above the last one that is not a key of the calls waiting, or 0 if there is none |
| `RpcSock.RpcSock.SendCall` | xdrdemo/cxx/xdrpp/xdrpp/msgsock.cc:227-232 | a callback is lost if and only if a call waits under the same word |
| `RpcSock.RpcSock.RecvMsg` | xdrdemo/cxx/xdrpp/xdrpp/msgsock.cc:202-225 | on the bytes: xid x and 1 and anything behind it goes to the callback that waits under x, if there is one, and to no other; x and 0 goes to recv_call(). An unknown reply disturbs nothing, garbage and end of stream abort every call and, if and only if there is no server callback, make recv_call() use a null message |
| `RpcSock.RpcSock.AbortAllCalls` | xdrdemo/cxx/xdrpp/xdrpp/msgsock.cc:190-200 | every waiting callback is invoked with null, though callbacks may issue further calls |
| `RpcSock.RpcSock.Destroy` | xdrdemo/cxx/xdrpp/xdrpp/msgsock.h:104-112 | in every run, when the socket is gone a callback has been invoked if and only if it was not lost, none more than once, and each with its own reply or null; before the counter wraps none is lost |
| `Pollset.SwapWithLast` | xdrdemo/cxx/xdrpp/xdrpp/pollset.cc:311-337 | exchanging an entry with the last one keeps vector and index a bijection |
| `Pollset.DropLast` | xdrdemo/cxx/xdrpp/xdrpp/pollset.cc:311-337 | so does dropping the last entry with its index entry |
| `Pollset.Pollset.FdCbHelper` | xdrdemo/cxx/xdrpp/xdrpp/pollset.cc:131-167 | a registration keeps the bijection and changes no other descriptor |
| `Pollset.Pollset.FdRemove` | xdrdemo/cxx/xdrpp/xdrpp/pollset.cc:169-185 | a removal clears exactly the callbacks and events named |
| `Pollset.Pollset.Consolidate` | xdrdemo/cxx/xdrpp/xdrpp/pollset.cc:311-337 | exactly the descriptors without callbacks are dropped, no surviving registration changes, and no dropped state has a callback |
| `Pollset.Pollset.Dispatch` | xdrdemo/cxx/xdrpp/xdrpp/pollset.cc:233-257 | a readable descriptor's read callback runs, and a writable one's write callback unless the read callback has touched it; one-shot callbacks are gone when they run, and callbacks may register and remove anything |
| `Pollset.ReadyRest` | xdrdemo/cxx/xdrpp/xdrpp/pollset.cc:233-239 | once as many ready descriptors have been seen as poll(2) has counted, none of the rest is ready, so that the loop may stop |
| `Pollset.RanMeans` | xdrdemo/cxx/xdrpp/xdrpp/pollset.cc:216-259 | in the terms of `Poll`: each callback that ran, ran for an entry that poll(2) reported readable, or writable, as the callback is for reading or writing |
| `Pollset.ServedMeans` | xdrdemo/cxx/xdrpp/xdrpp/pollset.cc:216-259 | in the terms of `Poll`: the read callback registered for each entry reported readable has run, and the write callback for each reported writable |
| `Pollset.Pollset.Poll` | xdrdemo/cxx/xdrpp/xdrpp/pollset.cc:216-259 | every descriptor that poll(2) reports is served for each operation that no callback has touched meanwhile, every callback that runs is due to such a report, none runs twice for one operation, and only descriptors with callbacks are left |
| `Inject.RunInv` | xdrdemo/cxx/xdrpp/xdrpp/pollset.cc:82-115 | the invariant of injectors and runner holds in every state of every interleaving |
| `Inject.NoLostWakeup` | xdrdemo/cxx/xdrpp/xdrpp/pollset.h:246-255 | a waiting callback has a byte in the pipe, or a runner or injector about to see to it; callbacks run once each, in the order injected |
| `Inject.Delivered` | xdrdemo/cxx/xdrpp/xdrpp/pollset.cc:82-115 | from every reachable state without a thread in its critical section, the runner's own steps run all that was injected |
| `SignalRuns.RunInv` | xdrdemo/cxx/xdrpp/xdrpp/pollset.cc:28-44 | the invariant of handlers, passes, registrars and erasers holds in every run, and a stronger one in disciplined runs |
| `SignalRuns.NoSignalLost` | xdrdemo/cxx/xdrpp/xdrpp/pollset.cc:339-371 | in every run each signal caught is delivered, raised again or flagged, and how often more than once; a flagged signal under an owner has a byte in its pipe or its pass still to come, also across a steal, unless a handler whose flag was cleared under it has flagged it since |
| `SignalRuns.ErasedIsReleased` | xdrdemo/cxx/xdrpp/xdrpp/pollset.cc:373-398 | in every run, when erase_signal_cb() is about to return, no handler holds the former owner or any other, unless the flag was cleared under it |
| `SignalRuns.ClosedIsReleased` | xdrdemo/cxx/xdrpp/xdrpp/pollset.cc:56-67 | in every run, a handler that holds a destroyed pollset got hold of it before its signal was stolen, or the flag was cleared under it |
| `SignalRuns.EraserWaits` | xdrdemo/cxx/xdrpp/xdrpp/pollset.cc:373-398 | in every state of every run with the lock free and a handler that holds its signal's owner: some run without a step of this handler erases the signal, if and only if the flag was cleared under it |
| `SignalRuns.DisciplinedRun` | xdrdemo/cxx/xdrpp/xdrpp/pollset.cc:277-398 | if nothing is registered on a pollset during its pass, and no handler sets a flag between the eraser's two looks, no flag is cleared under a handler: exactly-once delivery and release without exception |
| `SignalRuns.StolenInFlight` | xdrdemo/cxx/xdrpp/xdrpp/pollset.cc:339-371 | a run that ends there: a signal is stolen while its handler holds the old owner, which is then destroyed |
| `SignalRuns.SetBetweenLooks` | xdrdemo/cxx/xdrpp/xdrpp/pollset.cc:373-398 | a run in which the flag is set between the eraser's two looks, and a later eraser leaves a handler holding its owner |
| `SignalRuns.RegisteredDuringPass` | xdrdemo/cxx/xdrpp/xdrpp/pollset.cc:277-309 | a run in which a callback registers a signal again during the pass, with the same end |
| `SignalRuns.FlaggedUnnoticed` | xdrdemo/cxx/xdrpp/xdrpp/pollset.cc:28-44 | a run in which a handler whose flag was cleared flags its signal again, behind the back of an owner registered meanwhile, and the signal counts twice |
| `UnionGen.SelectMeans` | xdrdemo/cxx/xdrpp/xdrc/gen_hh.cc:336-364 | the arm for a discriminant is the first that has it as a case or, if none has, the first with the default; there is none exactly if there is neither |
| `UnionGen.NumberCounts` | xdrdemo/cxx/xdrpp/xdrc/parse.yy:203-235 | the number of a field is one more than the number of fields in front of it, and that of a void arm 0 |
| `UnionGen.NumberInjective` | xdrdemo/cxx/xdrpp/xdrc/parse.yy:223-235 | a field number above 0 names one arm |
| `UnionGen.CaseList` | xdrdemo/cxx/xdrpp/xdrc/parse.yy:161-187 | a list of labels is rejected if and only if it repeats the default |
| `UnionGen.UnionBody` | xdrdemo/cxx/xdrpp/xdrc/parse.yy:203-235 | a union is rejected if and only if it has two defaults; fields are numbered from 1 in order, void arms 0 |
| `UnionGen.UnionFunction` | xdrdemo/cxx/xdrpp/xdrc/gen_hh.cc:336-364 | the emitted chain gives, for every discriminant, the number of the arm declared for it, or -1 |
| `UnionGen.WithMemPtr` | xdrdemo/cxx/xdrpp/xdrc/gen_hh.cc:446-464 | the emitted switch applies, for every discriminant, the member declared for it and returns true, or returns false |
| `UnionGen.Generate` | xdrdemo/cxx/xdrpp/xdrc/gen_hh.cc:366-464 | every declaration with distinct cases that the parser lets through is emitted as meant |
| `UnionGen.FormsAgree` | xdrdemo/cxx/xdrpp/xdrc/gen_hh.cc:434-464 | chain and switch agree: true exactly if the number is not -1, and the member of that number is the one applied |
| `UnionGen.Generated.constructor` | xdrdemo/cxx/xdrpp/xdrc/gen_hh.cc:486-491 | exactly the member of the discriminant is alive after construction |
| `UnionGen.Generated.Copy` | xdrdemo/cxx/xdrpp/xdrc/gen_hh.cc:493-498 | a copy has the discriminant and the member of its source |
| `UnionGen.Generated.SetDiscriminant` | xdrdemo/cxx/xdrpp/xdrc/gen_hh.cc:466-484 | throws if and only if validation finds no arm; otherwise the field survives exactly if the new discriminant names it, and a new one is constructed where it does not |
| `UnionGen.Generated.Assign` | xdrdemo/cxx/xdrpp/xdrc/gen_hh.cc:511-526 | takes over discriminant and member, also from itself, with each member destroyed before another is constructed |
| `UnionGen.Generated.Destroy` | xdrdemo/cxx/xdrpp/xdrc/gen_hh.cc:506-508 | nothing is alive afterwards, and every construction was matched by one destruction |
| `UnionGen.Generated.Access` | xdrdemo/cxx/xdrpp/xdrc/gen_hh.cc:555-567 | the accessor of a field throws if and only if the discriminant does not select it |
| `XdrLaws.DecEnc` | xdrdemo/cxx/xdrpp/xdrpp/marshal.h:170-200 | for every type and value: decoding its encoding and anything behind it gives back the value and what is behind it, if and only if the value is within its bounds, its unions have arms and it is no deeper than the limit; otherwise it fails |
| `XdrLaws.DecSound` | xdrdemo/cxx/xdrpp/xdrpp/types.h:328-340 | every value decoded is well typed, within its bounds and depth, and as many bytes were taken as its encoding has |
| `XdrLaws.PrefixFree` | xdrdemo/cxx/xdrpp/xdrpp/marshal.h:110-136 | no encoding of a value begins with that of another of its type, and encodings determine values |
| `XdrLaws.StrictExact` | xdrdemo/cxx/xdrpp/xdrpp/marshal.h:170-200 | a decoder that takes only 0 and 1 for bools reads exactly the encodings of values within bounds and depth |
| `XdrLaws.CodeVersusStrict` | xdrdemo/cxx/xdrpp/xdrpp/types.h:283-290 | the code reads all of these alike; what else it reads has the length of the encoding of its value and differs from it |
| `XdrLaws.LooseBool` | xdrdemo/cxx/xdrpp/xdrpp/types.h:283-290 | every word but 0 is read as true, which is written as 1, and selects the same arm of a union as 1 |
| `XdrMeaning.NameMeans` | xdrdemo/cxx/xdrpp/xdrpp/marshal.h:170-200 | a name declared as a struct or union is held, bounded, marshaled, unmarshaled, sized and compared just as what is declared |
| `XdrMeaning.OpaqueMeans` | xdrdemo/cxx/xdrpp/xdrpp/marshal.cc:59-72 | opaque data: the bytes, and zeros up to a multiple of four |
| `XdrMeaning.BytesMeans` | xdrdemo/cxx/xdrpp/xdrpp/marshal.h:118-127 | strings and variable opaque data: the length, and the bytes as opaque data; bounded by the declared maximum |
| `XdrMeaning.StructMeans` | xdrdemo/cxx/xdrpp/xdrpp/types.h:662-690 | a struct: its fields, one after the other |
| `XdrMeaning.ArrayMeans` | xdrdemo/cxx/xdrpp/xdrpp/types.h:322-327 | an array: its elements, one after the other |
| `XdrMeaning.VectorMeans` | xdrdemo/cxx/xdrpp/xdrpp/types.h:322-327 | a vector: the number of elements, which the declared maximum bounds, and the elements |
| `XdrMeaning.PointerMeans` | xdrdemo/cxx/xdrpp/xdrpp/types.h:322-327 | a pointer: 0, or 1 and what it points to |
| `XdrMeaning.UnionMeans` | xdrdemo/cxx/xdrpp/xdrc/gen_hh.cc:634-667 | a union: the discriminant, and the field of the first arm that has it as a case or else of the first default |
| `XdrMeaning.NoArmMeans` | xdrdemo/cxx/xdrpp/xdrc/gen_hh.cc:634-667 | a discriminant without an arm can be held, without a field, but not marshaled |
| `XdrMeaning.DepthMeans` | xdrdemo/cxx/xdrpp/xdrpp/marshal.h:193-200 | a container or class is one level deeper than the deepest thing inside, all else is no level deep |
| `XdrMeaning.ChainMeans` | xdrdemo/cxx/xdrpp/xdrpp/rpcb_prot.x:32-37 | under a struct with a pointer to its own kind, a list of any length can be held; it is marshaled as 1 and the element for each, and a final 0, and is two levels deep for each |
| `XdrMeaning.ChainRound` | xdrdemo/cxx/xdrpp/xdrpp/rpcb_prot.x:32-37 | these bytes, and anything behind them, are read as that list, if and only if its elements are within their bounds and the limit allows for the levels |
| `XdrMeaning.OnlyChains` | xdrdemo/cxx/xdrpp/xdrpp/rpcb_prot.x:32-37 | every value of the type is such a list |
| `XdrMeaning.NumberListRound` | xdrdemo/cxx/xdrpp/tests/xdrtest.x:29-33 | a list of k numbers is marshaled as 2 k words, each number followed by 1 and the last by 0, and is read back if and only if the limit is at least 2 k |
| `XdrMeaning.NumberListReceived` | xdrdemo/cxx/xdrpp/xdrpp/marshal.h:270-279 | a message of these words is received as that list under the same condition, and refused otherwise |
| `XdrSize.FixedExact` | xdrdemo/cxx/xdrpp/xdrpp/types.h:349-362 | every value of a type with has_fixed_size is marshaled in fixed_size bytes |
| `XdrSize.SizeExact` | xdrdemo/cxx/xdrpp/xdrpp/types.h:341-362 | serial_size with its constant-time shortcuts is the length of the encoding, and throws if and only if some union has no arm |
| `XdrSize.StructExact` | xdrdemo/cxx/xdrpp/xdrpp/types.h:643-686 | so it is for structs whose remaining fields all have a fixed size |
| `XdrSize.Aligned` | xdrdemo/cxx/xdrpp/xdrpp/marshal.cc:59-72 | encodings are whole words |
| `XdrPut.PaddingFits` | xdrdemo/cxx/xdrpp/xdrpp/marshal.h:104-127 | where the room is a whole number of words, the check of the unpadded length is enough for the padded write or read, and never too strict |
| `XdrPut.Put.Put32` | xdrdemo/cxx/xdrpp/xdrpp/marshal.h:45-82 | on hosts of either byte order the word is in the buffer big-endian |
| `XdrPut.Put.Put64` | xdrdemo/cxx/xdrpp/xdrpp/marshal.h:45-82 | so is the double word, whose halves lie in the host's order before |
| `XdrPut.Put.PutBytes` | xdrdemo/cxx/xdrpp/xdrpp/marshal.cc:59-72 | the bytes and zeros up to a whole word are written, inside the buffer |
| `XdrPut.Put.PutValue` | xdrdemo/cxx/xdrpp/xdrpp/marshal.h:110-136 | exactly the encoding is written, the limit restored and nothing outside the buffer's free part touched; it works exactly if unions have arms, the depth is within the limit and there is room, and each exception is thrown only for its cause |
| `XdrPut.Put.PutAll` | xdrdemo/cxx/xdrpp/xdrpp/types.h:322-327 | the same for the elements of a container, the fields of a struct and the arguments of a message |
| `XdrPut.ToMsg` | xdrdemo/cxx/xdrpp/xdrpp/marshal.h:246-255 | the message is a whole record of the encodings, filled exactly to its end; which exception is thrown exactly when |
| `XdrGet.Get.Get32` | xdrdemo/cxx/xdrpp/xdrpp/marshal.h:45-82 | on hosts of either byte order a big-endian word is read |
| `XdrGet.Get.GetData` | xdrdemo/cxx/xdrpp/xdrpp/marshal.cc:43-57 | the target is overwritten with the bytes, and padding other than zeros is refused |
| `XdrGet.Get.GetLead` | xdrdemo/cxx/xdrpp/xdrc/gen_hh.cc:656-667 | the number of elements is checked against the type's maximum, and the discriminant has an arm |
| `XdrGet.SameField` | xdrdemo/cxx/xdrpp/xdrc/gen_hh.cc:470-484 | where a new discriminant keeps the old field, it wants a field of the type that is there |
| `XdrGet.TargetsFit` | xdrdemo/cxx/xdrpp/xdrpp/types.h:328-340 | the objects that load() goes through are of the types it reads, whatever the target held: shorter or longer vectors, set or null pointers, another arm |
| `XdrGet.Get.LoadAll` | xdrdemo/cxx/xdrpp/xdrpp/types.h:442-452 | the loop over extend_at() ends with exactly the values read, however many elements there were before |
| `XdrGet.Get.GetValue` | xdrdemo/cxx/xdrpp/xdrpp/marshal.h:170-200 | result, exception and cursor are those the format prescribes, whatever the target held before, and the limit is restored |
| `XdrGet.FromMsg` | xdrdemo/cxx/xdrpp/xdrpp/marshal.h:270-279 | a message is taken only as a whole, and only if its length is a multiple of 4 |
| `XdrGet.MessageRound` | xdrdemo/cxx/xdrpp/xdrpp/marshal.h:246-279 | a message made of some values is received as just these if they are within bounds and the receiver's limit, and refused otherwise |
| `XdrGet.Transmit` | xdrdemo/cxx/xdrpp/xdrpp/marshal.h:246-279 | from values to a record and back between hosts of either byte order, into objects in any state |
| `XdrOrder.Trichotomy` | xdrdemo/cxx/xdrpp/xdrpp/types.h:595-613 | for types without floats exactly one of v < w, v == w, w < v holds |
| `XdrOrder.Transitive` | xdrdemo/cxx/xdrpp/xdrpp/types.h:1016-1046 | operator< is transitive through structs, unions, pointers, arrays and vectors |
| `XdrOrder.EqualExact` | xdrdemo/cxx/xdrpp/xdrpp/types.h:906-946 | operator== holds exactly of equal values |
| `XdrOrder.StrictTotalOrder` | xdrdemo/cxx/xdrpp/xdrpp/types.h:906-1046 | operator< is a strict total order whose incomparability is operator== |
| `XdrOrderMeaning.NoFloatMeans` | xdrdemo/cxx/xdrpp/xdrpp/types.h:906-946 | the theorems on the order are about all types but those with a floating-point number inside |
| `XdrOrderMeaning.NumbersLess` | xdrdemo/cxx/xdrpp/xdrpp/types.h:232-290 | numbers are in the order of their values, in two's complement where signed, and false comes before true |
| `XdrOrderMeaning.BytesMeansLess` | xdrdemo/cxx/xdrpp/xdrpp/types.h:475-540 | strings and opaque data: at the first byte that differs the left one is less, or there is none and the left one is shorter |
| `XdrOrderMeaning.StructLess` | xdrdemo/cxx/xdrpp/xdrpp/types.h:1030-1046 | structs: at the first field that differs the left one is less |
| `XdrOrderMeaning.ElementsLess` | xdrdemo/cxx/xdrpp/xdrpp/types.h:442-452 | arrays and vectors: at the first element that differs the left one is less, or there is none and the left one is shorter |
| `XdrOrderMeaning.PointerLess` | xdrdemo/cxx/xdrpp/xdrpp/types.h:595-613 | null comes before a set pointer, and set ones are in the order of what they point to |
| `XdrOrderMeaning.UnionLess` | xdrdemo/cxx/xdrpp/xdrpp/types.h:1017-1031 | unions: by the number of the discriminant, and then by the field of the arm that applies to it; a void arm has no order |
| `XdrOrder.EqualEncodings` | xdrdemo/cxx/xdrpp/xdrpp/types.h:906-1046 | x == y if and only if their encodings are the same bytes |
| `Reply.Format` | xdrdemo/cxx/xdrpp/xdrpp/server.cc:8-23 | the words put into a message fill the size allocated for them |
| `Reply.AcceptedErrorMsg` | xdrdemo/cxx/xdrpp/xdrpp/server.cc:8-23 | the message is the words xid, 1, 0, 0, 0, stat; every client reads it as a reply to that call with that status, and as a failure |
| `Reply.ProgMismatchMsg` | xdrdemo/cxx/xdrpp/xdrpp/server.cc:25-40 | the words xid, 1, 0, 0, 0, 2, low, high, read as PROG_MISMATCH with the bounds given |
| `Reply.AuthErrorMsg` | xdrdemo/cxx/xdrpp/xdrpp/server.cc:42-54 | the words xid, 1, 1, 1, stat, read as a refusal for authentication |
| `Reply.RpcMismatchMsg` | xdrdemo/cxx/xdrpp/xdrpp/server.cc:56-70 | the words xid, 1, 1, 0, 2, 2, read as a refusal for the RPC version |
| `Reply.SuccessHdrIs` | xdrdemo/cxx/xdrpp/xdrpp/server.h:27-55 | the success header marshaled field by field is a reply under the grammar, with xid, time and path |
| `Reply.SuccessHdrSize` | xdrdemo/cxx/xdrpp/xdrpp/server.h:41-43 | its own serial_size is the size of what it marshals |
| `Reply.SuccessMsg` | xdrdemo/cxx/xdrpp/xdrpp/arpc.h:258-273 | the client gets the result if it is within its bounds and the client's limit, else a garbage status; the header reads as xid, time and path |
| `Reply.ReadError` | xdrdemo/cxx/xdrpp/xdrpp/rpc_msg.cc:69-90 | a whole reply with an error header is understood as the status that rpc_call_stat takes from it |
| `Reply.RefusalUnderstood` | xdrdemo/cxx/xdrpp/xdrpp/rpc_msg.cc:69-90 | from the words of each formatted refusal, the callback of the call, whatever result it expects, gets that status and no result |
| `Reply.ResultUnderstood` | xdrdemo/cxx/xdrpp/xdrpp/arpc.h:83-95 | from the words of a success header, time, path and a marshaled result, it gets success and that result, if and only if the result is within its bounds and the client's limit |
| `Reply.TierEscapes` | xdrdemo/cxx/xdrpp/xdrpp/arpc.h:166-219 | a tier's callback throws on every error of an accepted call |
| `Dispatch.ReplyCb.Send` | xdrdemo/cxx/xdrpp/xdrpp/arpc.h:252-281 | a use of a handle sends the message that means it and disarms the handle |
| `Dispatch.ReplyCb.Release` | xdrdemo/cxx/xdrpp/xdrpp/arpc.h:247-247 | the last handle to go refuses with PROC_UNAVAIL if nobody has replied |
| `Dispatch.Serve` | xdrdemo/cxx/xdrpp/xdrpp/arpc.h:234-281 | however handles are copied, dropped and used at most once, exactly one message goes out, and it is the one intended |
| `Dispatch.Server.Register` | xdrdemo/cxx/xdrpp/xdrpp/server.cc:72-76 | a service is found under its own program and version, and others are not disturbed |
| `Dispatch.Server.RefuseVersion` | xdrdemo/cxx/xdrpp/xdrpp/server.cc:102-107 | an unknown version is refused with the least and the greatest registered one |
| `Dispatch.Server.Process` | xdrdemo/cxx/xdrpp/xdrpp/arpc.h:356-391 | unknown procedures and bad arguments are refused, and others served |
| `Dispatch.Server.Dispatch` | xdrdemo/cxx/xdrpp/xdrpp/server.cc:78-117 | what becomes of every message: ignored, refused with its cause and, for PROG_MISMATCH, the least and greatest version registered, or served; the replies read as meant, and a well-formed call gets exactly one if and only if its method is not one that throws |
| `Dispatch.OpenTyped` | xdrdemo/cxx/xdrpp/xdrpp/rpc_msg.x:79-144 | every header that can be decoded is that of a call or of a reply, as its discriminant says; xid, version, program, program version and procedure of a call are the words at their places |
| `Calls.CallIs` | xdrdemo/cxx/xdrpp/xdrpp/arpc.h:67-72 | the header that a client fills in is marshaled as the words xid, 0, 2, prog, vers, proc, 0, 0, 0, 0, mode |
| `Calls.CallRead` | xdrdemo/cxx/xdrpp/xdrpp/server.cc:78-91 | these words, and anything behind them, are opened as that call, with the rest left |
| `Calls.DecWrapped` | xdrdemo/cxx/xdrpp/xdrpp/server.h:66-126 | arguments wrapped in transparent pointers are read as without them, one level deeper |
| `Calls.ArgsRound` | xdrdemo/cxx/xdrpp/xdrpp/server.h:211-220 | marshaled arguments are read as themselves, if and only if they are within their bounds and two levels less deep than the limit |
| `Calls.DispatchCall` | xdrdemo/cxx/xdrpp/xdrpp/server.cc:78-117 | on the bytes of a call: the words of the reply, by its words prog, vers and proc: PROG_UNAVAIL if and only if prog is not registered, the least and greatest version registered if vers is not, PROC_UNAVAIL if there is no such procedure, GARBAGE_ARGS if what follows is not its arguments, and otherwise what the method called with them makes of its reply handle, with one more refusal if it throws |
| `Calls.UsesOk` | xdrdemo/cxx/xdrpp/xdrpp/server.cc:8-12 | what a method may do with its reply handle: refuse for authentication, refuse with any status but SUCCESS and PROG_MISMATCH, or answer with a result that can be marshaled behind the header in one message |
| `Calls.RemoteCall` | xdrdemo/cxx/xdrpp/xdrpp/arpc.h:60-123 | between hosts of either byte order, the client's callback gets what the method makes of the very arguments that were sent, or GARBAGE_ARGS if these break their bounds or are too deep |
| `TieringRuns.RunInv` | xdrdemo/cxx/tiering_server.cc:48-66 | in every run the counter of a master is the number of answers not yet taken, and each outstanding request belongs to a master at work on its put |
| `Tiering.SpinDone` | xdrdemo/cxx/tiering_server.cc:62-63 | the spin loop ends only when every answer has been taken |
| `TieringRuns.AckedIsStored` | xdrdemo/cxx/tiering_server.cc:48-66 | on any graph, once a server has answered a put every leaf that it reaches has stored the value since it began |
| `TieringRuns.StoredIsPut` | xdrdemo/cxx/async_server.cc:17-27 | whatever a leaf has stored is a client's put, and there is a path to the leaf from the server that the client turned to |
| `TieringRuns.StoredIffReachable` | xdrdemo/cxx/tiering_server.cc:48-66 | an answered put has been stored on its behalf somewhere, if and only if some leaf can be reached from its server |
| `TieringRuns.LeavesAgree` | xdrdemo/cxx/async_server.cc:17-27 | if all puts enter at the root, then whenever it is not at work every leaf it reaches holds what the acknowledged puts make |
| `TieringEnds.Progress` | xdrdemo/cxx/tiering_server.cc:48-66 | without cycles, something can move as long as a put is not done with |
| `TieringEnds.WorkStep` | xdrdemo/cxx/tiering_server.cc:48-66 | every step but a client's call lowers the steps that are left by exactly one, counting those of all requests still to be sent |
| `TieringEnds.PutsGetDone` | xdrdemo/cxx/tiering_server.cc:48-66 | on a graph without cycles, from every state of every run, without further calls by clients: every run has at most so many steps, can go on while it has fewer, and has as many exactly when every put has been answered |
| `TieringEnds.ChildlessAcks` | xdrdemo/cxx/tiering_server.cc:53-65 | a master without connections acknowledges what nobody stores |
| `TieringEnds.CycleStuck` | xdrdemo/cxx/tiering_server.cc:53-65 | on every graph, for every cycle of masters, a run leads to a state from which the client's put stays unanswered in every continuation |
| `TieringEnds.RankOrCycle` | xdrdemo/cxx/tiering_server.cc:121-136 | the connections have a rank if and only if they have no cycle |
| `TieringEnds.DoneIffNoCycle` | xdrdemo/cxx/tiering_server.cc:48-66 | from every state of every run all puts can still be answered, if and only if the graph has no cycle |
| `Uaddr.Decimal` | xdrdemo/cxx/xdrpp/xdrpp/rpcbind.cc:146-157 | a number is printed in decimal: the digits of its tenth, and its last digit |
| `Uaddr.StoiReads` | xdrdemo/cxx/xdrpp/xdrpp/rpcbind.cc:131-133 | a component is white space, a sign and digits, whatever follows, and a value beyond an int is out of range |
| `Uaddr.StoiOfToString` | xdrdemo/cxx/xdrpp/xdrpp/rpcbind.cc:131-133 | a number printed in decimal is read back, whatever follows its digits |
| `Uaddr.UaddrRound` | xdrdemo/cxx/xdrpp/xdrpp/rpcbind.cc:121-157 | the port of an address made of any host and any port from 1 to 65535 is read back, and no other port has an address |

## Left out

- Getopt: argv has at least one word, and no long option has the value -1 without a flag, which would look like the end; diagnostics and the environment are not modelled beyond the switch for POSIXLY_CORRECT.
- MsgSock: a destroyed socket is marked, not freed; in `Drain` and `OverlongArrives` allocations succeed and callbacks leave the socket alone; the order in which pollset runs callbacks is arbitrary; lengths that cannot be allocated are refused by the limit.
- RpcSock: callbacks issue no calls while the socket is destroyed; a late reply to an xid that was given out again counts as the new call's own.
- Pollset: poll(2) is a parameter, as is whether it was interrupted; timeouts, signals and injected callbacks are in other modules or left out; callbacks do not call poll() again.
- Inject: callbacks do not throw; `inject_cb_vec`, the exception path, moves to the end of a vector it has not grown and is not modelled.
- Signals: the self-pipe is not full, one activation of the handler per signal number, sigaction() succeeds; memory is sequentially consistent.
- UnionGen.Generated.Assign: move construction and move assignment, and exceptions thrown by the fields' own constructors, are not modelled.
- Xdr: user-defined validate() functions, aliases of the std types, and the 32-bit overflow of a tuple's fixed_size are not modelled; a TRef to a name that is not declared stands for an empty struct.
- XdrPut.Put.PutValue: what stack_limit is after an exception is left open, as is what has been written up to then.
- XdrGet.Get.GetValue: what is left in the target after an exception is not modelled.
- XdrOrder: floating-point comparison; types that contain floats are outside its theorems.
- Reply: the text of messages, and how time and path are computed from the tracing tables, which are keyed by xids of different connections; both are parameters.
- Calls.RemoteCall: the method does not throw; what happens otherwise is in `Calls.DispatchCall`.
- Calls.DispatchCall: a header whose credential and verifier are not AUTH_NONE, which this client never sends; `Dispatch.Server.Dispatch` covers every message.
- Dispatch.Server.Dispatch: a method is given by what it does with its reply handle for each list of arguments, and throws an xdr_runtime_error or nothing; other exceptions leave dispatch altogether. Sessions are not modelled.
- Tiering: no RPC fails (the code exits), decrements are atomic; kv_get, which reads an unselected arm on NOTFOUND, has no agreement to prove.
- Uaddr: getnameinfo() is a parameter.
- The synchronous client and server, rpcbind's network calls, the printer, cereal and autocheck adapters, and the text layout of generated code would add only easy members.
