# Dafny model of the RPC library

Models of the parts of a Windows port of a TI-RPC library that are hardest to get right, with proofs of what they
promise. Each file stands for one source component.

- `Basics.dfy`: bytes, the numbers they stand for, and optional values.
- `Memmem.dfy`: substring search. Rolling windows for needles of two, three and four bytes, and two-way search with a
  shift table for longer ones: maximal suffixes, periods, the critical factorization theorem, and that no shift skips an
  occurrence.
- `PermuteArgs.dfy`, `GetoptLong.dfy`: option parsing. The in-place rotation of two blocks by gcd-many cycles, and the
  scanner around it. The scanner is compared with the meaning of the vector as the caller passed it (`SplitFrom` for
  where the elements end up, `Reports` for what the calls return).
- `Xdr.dfy`, `CallMsg.dfy`, `AuthUnix.dfy`, `ReplyMsg.dfy`: message codecs. A stream may grant or refuse direct access to
  its bytes, request by request; the results do not depend on that. Formats are those of RFC 5531 (sections 8.2 and 9,
  Appendix A) over XDR (RFC 4506).
- `Dispatch.dfy`, `ClntVers.dfy`: the service list, dispatch, and version negotiation from the client's call through
  both codecs and back.
- `ReplyCache.dfy`, `SvcDg.dfy`: the duplicate-request cache, with heap nodes that are in a ring and in a hash chain, and
  buffers that change hands with the transport. `SvcDg` relates the transport to an abstract server, proves
  at-most-once execution (section 5 of RFC 5531) over its runs, shows that serving any sequence of datagrams is one, and
  carries the result over to datagrams.
- `FdLock.dfy`, `ClntDg.dfy`: the datagram client. The per-descriptor flag and condition variable as steps of threads,
  and the loop that sends, waits, retransmits and refreshes credentials against an arbitrary environment.
- `SvcFdset.dfy`: registered descriptors in three views, which registration and removal keep in agreement.
- `Netconfig.dfy`: the network configuration database, read lazily into a list that several sessions share.
- `Logger.dfy`: the asynchronous logger: its linked queue, the protocol of producers, consumer and stop, and the objects
  that carry the protocol's steps out.
- `Timegm.dfy`: calendar arithmetic and time-stamped log names.

Where the code does not do what its comments or callers expect, the model follows the code and states exactly when it
does: `ClntVers.AgreedIsHighest` (the comment above `clnt_create_vers` promises an error only if no version is common,
but a client's highest version in a gap of the server's versions makes it fail), `SvcFdset.Registry.Register` (a full
set makes registration fail with the transport already in the table), `SvcFdset.Registry.ExactUnless` (unregistering
such a transport steps `fdmax` below the largest registered descriptor), `SvcDg.OwnAddress` (the address kept for
replies never gets shorter, so a call repeated after one from a longer address is not recognized),
`LogName.NameRoundTrip` (the name carries any year, the parser takes years up to 2099) and `Timegm.StrictExactly` (a
leap second is accepted, and has the value of the next minute's start).

`dafny verify dfyconfig.toml` verifies the whole project.

## Assumptions

- Allocation succeeds. Sockets, poll, files, clocks and locks are arguments, or steps of an environment that may do
  anything.
- The threaded build; for descriptors the Windows branch, where the first descriptor registered does not exceed the unit
  in which the tables grow.
- The cache has a positive size with four times the size in range, and a dispatched call is answered at most once, before
  the next datagram is received.
- A `time_t` has 64 bits, and years are small enough that no `int` product of `timegm` (`libcompat/timegm.c:97`) is out of
  range: `Timegm` and `LogName` count in unbounded integers.
- The identifier of a datagram client counts up in the machine's byte order, which is a parameter.
- The retry interval of a client is positive and normalised.
- A `long` has 32 bits, as on Windows: AUTH_SYS time stamps are 32-bit words on both decoding paths.
- Database lines are well formed. Sessions are used only between their begin and their end.

## Model

| member | source | states |
|---|---|---|
| Words.CriticalFactorization | libcompat/memmem.c:82-120 | the later of the two maximal suffixes starts at a critical position: every local repetition there is a period of the whole needle |
| Words.SuffixPeriodIsGlobal | libcompat/memmem.c:119-127 | if the needle has any period that fits behind the critical position, the smallest period of the suffix is a period of the needle |
| Words.RepetitionExceedsPrefix | libcompat/memmem.c:119-127 | a local repetition at a maximal suffix is longer than what stands before it |
| Words.DropRepetition | libcompat/memmem.c:82-118 | a suffix that is not below the one a repetition earlier is above the one a repetition later |
| Words.AtMostInBothOrders | libcompat/memmem.c:102-118 | a suffix that is at most another one in both byte orders is a prefix of it |
| SuffixScan.Repeats | libcompat/memmem.c:84-90 | in a scanned region with a period, every multiple of the period starts the same word |
| SuffixScan.FallsBelow | libcompat/memmem.c:90-94 | a candidate inside a period falls below the best suffix within the period |
| SuffixScan.InsideScan | libcompat/memmem.c:82-98 | every start strictly inside the scanned region is already decided against the candidate |
| SuffixScan.EqualByte | libcompat/memmem.c:85-89 | an equal byte extends the scan; a completed period restarts it one period on |
| SuffixScan.LowerByte | libcompat/memmem.c:90-94 | a lower byte makes everything scanned one new period |
| SuffixScan.HigherByte | libcompat/memmem.c:94-97 | a higher byte makes the scan start the new candidate, and no start in between can win |
| SuffixScan.NoShorterPeriod | libcompat/memmem.c:90-94 | a word above all its proper suffixes has no shorter period |
| SuffixScan.ScanComplete | libcompat/memmem.c:84-100 | at the end of the needle the candidate is the maximal suffix and p its smallest period |
| SuffixScan.Steps | libcompat/memmem.c:84-98 | every branch of the loop keeps the invariant that relates ip, jp, k and p |
| SuffixScan.Pass | libcompat/memmem.c:82-100 | a pass finds the maximal suffix in its byte order and the smallest period of it, in bounds |
| Memmem.WindowOccurs | libcompat/memmem.c:31-58 | two windows are equal as numbers exactly when the needle occurs |
| Memmem.WindowTruncates | libcompat/memmem.c:31-58 | shifting in the next byte and dropping what the word width drops gives the next window; with the spare low byte of the three-byte case as well |
| Memmem.TwoByte | libcompat/memmem.c:31-38 | the first occurrence of a two-byte needle, or none |
| Memmem.ThreeByte | libcompat/memmem.c:40-48 | the first occurrence of a three-byte needle, or none |
| Memmem.FourByte | libcompat/memmem.c:50-58 | the first occurrence of a four-byte needle, or none |
| Memmem.FillTables | libcompat/memmem.c:78-80 | the tables say which bytes occur in the needle, and one past their last place |
| Memmem.LastByteSkip | libcompat/memmem.c:134-147 | shifting by the distance from the last place of a byte skips no occurrence |
| Memmem.PeriodicShift | libcompat/memmem.c:122-126 | for a periodic needle the period is a safe shift, and longer than the left half |
| Memmem.AperiodicShift | libcompat/memmem.c:122-126 | for any other needle one more than the longer half is a safe shift |
| Memmem.Prepare | libcompat/memmem.c:82-127 | the critical position, the shift and the remembered length that the search relies on |
| Memmem.CompareRight | libcompat/memmem.c:149-150 | the right half agrees up to the first mismatch |
| Memmem.MismatchSkip | libcompat/memmem.c:151-155 | after a mismatch in the right half a shift by k - ms skips no occurrence |
| Memmem.CompareLeft | libcompat/memmem.c:156-158 | the left half, less what is remembered, decides whether the needle occurs here |
| Memmem.PeriodSkip | libcompat/memmem.c:159 | after a mismatch in the left half a shift by p skips no occurrence |
| Memmem.MemoryAgrees | libcompat/memmem.c:159-160 | after a periodic shift the remembered prefix agrees without being compared |
| Memmem.MemorySkip | libcompat/memmem.c:136-141 | raising a short table shift to the remembered length skips no occurrence |
| Memmem.TwoWay | libcompat/memmem.c:70-162 | two-way search returns the first occurrence or none; every access is in bounds and every round advances |
| Memmem.MemChr | libcompat/memmem.c:175-177 | the first place of a byte, or -1 |
| Memmem.FromFirstByte | libcompat/memmem.c:175-184 | searching from the first place of the needle's first byte loses nothing |
| Memmem.Memmem | libcompat/memmem.c:164-185 | for every haystack and needle: the lowest index where the needle occurs, and none exactly when there is none |
| PermuteArgs.Gcd | libcompat/getopt_long.c:89-102 | a common divisor of both that is a combination of them |
| PermuteArgs.GcdIsGreatest | libcompat/getopt_long.c:89-102 | such a divisor is a multiple of every common divisor |
| PermuteArgs.EuclidStep | libcompat/getopt_long.c:96-100 | one round of Euclid's algorithm keeps the combinations |
| PermuteArgs.VisitLinear | libcompat/getopt_long.c:123-131 | the place after j jumps is j times the jump, up to the length |
| PermuteArgs.VisitDistinct | libcompat/getopt_long.c:123-131 | within one cycle no place is met twice |
| PermuteArgs.VisitEverywhere | libcompat/getopt_long.c:123-131 | within one cycle every place of its residue class is met |
| PermuteArgs.VisitReturns | libcompat/getopt_long.c:123-131 | a whole cycle returns to its start |
| PermuteArgs.Coprime | libcompat/getopt_long.c:119-122 | dividing both lengths by their gcd leaves coprime lengths |
| PermuteArgs.SwapStep | libcompat/getopt_long.c:131-135 | a swap with the start of the cycle advances the cycle by one place |
| PermuteArgs.LeaveCycle | libcompat/getopt_long.c:127-136 | after cyclelen jumps one whole residue class has been rotated |
| PermuteArgs.FollowCycle | libcompat/getopt_long.c:127-136 | the inner loop rotates the class of its start and leaves the other classes alone |
| PermuteArgs.AllCyclesDone | libcompat/getopt_long.c:123-137 | once every class is rotated the two blocks have been exchanged |
| PermuteArgs.PermuteArgs | libcompat/getopt_long.c:109-138 | in place: the second block, then the first, each in its own order, and nothing else moves |
| GetoptLong.FindLong | libcompat/getopt_long.c:405-422 | an exact name wins, an abbreviation that means two things is ambiguous, otherwise the first abbreviation |
| GetoptLong.LookUpMeans | libcompat/getopt_long.c:405-422 | in terms of the names: an entry is found exactly if it is meant, being the first with that name, or the first that begins with it where all others that do agree with it |
| GetoptLong.Modes | libcompat/getopt_long.c:51-58 | what the first character of the option string does with an operand: passed over, reported as the argument of option 1, or the end of the options, which it is always with POSIXLY_CORRECT |
| GetoptLong.OptionElements | libcompat/getopt_long.c:241-246 | which elements are options: the end marker, a long option's text behind two dashes, letters behind one |
| GetoptLong.MissingArgument | libcompat/getopt_long.c:62-63 | a colon in front of the letters, behind a mode character if there is one, makes a missing argument a colon, otherwise a question mark |
| GetoptLong.KnownLetter | libcompat/getopt_long.c:274-296 | a letter at its first place in the option string, in terms of the characters behind it: no colon, no argument; one, the rest of the cluster or else the next element, or the missing-argument code; two, the rest of the cluster only |
| GetoptLong.UnknownLetter | libcompat/getopt_long.c:248-254 | a letter that is not in the string, or a colon: a question mark, with optopt the letter |
| GetoptLong.LongLetter | libcompat/getopt_long.c:255-273 | W in front of a semicolon: the rest of the cluster, or the next element, is a long option |
| GetoptLong.KnownLong | libcompat/getopt_long.c:427-490 | a long option that is meant, by its name and the text behind an equals sign: value, argument, elements taken and outputs |
| GetoptLong.UnknownLong | libcompat/getopt_long.c:405-426 | a name that means nothing or two things: a question mark, with optopt 0 |
| GetoptLong.SplitMerges | libcompat/getopt_long.c:187-244 | the split into options with arguments and operands keeps every element and the order within both |
| GetoptLong.MergePermutes | libcompat/getopt_long.c:187-244 | such a split is a permutation |
| GetoptLong.PartitionedPermutes | libcompat/getopt_long.c:187-244 | the final vector is a permutation of the original one |
| GetoptLong.PartitionedMerges | libcompat/getopt_long.c:187-244 | in the final vector the operands start at optind, and both parts are in their original order |
| GetoptLong.RotateAccounts | libcompat/getopt_long.c:198-201 | rotating the skipped operands behind the options found since then keeps the account of the scan |
| GetoptLong.ConsumeOption | libcompat/getopt_long.c:244-297 | taking the elements of an option keeps the account of the scan |
| GetoptLong.SkipOperand | libcompat/getopt_long.c:223-240 | skipping an operand keeps the account of the scan |
| GetoptLong.FinishScan | libcompat/getopt_long.c:193-213 | at the end, with or without a block to rotate, the vector is partitioned |
| GetoptLong.LongStepAdvances | libcompat/getopt_long.c:356-492 | a long option never takes elements behind the null entry |
| GetoptLong.LetterStepAdvances | libcompat/getopt_long.c:248-297 | a letter leads to a later element or a shorter rest of its cluster, within the vector |
| GetoptLong.OneCallAdvances | libcompat/getopt_long.c:187-492 | every call gets further, so a caller's loop ends |
| GetoptLong.Getopt.PermuteSkipped | libcompat/getopt_long.c:197-200 | every rotation is of two nonempty blocks |
| GetoptLong.Getopt.EndOfVector | libcompat/getopt_long.c:191-213 | the end of the vector finishes the scan with optind at the first operand |
| GetoptLong.Getopt.SkipElement | libcompat/getopt_long.c:228-240 | an operand joins the skipped block, after an earlier closed block has been rotated; what is reported does not change |
| GetoptLong.Getopt.MeetOperand | libcompat/getopt_long.c:216-227 | without permutation an operand is the argument of option 1, or ends the options right there |
| GetoptLong.Getopt.OpenOption | libcompat/getopt_long.c:241-247 | an option closes the skipped block and opens a cluster or a long option |
| GetoptLong.Getopt.TakeArgument | libcompat/getopt_long.c:276-293 | an argument is the rest of the cluster or the next element; a missing one is reported |
| GetoptLong.Getopt.TakeLongText | libcompat/getopt_long.c:255-273 | after -W the rest of the cluster, or the next element, is a long option |
| GetoptLong.Getopt.TakeLetter | libcompat/getopt_long.c:248-297 | one letter of a cluster: the value and the argument that the original vector says |
| GetoptLong.Getopt.GetoptInternal | libcompat/getopt_long.c:166-297 | one call: it ends the scan, finds a long option, or returns what the original vector says, and keeps the invariant |
| GetoptLong.Getopt.EndMarker | libcompat/getopt_long.c:376-391 | the end marker finishes the scan with the operands behind it |
| GetoptLong.Getopt.TakeLong | libcompat/getopt_long.c:392-490 | a long option returns the value and argument that the original vector says, and sets the flag variable, the index and optopt as it says |
| GetoptLong.Getopt.GetoptLong2 | libcompat/getopt_long.c:356-492 | every call returns what the original vector says, and leaves optarg, optopt, the flag variables and the index as it says, however the array has been permuted so far |
| GetoptLong.LastSaid | libcompat/getopt_long.c:452-490 | after a run optopt is what the last complaint said, the index that of the last long option, and a variable has the value of the last long option that sets it |
| GetoptLong.Getopt.ScanAll | libcompat/getopt_long.c:187-492 | over a whole run: the values and arguments reported and the outputs set are those of the original vector, and at -1 the array is the stable partition with optind at the operands; where nothing is permuted it is unchanged, with optind at the first operand, behind the end marker or at the end |
| Xdr.ValueOfWord | include/rpc/xdr.h:252-255 | a 32-bit word is read back from its four bytes (section 4.1 of RFC 4506) |
| Xdr.WordOfValue | include/rpc/xdr.h:252-255 | four bytes are written back from their value |
| Xdr.ValueInBytes | include/rpc/xdr.h:252-255 | the first of the four bytes is the highest |
| Xdr.Stream.Inline | libsrc/rpc_callmsg.c:84-87 | direct access is granted only if the stream is willing and enough bytes remain; it passes over exactly these bytes |
| CallMsg.AuthRoundTrip | libsrc/rpc_prot.c:83-94 | an authenticator is decoded from its bytes, whatever its padding |
| CallMsg.RoundTrip | libsrc/rpc_callmsg.c:77-211 | an encoded call message is decoded to itself and to its end, whatever the padding and the bytes around it |
| CallMsg.OnlyLayoutsParse | libsrc/rpc_callmsg.c:119-211 | only the bytes of an encodable message with some padding are decoded |
| CallMsg.CallInBytes | libsrc/rpc_callmsg.c:119-211 | in terms of words and offsets: which bytes are decoded as a call, and where its identifier, program, version, procedure, credentials and verifier are (section 9 of RFC 5531) |
| CallMsg.GetAuth | libsrc/rpc_prot.c:83-94 | decoding an authenticator consumes exactly its bytes, and fails on too long or missing ones |
| CallMsg.GetBody | libsrc/rpc_callmsg.c:138-161 | the body of an authenticator, in place or copied: same bytes, same verdict, same position |
| CallMsg.GetVerifier | libsrc/rpc_callmsg.c:162-197 | the verifier, with or without direct access to its head |
| CallMsg.GetCallPlain | libsrc/rpc_callmsg.c:200-211 | the plain path decodes what the format says |
| CallMsg.GetCall | libsrc/rpc_callmsg.c:119-211 | verdict, message and position do not depend on which requests for direct access are granted |
| CallMsg.PutAuth | libsrc/rpc_prot.c:83-94 | an authenticator is written with zero padding if it is short enough and fits |
| CallMsg.StoreAuth | libsrc/rpc_callmsg.c:101-115 | in place the padding keeps the bytes that were there |
| CallMsg.PutCallPlain | libsrc/rpc_callmsg.c:200-211 | the plain path writes the message with zero padding exactly when it is a call that fits |
| CallMsg.PutCall | libsrc/rpc_callmsg.c:77-118 | in place or not, the same verdict, and the same bytes except for padding; nothing outside is touched |
| CallMsg.EncodeThenDecode | libsrc/rpc_callmsg.c:69-212 | encoding and then decoding gives the message back, whichever path either takes |
| AuthUnix.RoundTrip | libsrc/authunix_prot.c:74-80 | AUTH_SYS credentials are decoded from their bytes, whatever the padding of the name and the bytes behind |
| AuthUnix.OnlyLayoutsParse | libsrc/authunix_prot.c:67-84 | only the bytes of encodable credentials, with some padding, are decoded |
| AuthUnix.ParmsInBytes | libsrc/authunix_prot.c:67-84 | in terms of words and offsets: which bytes are decoded as credentials, and where their fields are (Appendix A of RFC 5531) |
| AuthUnix.GetParms | libsrc/authunix_prot.c:67-84 | the plain decoder accepts exactly well-formed credentials and fills in their fields |
| AuthUnix.AcceptsWhatParses | libsrc/svc_auth_unix.c:84-124 | the late length check makes the in-place verdict that of the plain decoding of the credentials alone; stale bytes behind them do not matter |
| AuthUnix.LoadParms | libsrc/svc_auth_unix.c:91-124 | the in-place decoder reads only within the 400-byte area and fills in the fields it has checked |
| AuthUnix.SvcAuthUnix | libsrc/svc_auth_unix.c:66-134 | accepts exactly what the plain decoding accepts, with the same fields; resets the response verifier exactly then |
| ReplyMsg.AcceptedRoundTrip | libsrc/rpc_prot.c:115-144 | the accepted part of a reply is decoded from its bytes |
| ReplyMsg.RejectedRoundTrip | libsrc/rpc_prot.c:149-168 | the denied part of a reply is decoded from its bytes |
| ReplyMsg.RoundTrip | libsrc/rpc_prot.c:181-195 | every reply that is encoded is decoded to itself and to its end, whatever the padding of its verifier and results |
| ReplyMsg.OnlyLayoutsParse | libsrc/rpc_prot.c:181-195 | only the bytes of a reply that may be sent, with some padding, are decoded |
| ReplyMsg.ReplyInBytes | libsrc/rpc_prot.c:115-195 | in terms of words and offsets: which bytes are decoded as a reply (section 9 of RFC 5531) |
| ReplyMsg.MeaningInBytes | libsrc/rpc_prot.c:220-349 | the client status that the status words of a decodable reply stand for, and where the version range or the reason is |
| ReplyMsg.PutReply | libsrc/rpc_prot.c:181-195 | a reply is written exactly when it is one that can be sent and fits; nothing else is touched |
| ReplyMsg.GetReply | libsrc/rpc_prot.c:181-195 | decoding a reply follows the format and consumes exactly its bytes |
| ReplyMsg.SetErrReply | libsrc/rpc_prot.c:288-349 | the error status that belongs to every accepted, denied or unknown status, with the version range, the reason or the two detail codes |
| Dispatch.Callouts.Find | libsrc/svc.c:425-443 | the first entry of the program and version whose network identifier is the same, or missing on either side |
| Dispatch.Callouts.Reg | libsrc/svc.c:255-328 | a new service goes to the head; an existing one is kept, and refused for another routine; no entry shadows another |
| Dispatch.Callouts.Unreg | libsrc/svc.c:333-354 | all entries of the version go, and no others |
| Dispatch.WithoutVersions | libsrc/svc.c:333-354 | the versions of the program without that one; other programs keep theirs |
| Dispatch.WithoutRemoved | libsrc/svc.c:341-352 | removing one match at a time removes them all |
| Dispatch.Callouts.Dispatch | libsrc/svc.c:732-759 | a served version runs the first routine registered for it; otherwise the exact least and greatest version, or that there is none |
| ClntVers.Serve | libsrc/svc.c:719-760 | the server's reply to a call, through decoding, dispatch and encoding; its bytes say that the program is unknown exactly if no version of it is registered, and that the call succeeded exactly if its version is |
| ClntVers.NullCall | libsrc/clnt_generic.c:96-103 | a call of the null procedure, there and back through both codecs: program unavailable if and only if no version of it is registered, success if and only if this one is, otherwise a mismatch with the exact least and greatest version |
| ClntVers.ClntCreateVers | libsrc/clnt_generic.c:78-135 | the version the negotiation ends with, for every set of registered versions |
| ClntVers.AgreedIsHighest | libsrc/clnt_generic.c:78-135 | it is the highest common version, or none when there is none, if and only if the client's highest version is not in a gap above a common one |
| ClntVers.ContiguousAgrees | libsrc/clnt_generic.c:78-135 | with contiguous versions it always is |
| ClntVers.GapExists | libsrc/clnt_generic.c:112-128 | versions 2 and 4 against 1 to 3: the negotiation fails although 2 is common |
| ReplyCache.NewestFollows | libsrc/svc_dg.c:596-604 | between an entry and the one before it in its chain no reply has the key |
| ReplyCache.InExactlyOneChain | libsrc/svc_dg.c:501-568 | following a chain from the table meets exactly the replies of its hash value, so each is in one chain |
| ReplyCache.CutIsChained | libsrc/svc_dg.c:508-518 | taking the oldest node out leaves the chains of the remaining replies |
| ReplyCache.PushedIsChained | libsrc/svc_dg.c:562-564 | putting a reply at the head makes the chains of one more reply |
| ReplyCache.NewcomerApart | libsrc/svc_dg.c:550-561 | nodes and buffers in use stay distinct |
| ReplyCache.Cache.Walk | libsrc/svc_dg.c:596-604 | the walk through one chain agrees with a newest-first scan of the last `size` replies |
| ReplyCache.Cache.Get | libsrc/svc_dg.c:576-633 | a hit gives the newest matching reply; a miss remembers the call |
| ReplyCache.Cache.FindLink | libsrc/svc_dg.c:508-518 | the link to the victim is found |
| ReplyCache.Cache.Unlink | libsrc/svc_dg.c:508-518 | the victim is always found, and its chain goes on without it |
| ReplyCache.Cache.Advance | libsrc/svc_dg.c:565-566 | the ring holds the last `size` replies, the next victim being the oldest |
| ReplyCache.Cache.Vacate | libsrc/svc_dg.c:502-534 | the oldest node or a new one, with a buffer nobody else uses |
| ReplyCache.Cache.Fill | libsrc/svc_dg.c:550-561 | the node takes the reply's buffer, length and key |
| ReplyCache.Cache.Set | libsrc/svc_dg.c:482-570 | one more reply is cached with its bytes, and a free buffer of the same size is handed back |
| SvcDg.Transport.EnableCache | libsrc/svc_dg.c:423-467 | an empty cache, unless there is one already; the reply to a call in progress would be stored under program, version and procedure 0 |
| SvcDg.Transport.BuffersApart | libsrc/svc_dg.c:506-534 | transport buffer and cached buffers are pairwise distinct, and every cached reply still has its bytes |
| SvcDg.Transport.CacheSet | libsrc/svc_dg.c:482-570 | the reply just sent becomes the newest entry under the key of the call it answers |
| SvcDg.Transport.Receive | libsrc/svc_dg.c:200-203 | a received datagram changes the transport's buffer only, never a cached reply |
| SvcDg.Transport.Lookup | libsrc/svc_dg.c:221-234 | a remembered call is answered with the stored bytes and not handed on; any other is handed on |
| SvcDg.Transport.Recv | libsrc/svc_dg.c:183-235 | short or undecodable datagrams are dropped; a decoded call is dispatched or answered from the cache, as the abstract server says |
| SvcDg.Transport.Reply | libsrc/svc_dg.c:237-265 | an encoded reply is sent to the caller and cached exactly when it was sent whole |
| SvcDg.CallExtends | libsrc/svc_dg.c:206-220 | a datagram that is a whole call message is decoded the same whatever the buffer holds behind it |
| SvcDg.Transport.Take | libsrc/svc_dg.c:183-235 | what an outsider sees of a receive: nothing for what is no call, the stored bytes for a remembered call, a dispatch for any other call, under the key that the datagram and the address kept so far spell |
| SvcDg.Transport.Respond | libsrc/svc_dg.c:237-265 | what an outsider sees of a reply: its bytes with the call's transaction identifier, exactly when they can be sent whole |
| SvcDg.ServeAll | libsrc/svc.c:712-766 | a server that takes datagrams one after the other: whatever they are and whatever the services answer, what it does is a run of the abstract server, and each turn's events, keys and actions are exactly those its datagram, the addresses before it and its answer call for |
| SvcDg.HandedWords | libsrc/svc_dg.c:596-606 | over all turns of a server: what a call is handed over under are words 0, 3, 4 and 5 of its datagram and the address kept then |
| SvcDg.NewCall | libsrc/svc_dg.c:221-235 | a call that differs from every earlier one in one of these words, or in the address, is handed to a service |
| SvcDg.OtherProcedure | libsrc/svc_dg.c:596-606 | two calls that differ in the procedure alone are both handed over, each under its own procedure |
| SvcDg.ReplyToCall | libsrc/svc_dg.c:237-265 | a call that is handed over is answered exactly if there is an answer that can be sent whole; the bytes decode to the answer with the call's identifier, and go to the address kept |
| SvcDg.RepeatedCall | libsrc/svc_dg.c:221-263 | over all turns of a server: the same key again, with fewer than `size` other replies in between, gets the stored bytes, at the address it came from, and no service is called |
| SvcDg.OwnAddress | libsrc/svc_dg.c:208-214 | a call's key has its datagram's own address if and only if no datagram before came from a longer one |
| SvcDg.RepeatedDatagram | libsrc/svc_dg.c:183-263 | the identical call datagram again, with no longer address so far and fewer than `size` other replies in between: the identical reply goes back, and no service is called |
| SvcDg.NewAddress | libsrc/svc_dg.c:596-606 | a call that is kept under an address that the earlier ones were not is handed to a service |
| SvcDg.LongerAddressForgets | libsrc/svc_dg.c:208-214 | a call from one address, another from a longer one, and the first again: it is handed to a service a second time, under the first address with the longer one's rest |
| SvcDg.StaysSpaced | libsrc/svc_dg.c:221-263 | in every run, equal keys are more than `size` replies apart |
| SvcDg.AnsweredTheSame | libsrc/svc_dg.c:221-263 | in every run, as long as fewer than `size` other replies have been cached, a repeated call is not dispatched and gets the identical bytes |
| SvcDg.AtMostOnce | libsrc/svc_dg.c:221-263 | in every run, between two dispatches of an answered call at least `size` other replies are cached |
| FdLock.ExclusiveStep | libsrc/clnt_dg.c:110-116 | every step keeps: a flag is set exactly while one call is active on the descriptor |
| FdLock.NoneStrandedStep | libsrc/clnt_dg.c:551-560 | every step keeps: while somebody waits for a clear flag, somebody is woken or owes a signal, also after free-result and destroy |
| FdLock.InvHolds | libsrc/clnt_dg.c:350-356 | both hold in every state of every interleaving |
| FdLock.NoDeadlock | libsrc/clnt_dg.c:110-116 | while an operation is unfinished, some thread can go on |
| FdLock.StepWeight | libsrc/clnt_dg.c:350-356 | every step but a start or a spurious wake-up uses up weight |
| FdLock.BoundedProgress | libsrc/clnt_dg.c:350-356 | a run takes at most five steps per operation and one per spurious wake-up |
| FdLock.CompletedWhenStill | libsrc/clnt_dg.c:725-741 | where a run cannot go on, all operations have completed |
| ClntDg.TimeArithmetic | libsrc/clnt_dg.c:459-473 | timeradd, timersub and timercmp are arithmetic on microseconds for normalised times |
| ClntDg.IntervalsStayShort | libsrc/clnt_dg.c:466-470 | intervals double exactly while under 30 seconds, and so stay under a minute |
| ClntDg.ThresholdsCount | libsrc/clnt_dg.c:459-473 | the number of back-off thresholds is that of the retransmissions due before the timeout |
| ClntDg.LateInMicros | libsrc/clnt_dg.c:459-463 | a poll is late exactly if its clock is past the start plus the timeout |
| ClntDg.WireInBytes | libsrc/clnt_dg.c:375 | the identifier counts up in the order of the machine's bytes |
| ClntDg.AttemptsDiffer | libsrc/clnt_dg.c:375 | the attempts of one call have different identifiers on the wire, also around the 32-bit wrap, and in either byte order of the machine |
| ClntDg.Client.Await | libsrc/clnt_dg.c:416-475 | the wait loop ends with the first poll that fails, brings a datagram with this attempt's identifier, or passes the timeout or the next sending time |
| ClntDg.Client.Attempt | libsrc/clnt_dg.c:384-475 | one datagram, and one more for every threshold that passes; a failed sending ends it; no poll before the last was decisive or late |
| ClntDg.Client.Round | libsrc/clnt_dg.c:368-518 | a new identifier, one attempt, and the verdict on its reply or refreshed credentials; a call goes on only without a decision |
| ClntDg.Client.Verdict | libsrc/clnt_dg.c:480-488 | the status that the words of the reply's bytes stand for, or that they cannot be decoded |
| ClntDg.Client.Attempts | libsrc/clnt_dg.c:364-521 | whatever the clock and the network do, for a timeout: at most three datagrams plus one per back-off threshold below it; only a reply to the last attempt is accepted, with the status its words stand for; timed out only without time, or after an indecisive poll past the start plus the timeout; one datagram for a zero timeout |
| ClntDg.Client.Call | libsrc/clnt_dg.c:316-521 | whatever the clock and the network do: what Attempts states, for the timeout of the call if the client's own is unset (-1 microseconds), and otherwise for the client's own |
| SvcFdset.FdSet.Sanitize | libsrc/svc_fdset.c:141-153 | fdmax goes down to the largest member that is not above it, or -1 |
| SvcFdset.FdSet.GetSize | libsrc/svc_fdset.c:267-303 | room for the descriptor asked for, except the first time for one beyond the first unit; the size never shrinks |
| SvcFdset.FdSet.FreeSlot | libsrc/svc_fdset.c:201-207 | the first free poll slot |
| SvcFdset.FdSet.Add | libsrc/svc_fdset.c:192-225 | the descriptor takes one more slot; no descriptor has two exactly if it had none; fdused is one past the last live slot |
| SvcFdset.FdSet.Delete | libsrc/svc_fdset.c:228-265 | the descriptor's slot becomes free; fdused is again one past the last live slot |
| SvcFdset.FdSet.Set | libsrc/svc_fdset.c:370-393 | set and slots gain the descriptor unless the set is full, with one slot each exactly if it was not in the set; fdmax is the largest member up to the greater of the descriptor and the old fdmax |
| SvcFdset.FdSet.Clr | libsrc/svc_fdset.c:408-424 | set and slots lose the descriptor; fdmax is the largest member that is not above the old one, or -1 |
| SvcFdset.Registry.Alloc | libsrc/svc.c:133-173 | a descriptor below -1 is refused; the table grows and keeps every transport, the one for -1 as well; the descriptor has a place except the first time beyond the first unit |
| SvcFdset.Registry.Register | libsrc/svc.c:178-202 | fails exactly when the set is full or the descriptor is below -1; transports, set and slots describe the same descriptors afterwards exactly under the stated condition, for a new descriptor if and only if they did before and it succeeds; one slot each unless the descriptor was in the set |
| SvcFdset.Registry.Lower | libsrc/svc.c:239-241 | the largest registered descriptor below fdmax, or -1 |
| SvcFdset.Registry.Unregister | libsrc/svc.c:219-248 | only the transport in its own slot goes, from all three views, after a failed registration as well; fdmax stays the largest member if the descriptor is below it, and otherwise goes below it to the next member |
| SvcFdset.Registry.ExactUnless | libsrc/svc.c:236-243 | fdmax is the largest descriptor afterwards if and only if the removed one was in the set or below another; otherwise it ends too low |
| SvcFdset.ExactAfterAdding | libsrc/svc_fdset.c:380-392 | after a registration it is the largest descriptor |
| SvcFdset.FullSetDisagrees | libsrc/svc.c:191-195 | with room for one descriptor, the second registration fails and leaves the views in disagreement |
| SvcFdset.RegisteredTwice | libsrc/svc.c:178-202 | registering a descriptor twice succeeds and leaves it in two poll slots |
| SvcFdset.PerformAll | libsrc/svc.c:178-248 | any sequence of registrations and removals is performed up to the first registration into a full set; until then the three views are the descriptors added and not removed, and fdmax is the largest or -1 |
| SvcFdset.LeftoverLowersMax | libsrc/svc.c:236-243 | unregistering what it left behind makes fdmax -1 while a descriptor is registered |
| Netconfig.RecordsOfPrefix | libsrc/getnetconfig.c:367-385 | what has been read is a prefix of the database's entries |
| Netconfig.Database.SetNetconfig | libsrc/getnetconfig.c:281-309 | a new session at the start, unless the database cannot be opened |
| Netconfig.Database.ReadRecord | libsrc/getnetconfig.c:367-385 | the next entry behind comment lines, or the end of the file |
| Netconfig.Database.Extend | libsrc/getnetconfig.c:386-432 | the shared list gains the next entry, or is complete |
| Netconfig.Database.GetNetconfig | libsrc/getnetconfig.c:320-433 | under any interleaving of sessions, call k of a session gives entry k of the database, and none behind the last; other sessions are not disturbed |
| Netconfig.Database.EndNetconfig | libsrc/getnetconfig.c:442-495 | the list is released exactly when the last session ends |
| Netconfig.Database.GetNetconfigEnt | libsrc/getnetconfig.c:505-596 | the same answer as a fresh scan of the database, whatever has been read into the list |
| Netconfig.Database.Scan | libsrc/getnetconfig.c:544-590 | a scan finds the first entry with the identifier |
| LoggerQueue.BufferQueue.PushBack | libService/Logger.cpp:472-510 | the message goes behind the others; says whether the queue was empty |
| LoggerQueue.BufferQueue.Steal | libService/Logger.cpp:512-518 | the whole queue moves and leaves an empty one |
| LoggerProtocol.ConservedStep | libService/Logger.cpp:503-518 | every step keeps: accepted is written, then stolen, then queued |
| LoggerProtocol.NoticedStep | libService/Logger.cpp:612-625 | every step keeps: a nonempty queue means the wake event is set, a producer is about to set it, or the consumer is on its way to steal |
| LoggerProtocol.CoveredStep | libService/Logger.cpp:664-683 | every step keeps: a consumer that has stolen after the stop has everything accepted before it |
| LoggerProtocol.InvHolds | libService/Logger.cpp:663-718 | all three hold in every state of every interleaving |
| LoggerProtocol.WrittenOnExit | libService/Logger.cpp:580-587 | when the consumer has exited, everything accepted before the stop is written, once and in order |
| LoggerProtocol.ConsumerGoesOn | libService/Logger.cpp:663-683 | after a stop the consumer can always take a step until it has exited |
| LoggerProtocol.StopEnds | libService/Logger.cpp:580-587 | after a stop every step of the consumer brings it nearer to its exit, and only pushes add to the distance |
| Logger.LoggerImpl.Push | libService/Logger.cpp:612-625 | a message goes into the linked queue, or an empty one nowhere; on what the queue holds this is the protocol's push |
| Logger.LoggerImpl.Wait | libService/Logger.cpp:669-679 | the wait for the two events is the protocol's wait |
| Logger.LoggerImpl.Steal | libService/Logger.cpp:687-695 | taking the linked queue over is the protocol's steal |
| Logger.LoggerImpl.Write | libService/Logger.cpp:696-714 | one round of the loop over the stolen queue is the protocol's write |
| Logger.LoggerImpl.ConsumerDrain | libService/Logger.cpp:687-715 | undisturbed, the loop writes everything that was in the queue, once and in order |
| Logger.Execute | libService/Logger.cpp:663-718 | every run of the protocol can be carried out on the linked queues and the log, with the same messages written; once the consumer has exited these are all that were accepted before the stop, and nothing that was not accepted |
| LogName.GenerateLogName | libService/Logger.cpp:282-301 | the name keeps the base name, without a last ".log" in any case if it is longer than that, adds 20 characters for years below 10000, ends in ".log", and parses back to the instant if and only if that lies before 2100 |
| LogName.StampSpells | libService/Logger.cpp:287-288 | the 20 characters are year, month, day, hour, minute and second in their places |
| LogName.ParseTimestamp | libService/Logger.cpp:308-327 | a name that ends in digits in the places of a time stamp gives the seconds of the date they spell, and -1 exactly if there is no such date from 1900 to 2099; whatever else the name, -1 or an instant of those years |
| LogName.StampRead | libService/Logger.cpp:308-327 | whatever stands before it, such a time stamp is read back |
| LogName.ShapedParsed | libService/Logger.cpp:308-327 | digits in the places of a time stamp are read as its date, valid or not, whatever stands before them or in place of ".log" |
| LogName.ParsedIsInRange | libService/Logger.cpp:317-325 | no name gives an instant outside those years |
| LogName.StampScanned | libService/Logger.cpp:308-316 | the six numbers of a time stamp are read back |
| LogName.LongYearNotScanned | libService/Logger.cpp:308-316 | a year of more than four digits is not read back |
| LogName.NameRoundTrip | libService/Logger.cpp:282-327 | the name of an instant gives the instant back, for every base name, if and only if its year is at most 2099 |
| LogName.RangeEnds | libService/Logger.cpp:317-320 | that is, if and only if it lies before the first second of 2100 |
| Timegm.OneYear | libcompat/timegm.c:52-57 | the leap-year quotients grow by one over a leap year |
| Timegm.ClosedFormCounts | libcompat/timegm.c:94-98 | the closed form counts the days from 1970 year by year, back to 1900 as well |
| Timegm.FourCenturies | libcompat/timegm.c:52-57 | 400 years have 146097 days |
| Timegm.MonthStarts | libcompat/timegm.c:72-74 | where in the year each month starts |
| Timegm.ValidDates | libcompat/timegm.c:81-92 | the valid dates, by the starts of the months and the divisors of the year; second 60 is one |
| Timegm.Timegm | libcompat/timegm.c:68-116 | the calendar's seconds since 1970 for every valid date, -1 for anything else |
| Timegm.Increasing | libcompat/timegm.c:68-116 | strictly increasing from any date on that is not a leap second |
| Timegm.LeapSecondCollides | libcompat/timegm.c:86-90 | every leap second has the value of the next minute's start, also across hours, days, months and years |
| Timegm.Ordered | libcompat/timegm.c:68-116 | a later date never has a smaller value, and it has the same one exactly if it starts the minute behind a leap second |
| Timegm.StrictExactly | libcompat/timegm.c:68-116 | strictly increasing from a date on if and only if the date is not a leap second |
| Timegm.GmTime | libService/Logger.cpp:285 | every second from 1970 on is that of a valid date, found by going through the years and months |
| Timegm.GmTimeOfSeconds | libcompat/timegm.c:68-116 | that inverse gives every valid date back |

## Left out

- memmem's byte set is an array of truth values, not bits in machine words; `-1` stands for the wrapped `size_t` values that start a pass.
- The bitwise or of disjoint bits in the rolling windows is a sum.
- Diagnostics of the option scanner, the error stream and `opterr`.
- Option values that coincide with the sentinels -1 and -2 of the option scanner: its results are kept apart by their type here.
- GetoptLong.Getopt.ScanAll: calls after the one that has returned -1 are not part of this model.
- XDR primitives and stream implementations, except as a byte buffer with a position; releasing decoded memory; enumerations are their 32-bit patterns.
- CallMsg.PutCall: says nothing about the bytes written before an encoding fails, as the source leaves them.
- Dispatch.Callouts.Reg: choosing the network identifier from the transport, and the verdict of the local binder, are left out.
- ClntVers.Serve: the authentication of a call before the search for its service is left out.
- ClntVers.NullCall: timeouts, and a client's rejection of the reply's verifier, are left out.
- AuthUnix.SvcAuthUnix: the plain decoder runs on a copy of the credentials' bytes instead of the area itself.
- Results and arguments of remote procedures are opaque bytes of a known length.
- Authentication of a dispatched call, nested dispatch from a handler, and destroying a transport during dispatch.
- Registration with the local binder, the older port-mapper entry points, and how a network identifier is chosen.
- The service list is one sequence; its nodes and their memory are not modelled.
- ClntVers.ClntCreateVers: other failures of the two calls than the server's answers, such as timeouts, are left out; a served null procedure succeeds.
- SvcDg.Transport.EnableCache: a size of 0, with which the source divides by zero on its next datagram, is left out.
- SvcDg.Transport.Reply: a second reply to one call while there is a cache, which would store it a second time, is left out.
- SvcDg.Transport.CacheSet: likewise, a reply for which no call is pending.
- SvcDg.Transport.Respond: likewise, a second reply to one call.
- SvcDg.Transport.Recv: an interrupted receive is not repeated step by step; the environment gives the final outcome.
- The cache's diagnostic output and its lock.
- ClntDg.Client.Call: the time passed to poll is not modelled, as poll may return at any time with anything; the error number of a failed operation is left out.
- FdLock.BoundedProgress: signal masks are left out, and what a call does while it holds the flag is one step.
- Thread-specific descriptor sets, and resizing other than on Windows.
- SvcFdset.Registry.Register: a first descriptor above one unit, for which the source writes outside the table, and the lock that its failure path keeps, are left out.
- LogName.ParseTimestamp: leading blanks and signs, which sscanf would accept in front of a number, are taken as no number.
- GetNetconfigEnt's copy of an entry, and parsing the fields behind the identifier; both would add only easy members.
- Logger.LoggerImpl.ConsumerDrain: rolling over to a new file, purging old ones and the console copy are left out; the queue's critical section is one step.
- LoggerProtocol.WrittenOnExit: messages pushed after the stop may be written or stay queued, as in the source.
- LogName.NameRoundTrip: instants before 1970 are left out.
- LogName.GenerateLogName: likewise; the source has no name for them where gmtime refuses them.
- SvcFdset.Registry.Unregister: a descriptor below -1, for which the source reads outside the table, and a registry in which a descriptor has two poll slots, are left out.
- The port-mapper, rpcbind and statistics codecs, universal addresses, service control and event log: easy members, or nothing but calls into the system.
