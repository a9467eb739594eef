# A verified model of xdrpp

This project models the parts of xdrpp that carry its correctness: the XDR codec
(RFC 4506) with the union classes that xdrc generates, record framing and call
matching over non-blocking sockets (RFC 5531), the event loop with its signal and
callback protocols, RPC dispatch with the status a client sees, and the argument
permutation of the bundled getopt_long. All files are given to Dafny together:
`dafny verify dfyconfig.toml`.

How the files follow the program:

- `Permute`, `Getopt`: compat/getopt_long.c. `CommandLine`: the command lines that are written for it.
- `Options`, `Sequences`: values that may be missing, parts of sequences. `Bytes`: xdrpp/endian.h. `Xdr`, `Codec`: the types, values, encoding and decoding
  of xdrpp/types.h and xdrpp/marshal.h. `RoundTrip`, `Canonical`, `Equality`, `Sizes`:
  what is proved about them; `WireForm`, `Truncation`: what their bytes mean, and what is refused. `Put`, `Get`, `Messages`, `DepthCheck`: the archives that
  move a cursor over a buffer, whole messages, and the depth checker.
- `UnionGen`, `UnionObject`: the emitted union code as syntax trees with a meaning, and
  the life of union objects.
- `Framing`, `Stream`, `MsgSock`, `SendQueue`, `Channel`, `Calls`, `CallHistory`: xdrpp/msgsock.cc
  and msgsock.h.
- `Signals`, `SignalOwners`, `Inject`, `PollTable`, `PollHistory`: xdrpp/pollset.cc and pollset.h.
- `RpcMsg`, `RpcServer`, `RpcDispatch`, `RpcClient`, `RpcCall`, `RpcStatus`: the RPC message
  schema, hand-built replies, dispatch, the client's classification, whole calls, and what
  goes over the wire for each.

The environment (what read, readv, writev and poll return, when signals arrive, what
handlers and callbacks do, how threads interleave) is always an arbitrary parameter or an
arbitrary sequence of steps.

Most operations are proved against a specification in the form of a function.  So that the
two cannot go wrong together, what is specified is also told a second time in other terms:
command lines as they are written (`CommandLine`), the owner of a signal from the steps of a
run (`SignalOwners`), the parts of a stream, encodings and replies from their bytes
(`Stream`, `WireForm`, `RpcStatus`), and callbacks from the history of a socket or a pollset
(`CallHistory`, `PollHistory`).

Where the code does less than one might expect, the model keeps the code, shows a case,
and proves when it does what is wanted:

- A write that gives EAGAIN on an idle socket leaves it without a Write callback, and no
  later putmsg recovers (`SendQueue.Sender.PutMsg`, `SendQueue.StallIsPermanent`).
- After the xid counter wraps, get_xid can hand out an xid whose call is outstanding,
  because it probes with host-order words, and then a callback is lost
  (`Calls.WrapLosesCallback`); it cannot within the first 2^31 calls (`Calls.Run`).
- A signal can be lost if two activations of the handler for one signal overlap, or if
  one stores its flag while the lock holder is between seeing an even flag and clearing
  it; it cannot in any other way (`Signals.NoSignalLostExactlyWhen`).
- A bool is read from any nonzero word, so that accepted bytes need not be canonical
  (`Canonical.CanonicalExactly`, `Canonical.BoolIsNotCanonical`).
- operator== and equality of encodings differ on NaNs and on zeros of different sign
  (`Equality.FloatsBreakEquality`), and only there (`Equality.EqualAsEncodedExactlyWhen`).
- The depth checker's counter wraps before it can exceed the greatest limit
  (`DepthCheck.DepthAgreement`, `DepthCheck.DepthsDisagree`).
- The server decodes arguments through transparent_ptr, which is not transparent for the
  stack limit: it takes a level per argument (`RpcCall.ArgumentsArrive`).
- An asynchronous handler that passes its reply_cb, before it returns, a result that cannot
  be encoded makes the server reply twice; if it does so later, the only reply is
  PROC_UNAVAIL (`RpcClient.OneReply`, `RpcClient.ResultSentTwice`).

## Model

| member | source | states |
|---|---|---|
| Permute.Gcd | compat/getopt_long.c:107-120 | the loop returns the greatest common divisor, with a Bezout combination of its arguments |
| Permute.GcdIsGreatest | compat/getopt_long.c:104-120 | every common divisor divides it and is at most it, so that "greatest" is meant |
| Permute.TurnNext | compat/getopt_long.c:145-155 | one step of the inner loop advances by one turn modulo the cycle length |
| Permute.TurnInjective | compat/getopt_long.c:145-155 | two positions of a cycle never share a turn, so a cycle visits each of its positions once |
| Permute.WalkExists | compat/getopt_long.c:142-156 | for coprime block lengths the walk visits every position once and returns to its start |
| Permute.CyclesPartition | compat/getopt_long.c:134-140 | gcd(n, m) cycles of (n + m) / gcd(n, m) positions each are disjoint and cover both blocks |
| Permute.WalkCycle | compat/getopt_long.c:145-155 | the inner loop moves every element of one cycle one step and nothing else |
| Permute.WalkCycles | compat/getopt_long.c:142-156 | all cycles together exchange the two blocks |
| Permute.SwappedBlocks | compat/getopt_long.c:123-157 | exchanging x and y in p + x + y + q gives p + y + x + q |
| Permute.PermuteArgs | compat/getopt_long.c:127-157 | in place, the array becomes prefix, options block, non-options block, suffix, with order kept in each |
| Getopt.MatchIsUnique | compat/getopt_long.c:186-212 | exact, unique, ambiguous and no match exclude each other |
| Getopt.LookUp | compat/getopt_long.c:186-212 | every name has one of these outcomes: an exact name wins, otherwise an abbreviation must be unique up to effect |
| Getopt.FindLong | compat/getopt_long.c:186-212 | the search loop finds that outcome |
| Getopt.SplitSorts | compat/getopt_long.c:289-477 | splitting a vector into options, skipped arguments and rest loses and repeats nothing and keeps every order |
| Getopt.ExchangeRestores | compat/getopt_long.c:328-333 | exchanging the blocks that the scanner remembers puts all skipped arguments behind all options |
| Getopt.Scanner.constructor | compat/getopt_long.c:320-325 | a new scanner has everything still to sort |
| Getopt.Scanner.MoveSkipped | compat/getopt_long.c:365-371 | permute_args is called with two non-empty blocks only, and restores the order |
| Getopt.Scanner.Finish | compat/getopt_long.c:326-343 | at the end of the vector it is sorted and optind is at the first non-option |
| Getopt.Scanner.Skip | compat/getopt_long.c:344-375 | skipping an argument keeps the arrangement and what is still to be reported |
| Getopt.Scanner.StopScanning | compat/getopt_long.c:376-396 | "--" ends the run with everything after it untouched and the vector sorted |
| Getopt.Scanner.ParseLong | compat/getopt_long.c:164-283 | a long option is read as the original vector has it: name, value after "=" or next argument, errors |
| Getopt.Scanner.ParseOption | compat/getopt_long.c:399-476 | a letter or long option is read as the original vector has it, with all error outcomes |
| Getopt.Scanner.Next | compat/getopt_long.c:289-477 | each call reports the next item of the original vector; when it returns -1 the vector is sorted |
| Getopt.Scanner.Drain | compat/getopt_long.c:289-477 | calls until -1 report all items in order |
| Getopt.Run | compat/getopt_long.c:289-477 | a whole run reports the options of the original vector from left to right and leaves options in order, then skipped arguments in order, then the rest |
| Getopt.SameButName | compat/getopt_long.c:206-211 | options of the same effect differ at most in their names |
| CommandLine.ReadingUndoesWriting | compat/getopt_long.c:289-477 | the words written for a list of options (bare, clustered, with attached, separate or optional arguments, "-W", long names with "=" or the next word, and all errors) and operands are reported as that list and End, and sorted into exactly the words of the options and the operands |
| CommandLine.EveryVectorIsALine | compat/getopt_long.c:289-477 | every argument vector is the words of such a list, so that what is reported for it is determined |
| CommandLine.Scan | compat/getopt_long.c:289-477 | a whole run on such words reports the list and leaves the options in front of the operands |
| Bytes.FromBe32OfBe32 | xdrpp/marshal.h:63-81 | reading a written word gives the word |
| Bytes.Be32OfFromBe32 | xdrpp/marshal.h:63-81 | writing a read word gives the bytes |
| Bytes.SwappedLoad | xdrpp/endian.h:55-60 | on a little-endian machine a swapped load is the word in wire order |
| Bytes.Swap32Involution | xdrpp/endian.h:55-60 | swap32 undoes itself |
| WireForm.LittleEndianNumber | xdrpp/endian.h:55-60 | a little-endian load is the number with the bytes in the opposite order |
| Xdr.PartRefers | xdrpp/types.h:660-665 | every recursion between declared types goes through a vector or a pointer: other parts refer to earlier declarations only |
| Xdr.PickIs | xdrc/gen_hh.cc:448-466 | a tag selects the arm with its label, without one the default arm, without that none |
| Codec.Decode | xdrpp/marshal.h:166-205 | decoding ends on every input for every type, recursive ones included, and never has more left than it was given |
| WireForm.NumbersOnTheWire | xdrpp/marshal.h:63-81 | the bytes of a 32-bit or 64-bit number are its base-256 digits, most significant first |
| WireForm.WordRead | xdrpp/marshal.h:63-81 | any four bytes are read as the number with these digits |
| WireForm.HyperRead | xdrpp/marshal.h:63-81 | any eight bytes are read as the 64-bit number with these digits |
| WireForm.BoolsOnTheWire | xdrpp/types.h:335-341 | bools are written as 0 and 1 |
| WireForm.BoolRead | xdrpp/types.h:341 | and read as true from any number but 0 |
| WireForm.DataOnTheWire | xdrpp/marshal.cc:59-73 | opaque data is written as it is, behind its length if that varies, with fewer than four zeros up to a multiple of four |
| WireForm.StructsOnTheWire | xdrc/gen_hh.cc:234-250 | a struct is written as its fields in order |
| WireForm.ContainersOnTheWire | xdrpp/types.h:374-392 | an array is written as its elements, a vector and a pointer as their number and then these |
| WireForm.UnionsOnTheWire | xdrc/gen_hh.cc:648-660 | a union is written as its tag and the field that the tag selects |
| Truncation.PaddingIsChecked | xdrpp/marshal.cc:43-57 | opaque data that is short is an overflow, other padding than zeros is its own error |
| Truncation.HeadsAreChecked | xdrpp/types.h:380-388 | a length over its maximum, a flag over 1 or a tag without an arm is refused with its error, whatever follows |
| Truncation.Truncated | xdrpp/marshal.h:141-145 | every proper prefix of an encoding is refused as an overflow |
| RoundTrip.DecodeOfEncode | xdrpp/types.h:374-392 | decoding an encoding, whatever follows it, gives the value and leaves what follows, exactly when no length is over its maximum and the nesting is within the stack limit; otherwise the error names the cause |
| Canonical.AcceptedBy | xdrpp/marshal.h:166-205 | whatever is accepted is a well-formed, live, in-bounds value within the stack limit; as many bytes are consumed as its encoding has, and exactly its encoding if no bool can be misread |
| Canonical.CanonicalExactly | xdrpp/types.h:335-341 | bytes are accepted and re-encode to themselves exactly when a decoder that insists on 0 or 1 for bools accepts them |
| Canonical.CanonicalWithoutBools | xdrpp/marshal.cc:43-57 | for bool-free types accepted bytes always re-encode to themselves, padding included |
| Canonical.BoolIsNotCanonical | xdrpp/types.h:341 | the word 2 is read as true and written as 1 |
| Canonical.EncodeIsInjective | xdrpp/types.h:374-379 | encodings are prefix-free: they determine the value and where it ends |
| Equality.EqualToItself | xdrpp/types.h:951-962 | a value is == itself exactly when it holds no NaN |
| Equality.EqualExactlyWhenEncodedAlike | xdrpp/types.h:1016-1027 | two values without NaNs and negative zeros are == if and only if their encodings are equal |
| Equality.EqualAsEncodedExactlyWhen | xdrpp/types.h:951-1027 | a value is == to exactly the values with its encoding if and only if it holds no NaN and no floating-point zero |
| Equality.FloatFreeEquality | xdrpp/types.h:951-1027 | for float-free types, values are == exactly when their encodings are equal |
| Equality.FloatsBreakEquality | xdrpp/types.h:315-332 | a NaN differs from itself, and the two zeros are == with different encodings |
| Equality.NaNsAreAboveInfinity | xdrpp/types.h:300-331 | as bit patterns without their sign, NaNs are the numbers above infinity and the zeros are 0 |
| Sizes.FixedIsExact | xdrpp/types.h:690-699 | every value of a type with has_fixed_size is encoded in fixed_size bytes |
| Sizes.EqualElements | xdrpp/types.h:401-414 | n elements of fixed size take n times that size |
| Sizes.EncodedInWords | xdrpp/marshal.cc:59-72 | every encoding is a multiple of 4 bytes |
| Sizes.SerialSize | xdrpp/types.h:393-414 | serial_size is the length of the encoding, and throws exactly for a union without a live arm |
| Sizes.StructSize | xdrpp/types.h:690-731 | the recursion over fields, cut short where the rest is fixed, gives the length of the rest's encoding |
| Sizes.UnionSize | xdrc/gen_hh.cc:639-648 | the emitted size of a union is the length of its encoding |
| Sizes.ContainerSize | xdrpp/types.h:393-398 | the summing loop gives the length of the container's encoding |
| Put.PaddingFits | xdrpp/marshal.h:104-109 | a check for the bytes alone covers the padding, in a buffer of whole words |
| Put.Sink.Put32 | xdrpp/marshal.h:66-68 | put32 writes the word in wire order at the cursor and nothing else |
| Put.Sink.PutBytes | xdrpp/marshal.cc:59-72 | put_bytes writes the bytes and zeros up to a whole word and nothing else |
| Put.Sink.PutLeaf | xdrpp/marshal.h:110-127 | a number or byte string is written exactly when its padded encoding fits |
| Put.Sink.Put | xdrpp/marshal.h:129-136 | encoding succeeds exactly when every union is live, the encoding fits and the nesting is within the limit; then the buffer holds it and the limit is restored; bytes outside stay untouched in any case; an error names its cause |
| Put.Sink.Save | xdrc/gen_hh.cc:649-660 | save writes the length or tag and then the parts, or throws for a tag without arm |
| Put.Sink.PutParts | xdrpp/types.h:374-379 | the loop over the elements writes their encodings one after the other, or fails on the first that fails |
| Get.Default | xdrpp/types.h:885-894 | a default-constructed object is well-formed |
| Get.DefaultIsZero | xdrpp/types.h:885-894 | and is written as zeros throughout |
| Get.Source.GetBytes | xdrpp/marshal.cc:43-57 | get_bytes reads the bytes, refuses nonzero padding, and stays inside the message although only the bytes were checked for |
| Get.Source.GetLeaf | xdrpp/marshal.h:172-196 | a number or byte string is decoded whatever the object held |
| Get.Source.GetHead | xdrc/gen_hh.cc:661-670 | the length or tag is read and checked |
| Get.Source.Get | xdrpp/marshal.h:198-205 | decoding into any well-formed object has the outcome of Decode on the remaining bytes; the cursor stays aligned and inside the message; on success the stack limit is restored; the object is well-formed afterwards also if decoding fails half way |
| Get.Source.Load | xdrpp/types.h:380-392 | a container is cut or a union's field replaced before decoding, without effect on the outcome |
| Get.Source.GetParts | xdrpp/types.h:386-392 | the loop with extend_at decodes all the parts whatever was there before |
| Messages.ToMsg | xdrpp/marshal.h:252-260 | the message is exactly filled with the encodings of the arguments behind a correct record header; it fails exactly for a dead union or too deep a nesting |
| Messages.FromMsg | xdrpp/marshal.h:278-284 | decodes the arguments and refuses a message of odd size or with bytes left over |
| Messages.FetchOfEncode | xdrpp/marshal.h:252-284 | xdr_from_msg undoes xdr_to_msg exactly when all arguments are within bounds and the stack limit |
| Messages.FetchIsWhole | xdrpp/marshal.h:275-284 | what is accepted takes up the whole message, and without bools is its encoding byte for byte |
| DepthCheck.DepthChecker.Visit | xdrpp/depth_checker.h:43-61 | the limit is found exceeded exactly when the depth exceeds it, and otherwise the counter is restored |
| DepthCheck.CheckXdrDepth | xdrpp/depth_checker.h:70-79 | the check holds exactly when the depth is within the limit, or the limit is the greatest 32-bit one; it throws only for a union without a live arm |
| DepthCheck.DepthAgreement | xdrpp/depth_checker.h:43-61 | the check agrees with decoding the value's encoding exactly when the limit is not the greatest one or the depth fits in 32 bits |
| DepthCheck.ChainIsDeep | xdrpp/types.h:591-645 | values of a recursive type can be nested as deeply as one likes |
| DepthCheck.DepthsDisagree | xdrpp/depth_checker.h:43-61 | a list nested more than 2^32 - 1 deep that the check passes with the greatest limit and the decoder does not |
| UnionGen.NumberFields | xdrc/parse.yy:223-235 | void arms get 0, the others their rank |
| UnionGen.NumberIdentifies | xdrc/parse.yy:223-235 | a positive field number belongs to one arm only |
| UnionGen.EmitFieldNumber | xdrc/gen_hh.cc:338-366 | the emitted conditional chain, which leaves the default arm for last, gives every tag the number of the arm it selects |
| UnionGen.EmitWithMemPtr | xdrc/gen_hh.cc:448-466 | the emitted switch, with labels falling through, visits for every tag the arm it selects |
| UnionGen.EmitBoth | xdrc/gen_hh.cc:436-466 | for distinct labels and every tag, the chain numbers the arm that the switch visits |
| UnionObject.SameNumberSameField | xdrc/gen_hh.cc:472-487 | tags with equal field numbers have the same field alive |
| UnionObject.NewIsZero | xdrc/gen_hh.cc:489-494 | a new union is written as its tag and zeros |
| UnionObject.PreparedIsRetagged | xdrc/gen_hh.cc:661-670 | what decoding does to a union before its field is what setting the tag does |
| UnionObject.Object.constructor | xdrc/gen_hh.cc:489-494 | a new object has the field of its tag built, and no other |
| UnionObject.Object.Copy | xdrc/gen_hh.cc:496-507 | a copy has the same tag and field |
| UnionObject.Object.Destroy | xdrc/gen_hh.cc:509-512 | the destructor razes exactly the field that is alive |
| UnionObject.Object.SetDiscriminant | xdrc/gen_hh.cc:472-487 | a tag without arm is refused if validated; the field is kept if its number stays and replaced otherwise |
| UnionObject.Object.Assign | xdrc/gen_hh.cc:514-531 | assignment, also to itself, copies tag and field and builds and razes once |
| UnionObject.Object.Access | xdrc/gen_hh.cc:560-573 | the accessor returns the field exactly when it is alive |
| UnionObject.Run | xdrc/gen_hh.cc:436-548 | over any sequence of construct, copy, set-tag, assign and destroy, objects behave as values, and the member built is the one the tag selects |
| Framing.ParseResumes | xdrpp/msgsock.cc:38-119 | parsing a stream can stop anywhere and resume with the leftover |
| Framing.RefusedForGood | xdrpp/msgsock.cc:85-117 | after a refused header no further message is ever parsed |
| Framing.ParsePrefix | xdrpp/marshal.cc:15-31 | any prefix of the raw messages parses to a prefix of the messages, the whole to all of them |
| Stream.RawBytes | xdrpp/marshal.cc:15-31 | the header of a message is the high bit and its length |
| Stream.ParseCuts | xdrpp/msgsock.cc:38-119 | whatever the bytes are, the messages with their headers and the leftover are the stream, no message is too long, the leftover holds none, and the stream is broken exactly when the leftover starts with a header whose high bit is clear or whose other bits exceed the maximum |
| Stream.OnlyCut | xdrpp/msgsock.cc:38-119 | there is only one such cut |
| MsgSock.Receiver.TakeHeader | xdrpp/msgsock.cc:83-117 | a length word starts a message, is an empty one, or is refused and reported |
| MsgSock.Receiver.Round | xdrpp/msgsock.cc:42-118 | one round keeps the fields those of a parse of all bytes consumed |
| MsgSock.Receiver.Input | xdrpp/msgsock.cc:38-119 | a call keeps that, reports null for the end of the stream or an error and nothing for EAGAIN, consumes a prefix of the available bytes, makes progress unless a refused header is in the way, and is ended by a callback that deletes the socket |
| MsgSock.ReportedIsParsed | xdrpp/msgsock.cc:38-119 | the messages reported are those of a one-shot parse of the bytes consumed |
| MsgSock.Receive | xdrpp/msgsock.cc:38-119 | for every split of a stream into reads and calls, the messages are those of a one-shot parse of the bytes read; with as many calls as bytes, each of which gets some, they are all the messages of the stream; a broken stream is reported |
| SendQueue.Sender.PopWbytes | xdrpp/msgsock.cc:136-155 | drops exactly n unsent bytes, never takes front() of an empty queue, and leaves wstart below the front message's size |
| SendQueue.Sender.Output | xdrpp/msgsock.cc:157-188 | what writev took moves from the queue to the written bytes; a failure empties the queue; EAGAIN changes nothing, the callback included |
| SendQueue.Sender.PutMsg | xdrpp/msgsock.cc:121-134 | conservation: written bytes and unsent bytes are the raw messages put before any failure; unsent bytes have a Write callback unless the first write of an idle socket gave EAGAIN, which stalls it |
| SendQueue.StallIsPermanent | xdrpp/msgsock.cc:129-133 | once stalled, no sequence of putmsg calls ever writes a byte |
| SendQueue.FirstWriteStalls | xdrpp/msgsock.cc:173-185 | a new socket whose first write gives EAGAIN never writes anything, whatever is put later |
| Channel.Delivered | xdrpp/msgsock.cc:38-188 | what the receiver has reported is a prefix of what was put, and all of it once every byte has crossed |
| Channel.Connection.Drain | xdrpp/msgsock.cc:38-188 | from any state without failure, stall or deletion the two ends alone bring everything across |
| Channel.Run | xdrpp/msgsock.cc:38-188 | so it is after every sequence of puts, partial writes, partial reads, EAGAINs and failures; after a run without failure, stall or deletion, as many writes and reads as bytes, each of which moves some, deliver everything that was put |
| Calls.ProbeAdvances | xdrpp/msgsock.h:118-122 | get_xid moves forward or arrives at 0 |
| Calls.WrapLosesCallback | xdrpp/msgsock.h:118-122 | a run in which the counter wraps while one call is open, the probe does not see it, and a callback is lost |
| Calls.SendKeeps | xdrpp/msgsock.cc:227-232 | sending keeps every callback waiting or run once; one whose key is taken is lost |
| Calls.FireKeeps | xdrpp/msgsock.cc:212-219 | running a callback takes it out of the table for good |
| Calls.FreshKey | xdrpp/msgsock.h:118-122 | before the wrap the key of a new xid is free |
| Calls.NothingLost | xdrpp/msgsock.h:118-122 | with at most 2^31 calls the counter does not wrap, because each call accounts for at most two words it passes, and no callback is lost |
| Calls.RawComparison | xdrpp/msgsock.cc:209-211 | comparing raw words with swapped constants compares the wire words |
| Calls.Classify | xdrpp/msgsock.cc:203-224 | the tests of recv_msg find the message type on the wire, short and unknown messages included |
| Calls.RpcSock.GetXid | xdrpp/msgsock.h:118-122 | returns the first free word, and before the wrap one whose wire key is free |
| Calls.RpcSock.SendCall | xdrpp/msgsock.cc:227-232 | the callback enters the table exactly when its key is free |
| Calls.RpcSock.AbortAllCalls | xdrpp/msgsock.cc:190-200 | every outstanding callback runs once, with null, and nothing else changes |
| Calls.RpcSock.RecvCall | xdrpp/msgsock.cc:234-244 | calls go to the server; without one they are answered, except that the null notification is fatal |
| Calls.RpcSock.RecvMsg | xdrpp/msgsock.cc:202-225 | the socket is as the message says: a reply runs the callback of its call and no other; anything that is neither call nor reply ends all calls |
| Calls.Run | xdrpp/msgsock.cc:190-232 | in every run, ended by the destructor, each callback runs exactly once except those of calls whose key was taken, which never run; the replies passed on are those that bear the key of a waiting call; in a run that does not wrap the counter, in particular with at most 2^31 calls, every callback runs exactly once |
| CallHistory.RepliesReachTheirCalls | xdrpp/msgsock.cc:202-232 | in every history, a callback is given a message exactly when it is the first reply with the first word of its call and no end came between; calls wait exactly as long as they are open |
| CallHistory.Run | xdrpp/msgsock.cc:190-232 | so it is for every run of the socket, in which each callback runs at most once |
| Signals.StepKeeps | xdrpp/pollset.cc:28-44 | every step of handlers, pollers, registrars and removers keeps the invariant |
| Signals.RunKeepsInv | xdrpp/pollset.cc:277-309 | so the invariant holds after every interleaving |
| Signals.NoSignalLost | xdrpp/pollset.cc:339-398 | a set flag with an owner means the owner has an unread byte, will still look, or is about to be woken; every latched signal was served, re-raised, or waits |
| Signals.OwnerServes | xdrpp/pollset.cc:277-309 | in every reachable state the owner of a waiting signal serves it in its own next round, once the lock is free |
| Signals.RaceLosesSignal | xdrpp/pollset.cc:373-398 | a run that loses a signal by a store inside the check-then-clear window |
| Signals.OverlapLosesSignal | xdrpp/pollset.cc:28-44 | a run that loses a signal by two overlapping activations |
| Signals.NoSignalLostExactlyWhen | xdrpp/pollset.cc:28-44 | no run loses a signal exactly when neither can happen |
| SignalOwners.OwnerIsLastRegistrar | xdrpp/pollset.cc:339-398 | in every run a pollset owns a signal exactly when it was the last to register it and no removal came after: registering takes a signal from another pollset |
| SignalOwners.OwnedUnlessRemoved | xdrpp/pollset.cc:339-398 | a signal has an owner exactly when some registration has no removal after it |
| SignalOwners.RegistrationTakes | xdrpp/pollset.cc:339-370 | whoever owns it, a registration makes the pollset the owner |
| SignalOwners.HandlerInstalled | xdrpp/pollset.cc:355-364 | the handler can be activated exactly for signals that were registered at some time |
| SignalOwners.OnlyOwnerServes | xdrpp/pollset.cc:295-307 | a pollset serves a signal only if its own registration is the last |
| SignalOwners.PendingSinceRound | xdrpp/pollset.cc:277-309 | a pollset looks at its signals exactly from the read of a byte to the end of the next round |
| Inject.StepKeeps | xdrpp/pollset.cc:82-115 | every step of injectors and the runner keeps the invariant |
| Inject.EveryRun | xdrpp/pollset.h:248-255 | in every interleaving a non-empty queue will be noticed, and callbacks run once and in injection order |
| Inject.EveryRunFromStart | xdrpp/pollset.cc:82-115 | in every run from the start the callbacks run are the first of those that its steps inject, and all of them once everything is quiet |
| Inject.InjectedByRun | xdrpp/pollset.h:248-255 | every injection of a run is queued, in order |
| Inject.Drains | xdrpp/pollset.cc:82-115 | the polling thread alone then runs every callback injected so far |
| PollTable.UpdateAgrees | xdrpp/pollset.cc:131-167 | changing a callback with its event bit keeps vector and index in bijection |
| PollTable.AppendAgrees | xdrpp/pollset.cc:131-167 | so does adding a descriptor |
| PollTable.MoveAgrees | xdrpp/pollset.cc:311-337 | overwriting an inactive entry by the last one keeps the bijection and every callback |
| PollTable.NothingLeft | xdrpp/pollset.cc:226-254 | stopping after as many entries as poll reported skips none |
| PollTable.PollSet.Set | xdrpp/pollset.cc:131-167 | registers exactly that callback and leaves polled entries in place |
| PollTable.PollSet.Clear | xdrpp/pollset.cc:169-185 | removes exactly that callback and leaves polled entries in place |
| PollTable.PollSet.Consolidate | xdrpp/pollset.cc:311-337 | keeps exactly the active entries and all callbacks; an erased state has none, as its destructor asserts |
| PollTable.PollSet.Dispatch | xdrpp/pollset.cc:226-254 | serves every reported entry in order, Read before Write, although callbacks add and remove descriptors; no lookup fails |
| PollTable.PollSet.Poll | xdrpp/pollset.cc:216-259 | a round serves the reported entries and leaves only active ones |
| PollHistory.LastCallSets | xdrpp/pollset.cc:131-185 | after any fd_cb calls a callback is set as the last call for its descriptor and direction says |
| PollHistory.EventRuns | xdrpp/pollset.cc:229-252 | a reported event runs the callback that is set, once; one that runs only once is gone before it runs |
| PollHistory.RunsAtMostOnce | xdrpp/pollset.cc:229-252 | a callback set to run once, and never set again, runs at most once in any number of rounds |
| PollHistory.QuietRound | xdrpp/pollset.cc:226-254 | if the callbacks leave the table alone, a round runs those of the reported events in order, Read before Write, and removes those that run only once |
| RpcMsg.KnownReply | xdrpp/rpc_msg.x:90-140 | the words of a reply are the encoding of the corresponding rpc_msg by the schema |
| RpcMsg.StatOfReply | xdrpp/rpc_msg.cc:69-90 | classifying a reply gives its status, and a PROG_MISMATCH carries its versions |
| RpcServer.AcceptedErrorMsg | xdrpp/server.cc:9-23 | the 24 bytes are the encoding of the rpc_msg with that accept_stat |
| RpcServer.ProgMismatchMsg | xdrpp/server.cc:25-40 | the 32 bytes are the encoding of the PROG_MISMATCH reply with both versions |
| RpcServer.AuthErrorMsg | xdrpp/server.cc:42-54 | the 20 bytes are the encoding of the AUTH_ERROR reply |
| RpcServer.RpcMismatchMsg | xdrpp/server.cc:56-69 | the 24 bytes are the encoding of the RPC_MISMATCH reply with 2 and 2 |
| RpcServer.SuccessHdrEncodes | xdrpp/server.h:31-49 | the success header is the encoding of the SUCCESS reply, in 24 bytes |
| RpcServer.SuccessMsg | xdrpp/srpc.h:152 | the header followed by the result, exactly when the result can be encoded |
| RpcServer.ReplyCb.SendReplyMsg | xdrpp/arpc.h:120-124 | the callback is used once |
| RpcServer.ReplyCb.SendReply | xdrpp/arpc.h:126-134 | sends the result, or throws and sends nothing if it cannot be encoded |
| RpcServer.ReplyCb.RejectWith | xdrpp/arpc.h:136-141 | sends the rejection |
| RpcServer.ReplyCb.Drop | xdrpp/arpc.h:117 | a dropped reply_cb has sent one reply, PROC_UNAVAIL if it was never used |
| RpcDispatch.Ends | xdrpp/server.cc:102-107 | the first and last key of an ordered map are the least and greatest version |
| RpcDispatch.DecodeArg | xdrpp/server.h:205-214 | arguments are decoded into a tuple of transparent pointers, each of which takes a level of stack, and must fill the message |
| RpcDispatch.Process | xdrpp/arpc.h:174-200 | unknown procedures and undecodable arguments are answered; otherwise the handler's answer is sent, or its reply_cb is kept for later |
| RpcDispatch.AnswerNow | xdrpp/srpc.h:130-153 | a synchronous service sends the result, or lets an exception become GARBAGE_ARGS |
| RpcDispatch.AnswerLater | xdrpp/arpc.h:184-200 | an asynchronous handler that answers at once has sent one reply when its reply_cb is gone, before any exception; one that keeps its reply_cb has sent none yet |
| RpcDispatch.UseUp | xdrpp/arpc.h:105-161 | a reply_cb that is used or dropped sends one reply: the result, the rejection, or PROC_UNAVAIL if it is unused or its result cannot be encoded |
| RpcDispatch.Server.Register | xdrpp/server.cc:72-76 | the table stays indexed by the services' own program and version |
| RpcDispatch.Server.DispatchCall | xdrpp/server.cc:95-117 | a call gets the outcome of RFC 5531 for the table, with the least and greatest version in a PROG_MISMATCH, at once or by a kept reply_cb; check_call holds for the service it reaches |
| RpcDispatch.Server.Dispatch | xdrpp/server.cc:78-117 | so does every message; malformed headers and non-calls are ignored |
| RpcDispatch.Server.Serve | xdrpp/arpc.h:145-200 | once every reply_cb is gone, exactly the replies of that outcome have been sent, whether the handler answered at once or later |
| RpcClient.ReplyArrives | xdrpp/arpc.h:59-90 | the callback gets the status, with a result that fills the message, or GARBAGE_RES or NETWORK_ERROR |
| RpcClient.VerdictSeen | xdrpp/rpc_msg.cc:69-90 | every error reply is classified as its status |
| RpcClient.ResultSeen | xdrpp/arpc.h:59-90 | a result arrives exactly when it is within bounds and the client's stack limit; otherwise the client finds it garbage |
| RpcClient.OneReply | xdrpp/server.cc:78-117 | a call gets exactly one reply, unless an asynchronous handler answers before it returns with a result that cannot be encoded, and then two |
| RpcClient.ResultSentTwice | xdrpp/arpc.h:117-134 | a union result whose tag has no arm is such a case; answered later it gets one reply, PROC_UNAVAIL |
| RpcClient.StatusEndToEnd | xdrpp/server.cc:9-117 | for every table, call and handler, the client classifies the one reply as the status that the call deserves |
| RpcCall.KnownCall | xdrpp/arpc.h:44-48 | the header that invoke makes is well-formed, nested four deep, and ten known words on the wire |
| RpcCall.TupleEncodes | xdrpp/types.h:836-843 | the tuple of pointers has the encoding of the arguments, and is two levels deeper than the deepest of them |
| RpcCall.PointerDepth | xdrpp/server.h:81-97 | loading through a transparent_ptr takes one level of stack more than the object |
| RpcCall.ArgumentsArrive | xdrpp/server.h:205-214 | arguments arrive exactly when they are within bounds and, with a level for the tuple and one for the pointer around each, the stack limit; otherwise the call is GARBAGE_ARGS |
| RpcCall.CallReachesHandler | xdrpp/arpc.h:41-59 | the handler of a registered procedure is called with the client's arguments if they fit; otherwise the call is GARBAGE_ARGS |
| RpcCall.Invoke | xdrpp/arpc.h:41-59 | encoding the call throws exactly when the header or an argument is nested too deep for the client's own stack limit; otherwise header and arguments fill the message |
| RpcCall.RemoteCallIsCall | xdrpp/arpc.h:41-91 | the call is sent exactly when the client's stack limit allows its arguments, and then the client gets what the handler returns for them |
| RpcStatus.CallWords | xdrpp/rpc_msg.x:79-140 | xid, type, RPC version, program, version and procedure are the first six words of a message |
| RpcStatus.RepliesOnTheWire | xdrpp/server.cc:9-69 | the words of every reply, number by number |
| RpcStatus.SentOnTheWire | xdrpp/server.cc:78-117 | for every table, handler and message, the words that are sent: 1, 2 with both versions, 3, 4, the denial with 2 and 2, or what the handler answers; nothing for what is not a call |
| RpcStatus.Answer | xdrpp/server.cc:78-117 | the server sends these words |
| RpcStatus.StatusSeen | xdrpp/rpc_msg.cc:69-90 | a call that reaches no handler gets one reply, and the client sees status 1, 2, 3 or 4 or RPCVERS_MISMATCH as its words and the table say |
| RpcStatus.VersionsArrive | xdrpp/server.cc:25-40 | a PROG_MISMATCH brings both versions to the client |
| RpcStatus.ResultWordsSeen | xdrpp/arpc.h:59-90 | the words of a success and a result are seen as that result |
| RpcStatus.SeenIsWhole | xdrpp/arpc.h:59-90 | the client takes whole replies only: a status and exactly one result, or a status and nothing |

## Left out

- Sockets, DNS, rpcbind traffic and the Windows code: I/O plumbing around the modelled parts.
- Throwing callbacks and handlers, the recovery path of run_pending_asyncs included.
- Timeouts, nested poll, inject_cb_vec, destruction of pollsets, sigaction failure and a full self-pipe.
- Setting the receive callback, deleting calls or sending calls from within abort callbacks.
- A handler that keeps a copy of its reply_cb while an exception leaves it; handlers with a state of their own.
- The blocking read_message and the synchronous client's exceptions; the asynchronous client is modelled.
- getopt_long_only, POSIXLY_CORRECT, the modes "+" and "-", optreset, and the warning texts.
- The pretty printer, clear, iniparse, cereal and autocheck.
- The ordering operators of XDR values; equality is modelled.
- Floating-point meaning other than in equality: floats are bit patterns.
- Enum validation and user validate hooks accept everything.
- Allocation failure, size_t overflow, and moves (a move has the effect of a copy).
- Layout of the emitted text, scoping and server scaffolding of xdrc; the emitted union code is modelled as syntax trees.
- message_t::shrink, xdr_to_opaque and xdr_from_opaque, which would only add easy members.
- Codec.Decode: checks for a byte string with its padding at once; that the library's check without the padding comes to the same is in Get.Source.GetBytes.
- UnionObject.Run: the storage of a field is a value, so that what a C++ constructor does besides building it is not modelled.
