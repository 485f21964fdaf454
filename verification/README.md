# libcommon core, modelled in Dafny

This project models the small, sequential pieces of logic at the core of
CM4all's `libcommon` C++ library and proves properties about them:

- **FNV-1a and djb hashes** (`src/util/FNVHash.hxx`, `src/util/djbhash.c`):
  byte-wise folds on 32- and 64-bit words, computed in a possibly wider
  "fast" integer and narrowed at the end.
- **Rounding to a power of two** (`src/util/RoundPowerOfTwo.hxx`): the
  bit-mask formulas on unsigned words of any width, including the
  wrap-around of `RoundUpToPowerOfTwo` at the top of the range.
- **Resource limits** (`src/spawn/ResourceLimits.hxx`): the `UNDEFINED`
  sentinel and the emptiness and fullness predicates.
- **FIFO transfers** (`src/net/Buffered.cxx`): moving bytes between a socket
  and a bounded FIFO buffer. The socket is a parameter that returns a count
  or an error.
- **Buffered socket contract** (`src/event/net/BufferedSocket.hxx`): this
  is modelled from the header only. It covers:
  - the result codes and how they are interpreted;
  - the handler's default answers;
  - the order of the end-of-stream callbacks;
  - the object's lifecycle, as an immutable state with one transition per
    method.
- **Config-line tokenizer** (`src/io/LineParser.cxx`): words, unquoted and
  quoted values, in-place escape decoding, yes/no and positive integers.
- **Address anonymisation** (`src/net/Anonymize.cxx`): the string surgery
  that zeroes the last IPv4 octet or truncates an IPv6 address.
- **`/proc/PID/mountinfo` lines** (`src/io/linux/MountInfo.cxx`): column
  splitting, the search for the "-" separator, and the first-match search.
  The format is the one proc(5) describes under "/proc/pid/mountinfo".
- **`/proc/PID/cgroup` lines** (`src/spawn/Systemd.cxx`): classifying each
  line and building the cgroup state that systemd assigned. The format is
  the one cgroups(7) describes.
- **Child-process identity strings** (`src/spawn/ChildOptions.cxx`):
  `ChildOptions::MakeId`, and what can be read back from the id it writes.
- **PostgreSQL parameters** (`src/pg/ParamWrapper.hxx`): how each C++ value
  becomes a text or binary parameter, and how the parameter arrays are
  filled.

There is one Dafny module per source file. The shared modules are:
- `Wrappers`: `Option` and `Result`.
- `Words`: byte, 32- and 64-bit arithmetic, xor/and/or on naturals, and C
  strings that end at the first NUL.
- `Text`: index search, split and join.
- `Numerals`: digit strings and C's `strtoul`.

Machine words are naturals with explicit moduli. Wherever the source
relies on it, a wrap-around is written out: `unsigned` casts, `fast_type`
narrowing, and `rlim_t(-2)`. C strings are `seq<char>` read up to the first
NUL.

## Model

| member | source | states |
|---|---|---|
| `DjbHash.Update` | src/util/djbhash.c:9-14 | one step multiplies by 33 and xors the byte in; reduced mod 2^32 it agrees with the 32-bit step, and it stays below the fast-type bound |
| `DjbHash.FoldAppend` | src/util/djbhash.c:24-25 | hashing `a + b` folds `b` on from the state reached after `a` |
| `DjbHash.HashIncremental` | src/util/djbhash.c:16-28 | the hash of a concatenation continues from the hash state of its first part |
| `DjbHash.FoldBounded` | src/util/djbhash.c:21-27 | the 32-bit fold never leaves the 32-bit range |
| `DjbHash.EmptyHash` | src/util/djbhash.c:21 | the hash of no bytes is 5381 |
| `DjbHash.DjbHash` | src/util/djbhash.c:16-28 | the loop in `uint_fast32_t`, truncated to `uint32_t`, equals the fold computed mod 2^32 at every step |
| `DjbHash.DjbHashString` | src/util/djbhash.c:30-41 | hashing a C string equals `djb_hash` of its bytes before the first NUL |
| `FnvHash.StandardTraitsValid` | src/util/FNVHash.hxx:49-65 | the 32- and 64-bit traits are well formed: whole bytes wide, a fast type that is a whole multiple of the word, an offset basis inside the word |
| `FnvHash.Update` | src/util/FNVHash.hxx:72-75 | an update is `(hash xor byte) * prime` modulo the word size, and stays inside the fast type |
| `FnvHash.FastFoldNarrows` | src/util/FNVHash.hxx:77-86 | folding in the wider fast type and narrowing at the end equals reducing mod 2^32 or 2^64 at every step |
| `FnvHash.FoldAppend` | src/util/FNVHash.hxx:88-97 | the fold over `a + b` continues the fold over `a` |
| `FnvHash.FoldBounded` | src/util/FNVHash.hxx:88-97 | starting inside the word, the fold stays inside the word |
| `FnvHash.BinaryHash` | src/util/FNVHash.hxx:88-97 | `BinaryHash` is the fold from the offset basis, always below the word modulus |
| `FnvHash.EmptyHashIsOffsetBasis` | src/util/FNVHash.hxx:49-65 | no bytes hash to 2166136261 (32-bit) and 14695981039346656037 (64-bit) |
| `FnvHash.HashIncremental` | src/util/FNVHash.hxx:88-97 | the hash of `a + b` is the fold over `b` from the state after `a` |
| `FnvHash.StringHash` | src/util/FNVHash.hxx:77-86 | the fast-type loop over a C string equals `BinaryHash` of its bytes before the NUL |
| `FnvHash.HashFold32` | src/util/FNVHash.hxx:141-151 | the folded 32-bit hash xored with the low half of the 64-bit hash gives its high half |
| `RoundPowerOfTwo.RoundDown` | src/util/RoundPowerOfTwo.hxx:14-19 | the result is the largest multiple of `p` not above the value: a multiple, not larger, and less than `p` below it |
| `RoundPowerOfTwo.RoundDownMask` | src/util/RoundPowerOfTwo.hxx:14-19 | the mask formula `value & ~(p - 1)` is exactly that largest multiple |
| `RoundPowerOfTwo.RoundUp` | src/util/RoundPowerOfTwo.hxx:7-12 | the result is a multiple of `p` inside the word, equals the arithmetic ceiling multiple wrapped to the word, and when it does not wrap it lies in `[value, value + p)` |
| `RoundPowerOfTwo.RoundUpIsArithmetic` | src/util/RoundPowerOfTwo.hxx:7-12 | the formula `((value - 1) \| (p - 1)) + 1` on unsigned words equals the ceiling multiple modulo the word |
| `RoundPowerOfTwo.RoundUpAtZero` | src/util/RoundPowerOfTwo.hxx:11 | at zero the unsigned `value - 1` wraps to all ones and the result wraps back to zero |
| `RoundPowerOfTwo.RoundDownIdempotent` | src/util/RoundPowerOfTwo.hxx:14-19 | rounding down twice equals rounding down once |
| `RoundPowerOfTwo.RoundUpIdempotent` | src/util/RoundPowerOfTwo.hxx:7-12 | rounding up twice equals rounding up once |
| `RoundPowerOfTwo.RoundDownFixedIff` | src/util/RoundPowerOfTwo.hxx:14-19 | rounding down leaves a value unchanged exactly when it is a multiple of `p` |
| `RoundPowerOfTwo.RoundUpFixedIff` | src/util/RoundPowerOfTwo.hxx:7-12 | rounding up leaves a value unchanged exactly when it is a multiple of `p` |
| `RoundPowerOfTwo.RoundUpZero` | src/util/RoundPowerOfTwo.hxx:11 | zero rounds up to zero |
| `RoundPowerOfTwo.RoundUpFromRoundDown` | src/util/RoundPowerOfTwo.hxx:7-19 | without wrap-around, rounding up is rounding down for multiples and rounding down plus `p` otherwise |
| `ResourceLimits.Default` | src/spawn/ResourceLimits.hxx:12-13 | a default limit is empty and not full |
| `ResourceLimits.UndefinedValue` | src/spawn/ResourceLimits.hxx:10 | `UNDEFINED` is the 64-bit `rlim_t(-2)`, one below `RLIM_INFINITY`, and differs from it |
| `ResourceLimits.EmptyFullByDefinedCount` | src/spawn/ResourceLimits.hxx:15-21 | empty iff neither field is defined, full iff both are; never both, and one defined field is neither |
| `ResourceLimits.IsEmpty` | src/spawn/ResourceLimits.hxx:15-17 | no contract; see `ResourceLimits.EmptyFullByDefinedCount` |
| `ResourceLimits.IsFull` | src/spawn/ResourceLimits.hxx:19-21 | no contract; see `ResourceLimits.EmptyFullByDefinedCount` |
| `FifoTransfer.ReadNoWait` | src/net/Buffered.cxx:22 | the socket reads at most the space offered, from the front of what it has, or fails with -1 |
| `FifoTransfer.WriteNoWait` | src/net/Buffered.cxx:39 | the socket writes at most what it is offered, or fails with -1 |
| `FifoTransfer.ReceiveToBuffer` | src/net/Buffered.cxx:12-27 | an undefined socket is a contract violation; a full buffer gives -2 and is untouched; a positive count appends exactly that many received bytes at the tail, within the free space; otherwise the buffer is unchanged |
| `FifoTransfer.SendFromBuffer` | src/net/Buffered.cxx:29-46 | an empty buffer gives -2; a count of n consumes exactly the first n bytes and keeps the rest in order; a negative result leaves the buffer unchanged |
| `FifoTransfer.SendErrorCodes` | src/net/Buffered.cxx:39-45 | a write error leaves the buffer unchanged and reports `EAGAIN` as 0, anything else as -1 |
| `FifoTransfer.FifoOrder` | src/net/Buffered.cxx:12-46 | receiving and then sending everything delivers the old contents followed by the received bytes, in order, and empties the buffer |
| `BufferedSocket.WriteResultCodes` | src/event/net/BufferedSocket.hxx:136-165 | every `write_result` code is at most zero and no two are equal |
| `BufferedSocket.ClassifyWrite` | src/event/net/BufferedSocket.hxx:136-165 | a write result is a byte count exactly when it is positive |
| `BufferedSocket.ClassifyWriteRoundTrip` | src/event/net/BufferedSocket.hxx:136-165 | each code and each positive count reads back as itself; 0 reads as end of source only when there is a source |
| `BufferedSocket.OnDirect` | src/event/net/BufferedSocket.hxx:189-192 | without an override, `OnBufferedDirect` is unreachable |
| `BufferedSocket.HandlerDefaults` | src/event/net/BufferedSocket.hxx:201-289 | by default hang-up, remaining and drained answer true, end answers false, and a broken write becomes `WRITE_ERRNO` |
| `BufferedSocket.OverridesWin` | src/event/net/BufferedSocket.hxx:201-289 | an overriding handler's answer replaces each default |
| `BufferedSocket.OnHangup` | src/event/net/BufferedSocket.hxx:201-203 | no contract; the default (true) is stated by `BufferedSocket.HandlerDefaults`, an override by `BufferedSocket.OverridesWin` |
| `BufferedSocket.OnRemaining` | src/event/net/BufferedSocket.hxx:220-232 | no contract; the default (true) is stated by `BufferedSocket.HandlerDefaults`, an override by `BufferedSocket.OverridesWin` |
| `BufferedSocket.OnEnd` | src/event/net/BufferedSocket.hxx:234-247 | no contract; the default (false) is stated by `BufferedSocket.HandlerDefaults`, an override by `BufferedSocket.OverridesWin` |
| `BufferedSocket.OnDrained` | src/event/net/BufferedSocket.hxx:268-270 | no contract; the default (true) is stated by `BufferedSocket.HandlerDefaults`, an override by `BufferedSocket.OverridesWin` |
| `BufferedSocket.OnBroken` | src/event/net/BufferedSocket.hxx:287-289 | no contract; the default (`WRITE_ERRNO`) is stated by `BufferedSocket.HandlerDefaults`, an override by `BufferedSocket.OverridesWin` |
| `BufferedSocket.PeerClosedCallbacks` | src/event/net/BufferedSocket.hxx:205-247 | the peer closing the socket always starts with `OnBufferedClosed` |
| `BufferedSocket.ClosedFalseSuppresses` | src/event/net/BufferedSocket.hxx:205-218 | `OnBufferedClosed` answering false means no `OnBufferedRemaining`, no `OnBufferedEnd` and no error |
| `BufferedSocket.RemainingFalseSuppressesEnd` | src/event/net/BufferedSocket.hxx:220-232 | `OnBufferedRemaining` answering false means no `OnBufferedEnd` and no error |
| `BufferedSocket.EndNeedsClosedAndRemaining` | src/event/net/BufferedSocket.hxx:205-247 | `OnBufferedEnd` is called iff both earlier callbacks answered true; "closed prematurely" is raised iff it then answers false |
| `BufferedSocket.PlainHandlerEndsPrematurely` | src/event/net/BufferedSocket.hxx:234-247 | with no overrides, a peer close runs closed, remaining, end, then a premature-close error |
| `BufferedSocket.Interpret` | src/event/net/BufferedSocket.hxx:45-91 | the handler is invoked again without reading exactly for the two "again" results on a non-empty buffer |
| `BufferedSocket.AgainOnEmptyBuffer` | src/event/net/BufferedSocket.hxx:61-79 | on an empty buffer `AGAIN_OPTIONAL` acts as `OK` and `AGAIN_EXPECT` as `MORE`; otherwise both invoke the handler again |
| `BufferedSocket.MoreWithoutRoomFails` | src/event/net/BufferedSocket.hxx:52-59 | asking for more fails exactly when the socket is closed or the buffer is full, and never waits |
| `BufferedSocket.OnlyReadingResultsRead` | src/event/net/BufferedSocket.hxx:45-91 | only `OK`, `MORE` and the "again" results on an empty buffer read the socket again |
| `BufferedSocket.InterpretDirect` | src/event/net/BufferedSocket.hxx:93-130 | only `ERRNO` raises an errno error and only `CLOSED` stops |
| `BufferedSocket.New` | src/event/net/BufferedSocket.hxx:366-375 | a freshly constructed object is not valid, since `destroyed` starts true |
| `BufferedSocket.Init` | src/event/net/BufferedSocket.hxx:387-391 | after `Init` the object is valid, not ended, connected and owns the descriptor |
| `BufferedSocket.IsValid` | src/event/net/BufferedSocket.hxx:442-444 | no contract; `BufferedSocket.New`, `BufferedSocket.Init` and `BufferedSocket.Destroy` state when it holds |
| `BufferedSocket.IsConnected` | src/event/net/BufferedSocket.hxx:452-461 | asking a destroyed object is a contract violation; otherwise the answer is whether the descriptor is still held |
| `BufferedSocket.Release` | src/event/net/BufferedSocket.hxx:404-425 | closing or abandoning needs not-ended and not-destroyed; it cancels both deferred events and both of the wrapper's events, gives up the descriptor, and changes nothing else |
| `BufferedSocket.Close` | src/event/net/BufferedSocket.hxx:404-412 | needs not-ended and not-destroyed; cancels both deferred events and the wrapper's events, closes the descriptor, and changes nothing else |
| `BufferedSocket.Abandon` | src/event/net/BufferedSocket.hxx:418-425 | needs not-ended and not-destroyed; cancels both deferred events and the wrapper's events, leaves the descriptor open for the caller, and changes nothing else |
| `BufferedSocket.ReleaseDisconnects` | src/event/net/BufferedSocket.hxx:404-461 | a connected object reports connected, and reports not connected after `Close` or `Abandon` |
| `BufferedSocket.Destroy` | src/event/net/BufferedSocket.hxx:427-431 | `Destroy` is permitted only on a not-yet-destroyed object whose socket was closed or abandoned, and leaves it invalid |
| `BufferedSocket.LifecycleOrder` | src/event/net/BufferedSocket.hxx:300-316 | a connected object cannot be destroyed, but can be after `Close` or `Abandon` |
| `BufferedSocket.AsFD` | src/event/net/BufferedSocket.hxx:487-491 | -1 with nothing changed when input is buffered; otherwise the descriptor, after `Abandon` |
| `BufferedSocket.IsEmpty` | src/event/net/BufferedSocket.hxx:496-501 | needs not-ended; true exactly for an empty input buffer |
| `BufferedSocket.IsFull` | src/event/net/BufferedSocket.hxx:506-511 | needs not-ended; true exactly for an allocated buffer filled to capacity |
| `BufferedSocket.DeferWrite` | src/event/net/BufferedSocket.hxx:624-627 | schedules the deferred write only when no real write is pending, and changes nothing else |
| `BufferedSocket.ScheduleWrite` | src/event/net/BufferedSocket.hxx:629-635 | needs not-ended and not-destroyed; cancels the deferred write, schedules the real one and changes nothing else |
| `BufferedSocket.UnscheduleWrite` | src/event/net/BufferedSocket.hxx:637-642 | needs not-ended and not-destroyed; leaves neither write event scheduled and changes nothing else |
| `BufferedSocket.UnscheduleRead` | src/event/net/BufferedSocket.hxx:616-619 | leaves neither read event scheduled and changes nothing else |
| `BufferedSocket.DeferAfterScheduleIsNoop` | src/event/net/BufferedSocket.hxx:624-635 | once a write is scheduled, deferring one changes nothing |
| `BufferedSocket.EndedRejectsAll` | src/event/net/BufferedSocket.hxx:404-511 | after the end of the stream, every method guarded by `!ended` is a contract violation |
| `BufferedSocket.PeerClosed` | src/event/net/BufferedSocket.hxx:205-247 | the handler's close or abandon always happens and needs a live object; the object is then ended, its input drained, exactly when the callbacks reach `OnBufferedEnd`, and otherwise is as `Close` or `Abandon` left it |
| `BufferedSocket.EndRejectsAll` | src/event/net/BufferedSocket.hxx:404-511 | once `OnBufferedEnd` has run, `Close`, `Abandon`, `ScheduleWrite`, `UnscheduleWrite`, `IsEmpty` and `IsFull` are all contract violations |
| `BufferedSocket.PeerClosedThenDestroy` | src/event/net/BufferedSocket.hxx:300-316 | after the peer's close the object is disconnected and can be destroyed, ended or not |
| `BufferedSocket.PeerClosedLifecycle` | src/event/net/BufferedSocket.hxx:300-316 | a connection goes from `Init` through the peer's close to `Destroy`, whatever the handler answers |
| `BufferedSocket.PlainHandlerEnds` | src/event/net/BufferedSocket.hxx:220-247 | with `OnBufferedClosed` answering true and the default `OnBufferedRemaining`, the peer closing the connection ends the object |
| `LineParser.StripLeft` | src/io/LineParser.cxx:24-26 | skipping whitespace drops exactly the leading whitespace |
| `LineParser.SkipWord` | src/io/LineParser.cxx:9-27 | succeeds iff the word starts the input and is followed by whitespace or the end; on success the cursor is past the word and the whitespace after it, on failure unchanged |
| `LineParser.NextRun` | src/io/LineParser.cxx:29-67 | no token and no movement unless the first character is in the class; otherwise the token is the maximal run, accepted iff whitespace or the end follows it |
| `LineParser.NextWord` | src/io/LineParser.cxx:29-47 | a word that is returned is followed by whitespace or the end, and the cursor is past that whitespace |
| `LineParser.NextUnquotedValue` | src/io/LineParser.cxx:49-67 | the same for a run of unquoted-value characters |
| `LineParser.NextRelaxedUnquotedValue` | src/io/LineParser.cxx:69-86 | no value only at the end of the line; otherwise everything up to the next whitespace |
| `LineParser.NextQuotedValue` | src/io/LineParser.cxx:88-99 | no value and no movement iff the closing quote is missing; otherwise the text up to the first closing quote |
| `LineParser.NextValue` | src/io/LineParser.cxx:101-110 | a quote at the front gives a value iff its partner follows, with no quote inside; anything else gives the unquoted run |
| `LineParser.QuotedValue` | src/io/LineParser.cxx:101-110 | a double-quoted text reads back as itself, with the cursor past the whitespace after it |
| `LineParser.NextRelaxedValue` | src/io/LineParser.cxx:112-121 | without a quote, no value only at the end of the line |
| `LineParser.DecodeUnit` | src/io/LineParser.cxx:137-163 | a unit always moves forward within the text, and a character other than a backslash stands for itself |
| `LineParser.Unescape` | src/io/LineParser.cxx:130-164 | a decoded value always ends within the text, past the index where decoding began |
| `LineParser.UnescapeShrinks` | src/io/LineParser.cxx:130-164 | a decoded value ends at its closing quote and is shorter than the raw text it came from |
| `LineParser.NextUnescape` | src/io/LineParser.cxx:123-166 | needs an opening quote; gives a value iff the escapes decode up to a closing quote, and the value is shorter than the raw text |
| `LineParser.UnescapeEscape` | src/io/LineParser.cxx:130-164 | decoding an escaped text (`\r`, `\n`, `\\`, `\'`, `\"` and plain characters) gives back the text |
| `LineParser.NextUnescapeEscape` | src/io/LineParser.cxx:123-166 | an escaped text in quotes reads back as itself |
| `LineParser.UnescapeTerminated` | src/io/LineParser.cxx:130-164 | the decoder stops at the NUL of the line: a terminating NUL changes nothing |
| `LineParser.UnescapeInPlace` | src/io/LineParser.cxx:130-164 | the in-place loop succeeds iff the decoding does; it writes the value where the raw text began, NUL-terminated, never overtakes its read position, and leaves the rest of the line alone |
| `LineParser.NextBool` | src/io/LineParser.cxx:168-181 | succeeds iff the value is "yes" (true) or "no" (false), and fails with "yes/no expected" otherwise |
| `LineParser.PositiveValue` | src/io/LineParser.cxx:190-195 | accepts a whole numeral whose `strtoul` value is nonzero, and yields that value cast to 32 bits |
| `LineParser.NextPositiveInteger` | src/io/LineParser.cxx:183-196 | rejects a missing value, no digits, trailing characters and a zero `unsigned long` with "Positive integer expected"; the result always fits 32 bits |
| `LineParser.PositiveIntegerCanBeZero` | src/io/LineParser.cxx:191-195 | as written, a nonzero multiple of 2^32 is accepted and returned as 0 |
| `LineParser.PositiveIntegerAcceptsMinusOne` | src/io/LineParser.cxx:191-195 | as written, "-1" is accepted and returned as 4294967295 |
| `LineParser.CheckedValue` | src/io/LineParser.cxx:190-195 | the corrected check accepts exactly unsigned numerals whose value is positive and below 2^32 |
| `LineParser.NextPositiveIntegerChecked` | src/io/LineParser.cxx:183-196 | the corrected parser returns only positive 32-bit values |
| `LineParser.CheckedAgrees` | src/io/LineParser.cxx:190-195 | wherever the corrected check accepts, the original one returns the same value |
| `LineParser.CheckedRoundTrip` | src/io/LineParser.cxx:183-196 | every positive 32-bit number, written in decimal, reads back as itself |
| `LineParser.ExpectWord` | src/io/LineParser.cxx:198-206 | fails with "Word expected" exactly when there is no word; otherwise the word is followed by whitespace or the end |
| `LineParser.ExpectValue` | src/io/LineParser.cxx:235-246 | "Value expected" for no value, "Empty value not allowed" for an empty one, and otherwise the value of `NextValue` |
| `LineParser.EmptyQuotesRejected` | src/io/LineParser.cxx:242-243 | an empty quoted value is rejected as empty |
| `LineParser.ExpectWordAndSymbol` | src/io/LineParser.cxx:208-233 | `error1` unless a word starts the input; then succeeds iff the symbol follows the word after optional whitespace, returning the word and skipping whitespace after the symbol, and `error2` otherwise |
| `Anonymize.IPv4Cut` | src/net/Anonymize.cxx:42-50 | a cut exists iff a second '.' follows the first; it ends just after the last '.' |
| `Anonymize.IPv6Cut` | src/net/Anonymize.cxx:58-74 | the IPv6 truncation keeps a prefix of the input that reaches past the first ':' |
| `Anonymize.GroupLength` | src/net/Anonymize.cxx:70 | the length of a group is the distance to the next ':' or to the end |
| `Anonymize.AnonymizeAddress` | src/net/Anonymize.cxx:39-78 | the kept part is always a prefix of the input, and the appended part is one of "0", "", "00::" and ":" |
| `Anonymize.IPv4Exactly` | src/net/Anonymize.cxx:42-50 | the suffix is "0" exactly for input that starts and ends with a digit and has two dots |
| `Anonymize.IPv4LastOctet` | src/net/Anonymize.cxx:42-50 | for dotted input the kept part ends at the last '.', and no '.' follows it |
| `Anonymize.Unrecognized` | src/net/Anonymize.cxx:77 | input of neither shape comes back unchanged with an empty suffix |
| `Anonymize.IPv6Branch` | src/net/Anonymize.cxx:41-75 | colon-shaped input that is not a dotted IPv4 address takes the IPv6 path, cut from its first ':'; this includes addresses that end in an embedded IPv4 address |
| `Anonymize.IPv4Mapped` | src/net/Anonymize.cxx:52-61 | an IPv4-mapped address "::ffff:" followed by anything that ends in a hex digit or ':' is cut to "::" with an empty suffix |
| `Anonymize.IPv6DoubleColon` | src/net/Anonymize.cxx:58-61 | a "::" after the first group is kept up to and including that "::", with an empty suffix, for any input of the IPv6 shape that is not a dotted IPv4 address |
| `Anonymize.IPv6TwoGroups` | src/net/Anonymize.cxx:62-64 | an address of two groups comes back unchanged, dots or not, unless it is a dotted IPv4 address |
| `Anonymize.IPv6ThirdGroup` | src/net/Anonymize.cxx:69-74 | a third group longer than two characters loses its last two and gets "00::"; otherwise the address is kept up to the second ':' and gets ":"; embedded dots do not change this unless the input is a dotted IPv4 address |
| `Anonymize.IPv6Groups` | src/net/Anonymize.cxx:52-75 | the same, stated over the groups of the address |
| `MountInfo.SplitFill` | src/io/linux/MountInfo.cxx:43-55 | exactly N columns: the pieces in order in the first slots, empty columns after the last piece |
| `MountInfo.Separator` | src/io/linux/MountInfo.cxx:107-110 | the scan stops at the first "-" at or after column 6, or at the end |
| `MountInfo.LineColumns` | src/io/linux/MountInfo.cxx:103-105 | a well-formed mountinfo line splits back into its fields |
| `MountInfo.GetLine` | src/io/linux/MountInfo.cxx:103-121 | no contract; see `MountInfo.GetLineFields` and `MountInfo.GetLineDropsTwoOptional` |
| `MountInfo.GetLineAll` | src/io/linux/MountInfo.cxx:103-121 | no contract; the corrected reading (see Findings), stated by `MountInfo.GetLineAllFields` and `MountInfo.GetLineAgrees` |
| `MountInfo.GetLineFields` | src/io/linux/MountInfo.cxx:103-121 | with at most one optional field, `GetLine` yields root, mount point, filesystem type and source |
| `MountInfo.GetLineDropsTwoOptional` | src/io/linux/MountInfo.cxx:103-121 | as written, a line with two optional fields reads as the all-empty view |
| `MountInfo.GetLineAllFields` | src/io/linux/MountInfo.cxx:107-120 | reading all columns finds the four fields whatever the number of optional fields |
| `MountInfo.GetLineAgrees` | src/io/linux/MountInfo.cxx:103-121 | wherever the ten-column reading finds the fields, the all-column reading finds the same |
| `MountInfo.ToMountInfo` | src/io/linux/MountInfo.cxx:81-87 | conversion keeps root, filesystem and source and drops the mount point |
| `MountInfo.ReadProcessMount` | src/io/linux/MountInfo.cxx:155-169 | no contract; see `MountInfo.ReadProcessMountFirst` and `MountInfo.ReadProcessMountNone` |
| `MountInfo.ReadProcessMountFirst` | src/io/linux/MountInfo.cxx:163-165 | the result comes from the first line whose mount point matches, each line read with all its columns |
| `MountInfo.ReadProcessMountNone` | src/io/linux/MountInfo.cxx:167-168 | with no matching line the result is three empty strings |
| `Numerals.Strtoul` | src/spawn/Systemd.cxx:97-101 | the value fits `unsigned long`, the end index lies within the text, and no digits read means the value 0 |
| `Numerals.StrtoulConsumesNumerals` | src/io/LineParser.cxx:190-192 | `strtoul` stops at the end of the text, having read something, exactly when the text is blanks, an optional sign and digits |
| `Numerals.StrtoulStopsAt` | src/spawn/Systemd.cxx:97-101 | `strtoul` consumes exactly the leading decimal numeral and stops at the next character |
| `SystemdCgroup.ParseHierarchy` | src/spawn/Systemd.cxx:103-113 | a named line has a non-empty name free of ':' and a path that starts with '/' but not "//" |
| `SystemdCgroup.ParseText` | src/spawn/Systemd.cxx:92-113 | a line is the unified marker iff it starts with "0::/" |
| `SystemdCgroup.ParseLine` | src/spawn/Systemd.cxx:91-113 | the same for the C string `fgets` returned |
| `SystemdCgroup.ParseTextShape` | src/spawn/Systemd.cxx:97-113 | every accepted named line is a numeral, ':', the name, ':', the path and at most a newline |
| `SystemdCgroup.ParseHierarchyLine` | src/spawn/Systemd.cxx:97-113 | conversely, every such line is accepted with that name and path, its newline stripped |
| `SystemdCgroup.NotUnified` | src/spawn/Systemd.cxx:92 | a line whose second or third character is not ':' is not the unified marker |
| `SystemdCgroup.Entries` | src/spawn/Systemd.cxx:91-124 | every line is classified on its own, in order |
| `SystemdCgroup.ScanEntries` | src/spawn/Systemd.cxx:91-124 | no contract; see `SystemdCgroup.ScanOthers`, `SystemdCgroup.ScanUnified`, `SystemdCgroup.ScanSystemdPath` and `SystemdCgroup.ScanNoSystemd` |
| `SystemdCgroup.Other` | src/spawn/Systemd.cxx:103-123 | a line contributes one hierarchy exactly when it is named and not "name=systemd", and that hierarchy is its name and path |
| `SystemdCgroup.Others` | src/spawn/Systemd.cxx:115-123 | the reference reading of what the loop keeps: each line's own contribution, first line first |
| `SystemdCgroup.ScanOthers` | src/spawn/Systemd.cxx:115-123 | the loop keeps exactly the named hierarchies other than systemd, in line order: nothing dropped, reordered or invented |
| `SystemdCgroup.ScanKeeps` | src/spawn/Systemd.cxx:115-123 | the systemd path and every kept hierarchy come from lines of the file, and no kept hierarchy is "name=systemd" |
| `SystemdCgroup.ScanUnified` | src/spawn/Systemd.cxx:92-95 | the unified flag is set iff some line is the unified marker |
| `SystemdCgroup.ScanSystemdPath` | src/spawn/Systemd.cxx:115-116 | the systemd path is that of the last "name=systemd" line |
| `SystemdCgroup.ScanNoSystemd` | src/spawn/Systemd.cxx:115-116 | without a "name=systemd" line the systemd path stays empty |
| `SystemdCgroup.EmplaceAll` | src/spawn/Systemd.cxx:134-135 | `emplace` adds each missing key with the value and never replaces one already there |
| `SystemdCgroup.Collect` | src/spawn/Systemd.cxx:132-139 | no contract; see `SystemdCgroup.CollectMounts` and `SystemdCgroup.CollectControllers` |
| `SystemdCgroup.CollectMounts` | src/spawn/Systemd.cxx:132-139 | the mounts gain the names of exactly the hierarchies at the systemd path |
| `SystemdCgroup.CollectControllers` | src/spawn/Systemd.cxx:132-139 | a controller is mapped iff a hierarchy at the systemd path lists it, and it maps to the last line in file order that lists it |
| `SystemdCgroup.LoadSystemdCgroupState` | src/spawn/Systemd.cxx:65-151 | a file that cannot be opened gives the empty state; a non-empty state has a group path and mounts "systemd" |
| `SystemdCgroup.LoadWithoutSystemd` | src/spawn/Systemd.cxx:126-128 | without a "name=systemd" line the state is empty |
| `SystemdCgroup.LoadWithSystemd` | src/spawn/Systemd.cxx:130-150 | the group path is the last systemd path; mounts are "unified" iff a unified line was seen, then "systemd", then the other named hierarchies at the group path in line order |
| `SystemdCgroup.LoadControllers` | src/spawn/Systemd.cxx:132-139 | in a non-empty state, a controller appears iff a hierarchy at the group path lists it, and it maps to the last line in file order that lists it |
| `ChildOptions.Hex8` | src/spawn/ChildOptions.cxx:81 | `%08x` writes exactly eight lower-case hex digits whose value is the hash |
| `ChildOptions.UmaskId` | src/spawn/ChildOptions.cxx:77-78 | ";u" and the octal digits of the umask iff it is not negative, nothing otherwise |
| `ChildOptions.PathId` | src/spawn/ChildOptions.cxx:80-84 | for a set path, the tag and eight hex digits of its djb hash; nothing otherwise |
| `ChildOptions.EnvId` | src/spawn/ChildOptions.cxx:92-95 | each environment entry is written as '$' and the entry |
| `ChildOptions.EnvEntriesRun` | src/spawn/ChildOptions.cxx:92-95 | the id does not separate entries: "a$b" and the two entries "a", "b" give the same text |
| `ChildOptions.Take` | src/spawn/ChildOptions.cxx:103-130 | reading a tag back strips it exactly when it is there |
| `ChildOptions.ReadTags` | src/spawn/ChildOptions.cxx:103-130 | reading tags back gives one bit per tag |
| `ChildOptions.ReadTagged` | src/spawn/ChildOptions.cxx:103-130 | for tags none of which is a prefix of another, the written flags read back as themselves |
| `ChildOptions.TaggedRead` | src/spawn/ChildOptions.cxx:103-130 | whatever reads back as flags is exactly what those flags write |
| `ChildOptions.TrailerRoundTrip` | src/spawn/ChildOptions.cxx:103-130 | the trailing flags ";en", ";fu", ";fm", ";fb" and ";n" read back as themselves |
| `ChildOptions.TrailerParsed` | src/spawn/ChildOptions.cxx:103-130 | and any text that reads as trailing flags is what they write |
| `ChildOptions.MakeId` | src/spawn/ChildOptions.cxx:74-133 | no contract; see the `ChildOptions.IdDetermines…` lemmas and `ChildOptions.TrailerRoundTrip` |
| `ChildOptions.IdDeterminesUmask` | src/spawn/ChildOptions.cxx:74-133 | two otherwise equal options with the same id agree on whether the umask is set, and on its value |
| `ChildOptions.IdDeterminesChdirHash` | src/spawn/ChildOptions.cxx:74-133 | the same for the working directory, up to its hash |
| `ChildOptions.IdDeterminesStderrHash` | src/spawn/ChildOptions.cxx:74-133 | the same for the stderr path, up to its hash |
| `ChildOptions.IdDeterminesFlags` | src/spawn/ChildOptions.cxx:74-133 | two otherwise equal options with the same id have the same trailing flags |
| `ParamWrapper.MakeWrapper` | src/pg/ParamWrapper.hxx:57-325 | only `BinaryValue` and `string_view` are binary, and every text wrapper reports size 0; a binary wrapper's value is null exactly when the parameter's pointer is null |
| `ParamWrapper.BinaryWrappersReportLength` | src/pg/ParamWrapper.hxx:96-114 | binary wrappers with a non-null pointer point at the data itself and report its length |
| `ParamWrapper.NullBinaryIsNull` | src/pg/ParamWrapper.hxx:96-114 | a null `BinaryValue` or `string_view` is passed on as a null value in binary format |
| `ParamWrapper.BoolText` | src/pg/ParamWrapper.hxx:226-244 | `bool` becomes "t" or "f", and "t" exactly for true |
| `ParamWrapper.ListPointerNull` | src/pg/ParamWrapper.hxx:304-325 | the value is null iff the pointer is null or the list encodes to the empty string; otherwise it is the encoded text |
| `ParamWrapper.IntegerTextsRoundTrip` | src/pg/ParamWrapper.hxx:138-223 | the decimal text of every `int`, `int64_t`, `unsigned` and `uint64_t` reads back as the same number |
| `ParamWrapper.Uint64TextIsDecimal` | src/pg/ParamWrapper.hxx:204-208 | passing a `uint64_t` through the `int64_t` constructor parameter still prints its decimal value |
| `ParamWrapper.IntegerTextsFitBuffers` | src/pg/ParamWrapper.hxx:138-223 | every integer's text and its NUL fit the 16- or 32-byte buffer |
| `ParamWrapper.HasBinary` | src/pg/ParamWrapper.hxx:337-339 | no contract; see `ParamWrapper.HasBinaryIff` |
| `ParamWrapper.HasBinaryIff` | src/pg/ParamWrapper.hxx:337-339 | `HasBinary` holds iff some parameter is binary |
| `ParamWrapper.LengthOf` | src/pg/ParamWrapper.hxx:364 | a size below 2^31 is stored into the `int` length unchanged |
| `ParamWrapper.FillValues` | src/pg/ParamWrapper.hxx:352-373 | one value per parameter, in parameter order (the intended order; see Findings), and the count returned is the number of parameters |
| `ParamWrapper.Fill` | src/pg/ParamWrapper.hxx:345-367 | one value, length and format per parameter, in parameter order (the intended order; see Findings), and the count |
| `ParamWrapper.TextParamArray` | src/pg/ParamWrapper.hxx:376-399 | only for lists without a binary parameter; the values in order, and null lengths and formats |
| `ParamWrapper.BinaryParamArray` | src/pg/ParamWrapper.hxx:401-426 | values, lengths and formats of every parameter, in order |
| `ParamWrapper.AutoParamArray` | src/pg/ParamWrapper.hxx:428-431 | it has lengths and formats iff some parameter is binary, and the values in order either way |
| `ParamWrapper.FillUnsequenced` | src/pg/ParamWrapper.hxx:345-357 | as written, the call that runs k-th fills slot k, with the value of whichever parameter it belongs to |
| `ParamWrapper.LeftToRightFill` | src/pg/ParamWrapper.hxx:345-357 | calls run left to right put every parameter's value in its own slot, as `ParamWrapper.FillValues` promises |
| `ParamWrapper.UnsequencedFillSwaps` | src/pg/ParamWrapper.hxx:345-357 | two boolean parameters filled right to left arrive swapped: `$1` is "f" and `$2` is "t" |

## Left out

- File access is left out. `fopen`/`fgets` in `src/spawn/Systemd.cxx` and `src/io/linux/MountInfo.cxx` are replaced by sequences of lines. So are the 256- and 4096-byte line buffers, which truncate longer lines, and the choice between `/proc/self` and `/proc/PID`. The unused second open in `ReadProcessMount` is left out too.
- `CreateSystemdScope` is a D-Bus client and is left out. The header `src/spawn/Systemd.hxx` only declares defaults.
- `CgroupState.hxx`, `LineParser.hxx`, `ChildOptions.hxx` and `IterableSplitString` are not part of this model:
  - `CgroupState`: its mounts are a list built at the front; its controllers are a map filled with `emplace`.
  - The `LineParser` character classes (word, unquoted value, quote) are parameters.
  - Whitespace is the characters 1 to 0x20.
  - Splitting follows the usual rule: k separators give k + 1 pieces.
- `LineParser::ExpectValueAndEnd` needs `ExpectEnd` from the header, which is not part of this model.
- LineParser errors are `Result` values carrying the message. Exceptions and the `LineParser::Error` type are left out.
- `LineParser.NextUnescape`: where the cursor rests after a failed decode is not stated. The source throws or returns null there, and callers do not reuse the cursor.
- `ChildOptions.MakeId` has no contract of its own. It writes its pieces in the source's order, and the `IdDetermines…` lemmas state what the id preserves.
- The nested ids (cgroup, resource limits, namespaces, uid/gid) are taken as given text. Their `MakeId` functions are not part of this model.
- `ChildOptions::Expand`, `CopyTo` and `OpenStderrPath` expand paths, copy option sets and open files. They are left out.
- `EncodeArray` and the `Serial` format `PRIpgserial` are taken as given (`Serial.hxx` and `Array.hxx` are not part of this model). `EncodeArray` is a parameter. A `Serial` carries the text its conversion writes, so whether it fits the 16-byte buffer is not stated. Pointer lifetimes are left out.
- `ParamWrapper.NullBinaryIsNull`: a null `BinaryValue` or `string_view` is given size 0. The size field that travels with a null `BinaryValue` is not modelled, because `GetSize` does not apply to a null value.
- `ParamWrapper.LengthOf`: only sizes below 2^31 are stated to survive the `size_t`-to-`int` store. Larger ones wrap, and the wrap itself is written out.
- `FifoTransfer.ReceiveToBuffer` reads into the whole free space. `ForeignFifoBuffer` is not part of this model: its `Write()` span is non-empty exactly when the buffer is not full and at most the free space, so one call of the source may read fewer octets than the model does. Its `Read()` span is the whole content, and its storage is not modelled.
- The socket's read and write calls are parameters that return a count or an error.
- The event loop is left out: timers, `DeferEvent` registration, write timeouts and the splice/direct transfers. The flags say what is scheduled, not when it fires.
- `BufferedSocket.PeerClosed` takes the peer's close and the handler's answers as one step. The delivery of the remaining input between `OnBufferedRemaining` and `OnBufferedEnd` is not modelled, and neither is a handler that destroys the object from inside a callback.
- `BufferedSocket.Interpret`, `BufferedSocket.PeerClosedCallbacks` and `BufferedSocket.PeerClosed` follow the header's documentation. The implementation file is not part of this model.
- `BufferedSocket` debug assertions become `Err` results. Release builds do not check them.
- `ParamWrapper.Fill`, `ParamWrapper.FillValues` and the three parameter arrays run the `FillOne` calls in parameter order, the intended order (see Findings); the order as written is `ParamWrapper.FillUnsequenced`.
- `MountInfo.ReadProcessMount` reads each line with the corrected `GetLineAll` (see Findings); `MountInfo.GetLine` keeps the ten-column reading as written.
- `FnvHash.HashFold32`: the contract states the fold through xor with the low half and does not restate the 32-bit narrowing of the result.
- Coroutines, Avahi, DNS, MariaDB, seccomp, capabilities and the WAS glue are not part of this model.

## Findings

| source | as written | input that shows it | evidently intended | confidence | as-written member | corrected member |
|---|---|---|---|---|---|---|
| src/io/LineParser.cxx:190-195 | `strtoul` gives an `unsigned long` that is compared with `l <= 0` and then cast to `unsigned`. A value of 2^32 or more, or a negated numeral, passes the test and wraps | `"4294967296"` is accepted and returned as 0; `"-1"` is accepted and returned as 4294967295 | accept only numerals in 1..2^32-1, returned unchanged | not executed | `LineParser.PositiveIntegerCanBeZero`, `LineParser.PositiveIntegerAcceptsMinusOne` | `LineParser.NextPositiveIntegerChecked`, `LineParser.CheckedRoundTrip` |
| src/io/linux/MountInfo.cxx:103-121 | `GetLine` splits only ten columns. With two or more optional tagged fields, the source column after the "-" is not among them | six fields, two optional fields, "-", filesystem, source and options read as the all-empty view | keep every column, so the fields after the "-" are found for any number of optional fields, as proc(5) allows | not executed | `MountInfo.GetLineDropsTwoOptional` | `MountInfo.GetLineAllFields` |
| src/pg/ParamWrapper.hxx:345-357 | `Fill` sums the `FillOne` calls with a `+` fold. C++ does not sequence the operands of `+`, and each call writes the next slot through the shared output cursors, so the slot a parameter lands in depends on the compiler's evaluation order | the parameters `true, false`, with the calls run right to left, give `$1` = "f" and `$2` = "t" | the calls run in parameter order, as a `,` fold would sequence them | not executed; depends on the compiler | `ParamWrapper.FillUnsequenced`, `ParamWrapper.UnsequencedFillSwaps` | `ParamWrapper.FillValues`, `ParamWrapper.Fill`, `ParamWrapper.LeftToRightFill` |
