# RELP header fields: payload-length clock, fragments and frames

This project is a Dafny model of the header-field codec of rlp_03, a Java server for the
Reliable Event Logging Protocol (RELP). Three Java classes are modelled.

- `PayloadLengthClock` reads the DATALEN field incrementally. It is handed one `ByteBuffer`
  at a time through `submit`. It scans from the buffer's cursor for a space or a line feed,
  and keeps zero-copy views (`slice()`) of the bytes until the field is closed.
  - A space is consumed.
  - A line feed is left unread, because it doubles as the end-of-transfer marker.
  - Earlier views' limits plus the bytes read in this call may not pass 9 + 1. The bound is
    checked after each byte is consumed and before its terminator test.
- `FragmentImpl` is one completed field, held as an ordered list of views. It can be copied
  out (`toBytes`), measured (`size`), exported as read-only duplicates (`toWriteable`,
  `toFragmentByteStream`) or read as a decimal number (`toInt`).
- `RelpFrameImpl` holds five fragments. `toWriteable` lays them out as
  txn SP command SP payloadLength SP payload, followed by the end-of-transfer fragment with
  no separator before it.

Modules, one per file:

- `Bytes` (bytes.dfy): the `byte` newtype, `SP`, `LF` and the terminator predicates.
- `ByteBuffers` (bytebuffers.dfy): the part of `java.nio.ByteBuffer` the codec relies on.
  - A `Slice` is a view value: backing bytes, an offset, a position, a limit and a read-only flag.
  - `Concat` and the `Total…` functions fold over a list of views.
  - The class `Buffer` is the caller's input buffer, whose cursor `submit` moves.
- `Decimal` (decimal.dfy): base-10 reading of digit text, standing in for `Integer.parseInt`.
- `Fragments` (fragments.dfy): `FragmentImpl` as a datatype over its view list. Its loops
  (`toBytes`, `size`, `toWriteable`, `toFragmentByteStream`) are methods proved against `Concat`,
  `TotalLimit` and `WritePlan`.
- `Clocks` (clocks.dfy): the class `PayloadLengthClock`, with its accumulator `acc` (the Java
  `bufferSliceList`) as a mutable field and `Submit` as a `while` loop over the input buffer.
  - `Submit` is proved against the pure function `SubmitOutcome`.
  - `SubmitOutcome` is in turn related to `ParseField`, a one-stream reading of the field.
  - `Deliver` folds `SubmitOutcome` over any split of the bytes into buffers.
  - Lemmas then show that the split never changes the answer.
- `Frames` (frames.dfy): `RelpFrameImpl` as a datatype. The five accessors are its
  destructors and return exactly the constructor's fragments. `ToWriteable` is a function
  whose contract states the wire bytes.

The outcome of a `submit` call is a `Result`:

- `Pending` stands for the shared `FragmentStub`.
- `Complete(f)` carries the new `FragmentImpl`.
- `SizeLimitExceeded` stands for the thrown `IllegalArgumentException`. After it, the
  accumulator is unchanged and the input cursor is just past the byte that crossed the bound.
  The Java method leaves both in exactly that state.

Two facts about the bound:

- The bound is the constant 10 that the code writes as `9 + 1`; it is not configurable.
- After an overflow the clock keeps its accumulator and the input cursor where the code leaves them; nothing marks the clock unusable.

## Model

| member | source | states |
|---|---|---|
| Clocks.PayloadLengthClock.Submit | src/main/java/com/teragrep/rlp_03/frame/fragment/clocks/PayloadLengthClock.java:66-110 | the submit loop's result, the new accumulator and the new input cursor are exactly `SubmitOutcome` of the old accumulator and the buffer's readable region; the input limit is unchanged and the accumulator invariant is kept |
| Clocks.PayloadLengthClock.constructor | src/main/java/com/teragrep/rlp_03/frame/fragment/clocks/PayloadLengthClock.java:62-64 | a new clock has an empty accumulator, which satisfies the accumulator invariant |
| Clocks.CheckOverSize | src/main/java/com/teragrep/rlp_03/frame/fragment/clocks/PayloadLengthClock.java:112-123 | reports overflow exactly when the sum of the stored views' limits plus the bytes read passes 9 + 1 |
| Clocks.SubmitOutcome | src/main/java/com/teragrep/rlp_03/frame/fragment/clocks/PayloadLengthClock.java:66-110 | one `submit` as a function: the cursor never moves back before its start nor past the limit; a failure keeps the accumulator and consumes at least one byte; a completion empties it; a pending call reads to the limit and appends exactly one view to the accumulator |
| Clocks.ParseField | src/main/java/com/teragrep/rlp_03/frame/fragment/clocks/PayloadLengthClock.java:66-123 | the reference one-stream reading of the field: a completed field is a proper prefix of the stream of at most nine bytes |
| Clocks.FirstTerminatorSpec | src/main/java/com/teragrep/rlp_03/frame/fragment/clocks/PayloadLengthClock.java:71-95 | the scan stops at the first SP or LF: no terminator lies before the index it finds, and one lies at it unless the input ran out |
| Clocks.FirstTerminatorIs | src/main/java/com/teragrep/rlp_03/frame/fragment/clocks/PayloadLengthClock.java:71-95 | any index with no terminator before it and a terminator (or the limit) at it is the one the scan finds |
| Clocks.FirstTerminatorAtLeast | src/main/java/com/teragrep/rlp_03/frame/fragment/clocks/PayloadLengthClock.java:71-95 | a run free of terminators is read through without stopping |
| Clocks.OverSizeFails | src/main/java/com/teragrep/rlp_03/frame/fragment/clocks/PayloadLengthClock.java:112-123 | the byte that takes the earlier limits plus the bytes read past the bound fails the call, leaves the accumulator unchanged and the cursor just past that byte |
| Clocks.TerminatorCloses | src/main/java/com/teragrep/rlp_03/frame/fragment/clocks/PayloadLengthClock.java:75-104 | a terminator within the bound completes the field with the earlier views plus a view ending before the terminator, empties the accumulator, and leaves the cursor on a line feed or past a space |
| Clocks.SpaceTerminates | src/main/java/com/teragrep/rlp_03/frame/fragment/clocks/PayloadLengthClock.java:90-95 | on SP the fragment holds exactly the earlier bytes and those scanned before the space, and the space is consumed |
| Clocks.LineFeedTerminates | src/main/java/com/teragrep/rlp_03/frame/fragment/clocks/PayloadLengthClock.java:75-89 | on LF the fragment holds exactly the bytes before the line feed, and the cursor is rewound onto it so it is the next unread byte |
| Clocks.ExhaustedAccumulates | src/main/java/com/teragrep/rlp_03/frame/fragment/clocks/PayloadLengthClock.java:98-107 | a buffer exhausted without a terminator yields the stub, appends the whole scanned view to the accumulator, moves the cursor to the limit and keeps the invariant |
| Clocks.ClosedContent | src/main/java/com/teragrep/rlp_03/frame/fragment/clocks/PayloadLengthClock.java:85-98 | appending the bounded view adds exactly the bytes before the terminator to the content and its length to the limits |
| Clocks.ParseFieldCharacterised | src/main/java/com/teragrep/rlp_03/frame/fragment/clocks/PayloadLengthClock.java:66-123 | read as one stream, a field completes if and only if a terminator lies among the first ten bytes with none before it; the content is then the prefix before that terminator, of at most nine bytes; it fails if and only if more than ten bytes hold no terminator in the first ten; otherwise it waits |
| Clocks.TerminatorAfterPrefix | src/main/java/com/teragrep/rlp_03/frame/fragment/clocks/PayloadLengthClock.java:71-98 | terminator-free bytes already held shift where the scan stops and how much it reads, by exactly their length |
| Clocks.SubmitAgreesWithStream | src/main/java/com/teragrep/rlp_03/frame/fragment/clocks/PayloadLengthClock.java:66-123 | one call on an accumulating clock answers what reading the held bytes followed by the buffer's bytes as one stream answers, keeps the invariant, and while pending holds all those bytes |
| Clocks.CompleteAgrees | src/main/java/com/teragrep/rlp_03/frame/fragment/clocks/PayloadLengthClock.java:75-104 | a call that meets a terminator within the bound completes with the same content as the one-stream reading |
| Clocks.PendingAgrees | src/main/java/com/teragrep/rlp_03/frame/fragment/clocks/PayloadLengthClock.java:98-107 | a call with no terminator and no overflow is pending both ways and holds all bytes so far |
| Clocks.FieldClosed | src/main/java/com/teragrep/rlp_03/frame/fragment/clocks/PayloadLengthClock.java:75-95 | with terminator-free bytes held, the one-stream reading's field is those bytes followed by the buffer's bytes before its first terminator |
| Clocks.NothingClosed | src/main/java/com/teragrep/rlp_03/frame/fragment/clocks/PayloadLengthClock.java:98-107 | with no terminator in the buffer and room under the bound, the one-stream reading still waits |
| Clocks.SubmitKeepsAccumulating | src/main/java/com/teragrep/rlp_03/frame/fragment/clocks/PayloadLengthClock.java:98-104 | every call leaves the accumulator in its invariant: terminator-free views at position 0 within the bound, or emptied after completion |
| Clocks.CompletedFieldBounded | src/main/java/com/teragrep/rlp_03/frame/fragment/clocks/PayloadLengthClock.java:112-123 | a completed fragment holds at most nine bytes, none of them a terminator, and its views' limits count exactly its bytes |
| Clocks.ParseFieldDecided | src/main/java/com/teragrep/rlp_03/frame/fragment/clocks/PayloadLengthClock.java:75-95 | once the one-stream reading has completed or failed, later bytes do not change its answer |
| Clocks.DeliverAgreesWithStream | src/main/java/com/teragrep/rlp_03/frame/fragment/clocks/PayloadLengthClock.java:66-110 | feeding any sequence of buffers to an accumulating clock answers what the one-stream reading of the held bytes and all the buffers' bytes answers |
| Clocks.NothingDelivered | src/main/java/com/teragrep/rlp_03/frame/fragment/clocks/PayloadLengthClock.java:105-107 | with no buffers left, the held terminator-free bytes still need more |
| Clocks.FirstChunk | src/main/java/com/teragrep/rlp_03/frame/fragment/clocks/PayloadLengthClock.java:66-110 | the first buffer's call agrees with the one-stream reading of the held bytes and that buffer |
| Clocks.SplitIndependence | src/main/java/com/teragrep/rlp_03/frame/fragment/clocks/PayloadLengthClock.java:66-123 | splitting the bytes over any number of buffers gives the same answer, and a completed field the same content, as handing them over in one buffer |
| Clocks.ShortFieldCompletes | src/main/java/com/teragrep/rlp_03/frame/fragment/clocks/PayloadLengthClock.java:75-104 | a field of at most nine bytes closed by SP or LF completes with exactly those bytes, however it is split |
| Clocks.LongFieldFails | src/main/java/com/teragrep/rlp_03/frame/fragment/clocks/PayloadLengthClock.java:112-123 | ten or more terminator-free bytes fail as soon as one more byte is read, however they are split |
| Clocks.TerminatorEquivalence | src/main/java/com/teragrep/rlp_03/frame/fragment/clocks/PayloadLengthClock.java:75-95 | "0 " and "0\n" both complete with "0"; the space is consumed and the line feed is left as the next byte |
| Fragments.FromBytes | src/main/java/com/teragrep/rlp_03/frame/fragment/FragmentImpl.java:59-61 | a fragment of one view over given bytes has exactly those bytes as content |
| Fragments.IsStub | src/main/java/com/teragrep/rlp_03/frame/fragment/FragmentImpl.java:63-66 | a fragment is never the stub |
| Fragments.ToBytes | src/main/java/com/teragrep/rlp_03/frame/fragment/FragmentImpl.java:68-84 | a fresh array as long as the views' remaining counts added up, holding every view's remaining bytes in list order |
| Fragments.Size | src/main/java/com/teragrep/rlp_03/frame/fragment/FragmentImpl.java:119-126 | the sum of the views' limits, which is the remaining bytes plus the bytes before each view's position |
| Fragments.SizeIsByteCount | src/main/java/com/teragrep/rlp_03/frame/fragment/FragmentImpl.java:119-126 | for views at position 0, as the clock makes them, `size` is the length of `toBytes` |
| Fragments.ConcatWritePlan | src/main/java/com/teragrep/rlp_03/frame/fragment/FragmentImpl.java:98-117 | the exported duplicates are read-only, one per view in list order, each with that view's bytes, so together they write exactly the fragment's content |
| Fragments.ToWriteable | src/main/java/com/teragrep/rlp_03/frame/fragment/FragmentImpl.java:98-108 | a fresh array holding a read-only duplicate of each view, in list order |
| Fragments.ToFragmentByteStream | src/main/java/com/teragrep/rlp_03/frame/fragment/FragmentImpl.java:110-117 | a list of read-only duplicates of the views, in list order |
| Fragments.ToInt | src/main/java/com/teragrep/rlp_03/frame/fragment/FragmentImpl.java:92-96 | a number exactly when the content is one or more ASCII digits, otherwise a malformed-number failure; the number is the positional base-10 value of those digits |
| Fragments.ToIntLeadingZero | src/main/java/com/teragrep/rlp_03/frame/fragment/FragmentImpl.java:92-96 | a leading zero does not change what a digit fragment reads as, so text such as "007" reads as its canonical text does |
| Fragments.ToIntRoundTrip | src/main/java/com/teragrep/rlp_03/frame/fragment/FragmentImpl.java:92-96 | a fragment holding the decimal text of a number reads back as that number |
| Fragments.ToIntExamples | src/main/java/com/teragrep/rlp_03/frame/fragment/FragmentImpl.java:92-96 | "42" reads as 42, "0" as 0 and "007" as 7; "4a" is malformed |
| Decimal.Parse | src/main/java/com/teragrep/rlp_03/frame/fragment/FragmentImpl.java:95 | parsing succeeds if and only if the text is non-empty and all digits, and then gives the digits' positional value |
| Decimal.LeadingZeroValue | src/main/java/com/teragrep/rlp_03/frame/fragment/FragmentImpl.java:95 | a zero prefixed to digit text keeps it digit text of the same value |
| Decimal.LeadingZeroIgnored | src/main/java/com/teragrep/rlp_03/frame/fragment/FragmentImpl.java:95 | prefixing a zero to non-empty digit text does not change its parse; with `RenderParse` every digit string reads as its canonical text |
| Decimal.Render | src/main/java/com/teragrep/rlp_03/frame/fragment/FragmentImpl.java:95 | the canonical text of a number is non-empty, all digits, and starts with zero only for zero itself |
| Decimal.ParseRender | src/main/java/com/teragrep/rlp_03/frame/fragment/FragmentImpl.java:95 | parsing the canonical text of a number gives that number |
| Decimal.RenderParse | src/main/java/com/teragrep/rlp_03/frame/fragment/FragmentImpl.java:95 | digit text without a leading zero is the canonical text of the number it parses to |
| Decimal.LeadingDigitPositive | src/main/java/com/teragrep/rlp_03/frame/fragment/FragmentImpl.java:95 | digit text with a non-zero first digit denotes a positive number |
| Decimal.ParseExamples | src/main/java/com/teragrep/rlp_03/frame/fragment/FragmentImpl.java:95 | "42" parses to 42, "0" to 0 and "007" to 7; "4a" is rejected |
| ByteBuffers.AsReadOnly | src/main/java/com/teragrep/rlp_03/frame/fragment/FragmentImpl.java:79 | a read-only duplicate keeps the view's position, limit and remaining bytes |
| ByteBuffers.GetInto | src/main/java/com/teragrep/rlp_03/frame/fragment/FragmentImpl.java:79 | copying a view's remaining bytes writes them at the offset and leaves the rest of the array alone |
| ByteBuffers.ConcatLength | src/main/java/com/teragrep/rlp_03/frame/fragment/FragmentImpl.java:70-74 | the concatenated bytes are as many as the views' remaining counts added up |
| ByteBuffers.LimitSplit | src/main/java/com/teragrep/rlp_03/frame/fragment/FragmentImpl.java:121-125 | summed limits are the summed remaining counts plus the summed positions |
| ByteBuffers.Buffer.Get | src/main/java/com/teragrep/rlp_03/frame/fragment/clocks/PayloadLengthClock.java:72 | reads the byte at the cursor and advances the cursor by one, never past the limit |
| ByteBuffers.Buffer.SetPosition | src/main/java/com/teragrep/rlp_03/frame/fragment/clocks/PayloadLengthClock.java:83 | sets the cursor anywhere up to the limit and keeps the limit; `submit` uses it to step back onto the line feed |
| ByteBuffers.Buffer.ToSlice | src/main/java/com/teragrep/rlp_03/frame/fragment/clocks/PayloadLengthClock.java:68 | a view from the cursor to the limit that starts at position 0 and holds the buffer's readable bytes; submitted buffers are taken to be writable |
| Frames.Space | src/main/java/com/teragrep/rlp_03/frame/RelpFrameImpl.java:60 | the separator fragment holds the single byte SP |
| Frames.IsStub | src/main/java/com/teragrep/rlp_03/frame/RelpFrameImpl.java:101-104 | a constructed frame is never the stub |
| Frames.Parts | src/main/java/com/teragrep/rlp_03/frame/RelpFrameImpl.java:119-128 | eight parts are written per frame |
| Frames.WirePlansJoin | src/main/java/com/teragrep/rlp_03/frame/RelpFrameImpl.java:117-131 | writing each part's exported duplicates in turn writes exactly the parts' contents in order |
| Frames.JoinedParts | src/main/java/com/teragrep/rlp_03/frame/RelpFrameImpl.java:119-128 | the eight parts' contents joined are txn, SP, command, SP, payloadLength, SP, payload, endOfTransfer |
| Frames.ToWriteable | src/main/java/com/teragrep/rlp_03/frame/RelpFrameImpl.java:117-131 | eight writeables, each the exported duplicates of one part in order; written in turn they give txn SP command SP payloadLength SP payload, then endOfTransfer with no separator before it |
| Frames.OpenFrameOnTheWire | src/main/java/com/teragrep/rlp_03/frame/RelpFrameImpl.java:117-131 | the frame "1", "open", "4", "test", "\n" is written as "1 open 4 test\n" |

## Left out

- `FragmentImpl.toString` (UTF-8 decoding) is not modelled. `ToInt` reads the bytes directly, which agrees with the decoded text for ASCII digits.
- Fragments.ToInt: does not model `Integer.parseInt`'s sign characters, its 32-bit range or its non-ASCII digits. The model accepts only unsigned ASCII digit strings, of any length.
- `Writeable`, `Writeables`, `FragmentWriteImpl`, `FragmentByteStreamImpl`, `FragmentFactory` and `FragmentStub` are not part of this model. Their results appear as the exported view lists (`WritePlan`), the wire bytes those lists carry (`WireBytes`), `FromBytes` and `Pending`.
- `RelpFrameImpl.toString` is diagnostic text only and is not modelled.
- `RelpFrameImpl.close` is a no-op. A frame here is a value with no state to release.
- Frames.Space: the Java `space` is one shared object reused for all separators and all frames. Fragments here are values, so shared identity is not expressed; only its content, a single SP, is.
- Fragments.ToBytes: Java also leaves the stored views' cursors untouched because it copies through duplicates. Here views are values, so a call cannot change them, and calling it twice gives equal contents by its contract.
- ByteBuffers.Buffer.ToSlice: the input buffer carries no read-only flag, so its slice is always writable; `slice()` of a read-only buffer would be read-only. Nothing in the codec writes through the slice.
- The socket I/O loop, the reuse of input buffers, the lifetime of views into them, and threads are outside this model.
- The clocks for the other header fields and the frame assembler that drives them are outside this model.
- Clocks.PayloadLengthClock.Submit: the thrown `IllegalArgumentException` is modelled as the result `SizeLimitExceeded`. The stub object is modelled as `Pending`.
