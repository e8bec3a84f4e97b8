# bytecodec in Dafny

A model of the core of `bytecodec`, a Rust library of incremental byte
codecs. Every encoder and decoder is a small state machine. The caller
hands it a byte window and it consumes or produces at most that many bytes,
keeping its progress between calls. Small machines — byte copies,
fixed-width integers, padding, constant values — are combined into larger
codecs by framing (`Length`, `MaxBytes`, `Slice`), repetition (`Collect`,
`CollectN`, `Repeat`), sequencing (tuples, chains, `Buffered`) and mapping
(`Map`, `MapErr`, `MapFrom`, `AndThen`, `Peekable`, `MaybeEos`, ...).

The files come from four generations of the `Decode`/`Encode` traits,
which do not compile together. Each generation is its own group of
modules:

- **A**: `decode(buf, eos) -> usize` with `finish_decoding`/`is_idle`. It is defined in `Decode`/`Encode` (src/decode.rs, src/encode.rs) and used by `Bytes`, `Fixnum`, `Padding`, `Null`, `Adapters`, `Framing` and `Collecting`.
- **B**: `decode(buf, eos) -> (usize, Option<Item>)` with `has_terminated`. It is defined in `ItemDecode` and used by `Tuples`, `Chains` and `Values`.
- **C**: `decode(&mut DecodeBuf) -> Option<Item>`. It is defined in `BufCodec` over the buffer windows of `Buffers` (src/buf.rs) and used by `BufCombinators` (src/combinators.rs) and `BufBytes` (src/bytes_codec.rs).
- **D**: `decode(buf, eos) -> usize` with `pop_item`/`push_item`. It is defined in `Sequences` (the trait of src/traits.rs) and used by `Numbers` and `Items`.

`ByteCounts` (src/byte_count.rs), `EndOfStream` (src/eos.rs), `Slices`
(src/slice.rs) and `Utf8` are shared by all generations.

Dafny has no traits here, so a codec type is a datatype record of its
operations, written as functions of its state. The contracts every
implementation must keep are predicates over that record: consume at most
the window, idle consumes nothing, the default `is_idle`, write at most the
buffer. A combinator is a function from records to a record, and its
`...Lawful` lemma shows that it keeps the contract when its parts do.
Where the source mutates an object, a class with the same fields holds the
state. Its methods have `modifies` clauses, and their `ensures` tie the new
state and the results to the pure step functions. The lemmas are about
those step functions.

Integers are unbounded `nat`; the widths of the source are modelled where
they matter (byte values, the 24- to 56-bit range checks, two's
complement). Closures are function-valued parameters. Iterators and
`Extend` containers are sequences.

Where the documentation and the code disagree, the model follows the code.
Where the code as written contradicts its own documentation or tests, the
model has both versions: the as-written one exhibits the discrepancy, and a
corrected one is used by the rest of the model (see "## Findings").
The error kinds are the six of src/error.rs:28-35 (`InvalidInput`,
`UnexpectedEos`, `EncoderFull`, `DecoderTerminated`, `IncompleteItem`,
`Other`) plus `IncompleteDecoding`, `InconsistentState` and `Full`, which
the older generations use.

## Model

| member | source | states |
|---|---|---|
| EndOfStream.New | src/eos.rs:6-12 | `new(true)` is at the end with 0 bytes left; `new(false)` has an unknown end and no count |
| EndOfStream.WithRemainingBytes | src/eos.rs:15-17 | the count of bytes left is `n`, and the stream is at its end exactly when `n` is 0 |
| EndOfStream.Back | src/eos.rs:39-41 | an unknown end stays unknown; a known count grows by `bytes` |
| EndOfStream.BackZeroIsIdentity | src/eos.rs:39-41 | moving the end back by 0 changes nothing |
| EndOfStream.BackComposes | src/eos.rs:39-41 | moving back by `a` and then by `b` is moving back by `a + b` |
| EndOfStream.BackLeavesEos | src/eos.rs:39-41 | after moving back by a positive count the stream is not at its end |
| EndOfStream.IsEosCharacterized | src/eos.rs:21-28 | `is_eos` holds exactly for `new(true)`, `is_unknown` exactly for `new(false)` |
| EndOfStream.IsEos | src/eos.rs:21-23 | `is_eos`: the known remainder is 0; `IsEosCharacterized` proves this holds of `New(true)` and of nothing else |
| EndOfStream.IsUnknown | src/eos.rs:26-28 | `is_unknown`: no remainder is known; `IsEosCharacterized` proves this holds of `New(false)` and of nothing else |
| EndOfStream.RemainingBytes | src/eos.rs:33-35 | `remaining_bytes`: the remainder if it is known, else `None`; `WithRemainingBytes` and `Back` state what it is after each constructor |
| ByteCounts.ToU64 | src/byte_count.rs:34-40 | a value exactly for a finite count, and that value is the count |
| ByteCounts.Default | src/byte_count.rs:101-105 | the default count is `Unknown` |
| ByteCounts.FiniteAddition | src/byte_count.rs:56-88 | both additions add finite counts as numbers |
| ByteCounts.InfiniteAbsorbs | src/byte_count.rs:56-88 | `Infinite` on either side makes both sums `Infinite` |
| ByteCounts.DecodingKeepsKnownBound | src/byte_count.rs:56-67 | on the decoding side an unknown partner keeps a non-zero finite count and `Infinite`, and loses zero, in either order |
| ByteCounts.EncodingUnknownAbsorbs | src/byte_count.rs:80-88 | on the encoding side an unknown partner makes every non-infinite sum unknown |
| ByteCounts.AdditionsCommute | src/byte_count.rs:56-88 | both additions are commutative |
| ByteCounts.ZeroIsIdentity | src/byte_count.rs:56-88 | `Finite(0)` is a unit of both additions on either side |
| ByteCounts.AdditionsAssociate | src/byte_count.rs:56-88 | both additions are associative |
| ByteCounts.OrderShape | src/byte_count.rs:90-99 | `Unknown` is incomparable, `Infinite` is above every finite count, finite counts compare as numbers |
| ByteCounts.PartialCmpFlips | src/byte_count.rs:90-99 | swapping the operands of `partial_cmp` flips Less and Greater and keeps None; Equal only for equal known counts |
| ByteCounts.LtTransitive | src/byte_count.rs:90-99 | the strict order is transitive |
| ByteCounts.ByteCountExamples | src/byte_count.rs:113-130 | the assertions of the unit test of the file |
| ByteCounts.AddForDecoding | src/byte_count.rs:56-67 | the rule table of `add_for_decoding`, case for case; `FiniteAddition`, `InfiniteAbsorbs`, `DecodingKeepsKnownBound`, `AdditionsCommute`, `ZeroIsIdentity` and `AdditionsAssociate` state its algebra |
| ByteCounts.AddForEncoding | src/byte_count.rs:80-88 | the rule table of `add_for_encoding`, case for case; `EncodingUnknownAbsorbs` and the lemmas shared with `AddForDecoding` state its algebra |
| ByteCounts.PartialCmp | src/byte_count.rs:90-99 | `partial_cmp`: finite counts compare by value, `Unknown` is incomparable, `Infinite` is above every finite count; `OrderShape` and `PartialCmpFlips` state this |
| ByteCounts.Lt | src/byte_count.rs:90-99 | `<` as derived from `partial_cmp`; `OrderShape` and `LtTransitive` prove it is a strict order on the comparable counts |
| Decode.DecodeFromBytes | src/decode.rs:447-451 | an error of `decode` is passed on; fewer bytes consumed than given is `InvalidInput`; when all were consumed the result is `finish_decoding`'s, and only then can it be Ok |
| Decode.TryDecode | src/combinator.rs:213-219 | `bytecodec_try_decode!`: an idle decoder is skipped; otherwise the decoder gets `buf[offset..]`, an error is passed on, the offset grows by the bytes consumed, and the caller proceeds exactly when the decoder became idle |
| Decode.ConsumesWithinBuffer | src/decode.rs:13-15 | the part of `decode`'s contract that the number of bytes consumed is at most the buffer's length; every decoder of the older generation is proved to keep it (the `...Lawful` lemmas) |
| Decode.IdleConsumesNothing | src/decode.rs:17-18 | "if `is_idle` returns `true`, `decode` should consume no bytes", as a predicate over a decoder; every `...Lawful` lemma proves it |
| Decode.HasDefaultIsIdle | src/decode.rs:80-83 | the default `is_idle`, `requiring_bytes() == Finite(0)`, as a predicate; `FixnumOpsLawful` and others prove which decoders keep it |
| Decode.Lawful | src/decode.rs:13-43 | the two parts of the `decode` contract above that every decoder of the model is proved to keep |
| Encode.DefaultIsIdleIsLawful | src/encode.rs:62-72 | an encoder whose `is_idle` is the default `requiring_bytes() == Finite(0)` satisfies the idle rule |
| Encode.WithItem | src/encode.rs:146-153 | Ok exactly when `start_encoding` of the default encoder succeeds, then holding that encoder; otherwise the same error |
| Encode.Filled | src/encode.rs:436-437 | a zeroed buffer of `n` bytes whose front holds what the encoder wrote |
| Encode.EncodeCalls | src/encode.rs:14-43 | a run of `encode` calls on buffers of given lengths: the bytes written one after the other, up to the first error |
| Encode.EncodeIntoBytes | src/encode.rs:429-448 | a failing start is passed on; an `Infinite` requirement is `InvalidInput`; a `Finite` result holds exactly the required number of bytes and leaves the encoder idle; an `Unknown` requirement gives `Ok(None)` in place of the bytes of `encode_all` (see "## Left out") |
| Encode.WritesWithinBuffer | src/encode.rs:14-19 | `encode` writes no more bytes than the buffer holds, as a predicate over an encoder; every `...Lawful` lemma of the encoders proves it |
| Encode.IdleRequiresNothing | src/encode.rs:62-65 | "if there are no items to be encoded, the encoder must return `Finite(0)`", taking "no items" as `is_idle`; `DefaultIsIdleIsLawful` shows the default `is_idle` keeps it |
| Encode.HasDefaultIsIdle | src/encode.rs:67-72 | the default `is_idle`, `requiring_bytes() == Finite(0)`, as a predicate; `DefaultIsIdleIsLawful` is about it |
| Encode.Lawful | src/encode.rs:14-72 | the two parts of the `encode` contract above that every encoder of the model is proved to keep |
| ItemDecode.OneByteDecode | src/tuple.rs:789-797 | a one-byte decoder used by the examples: the first byte when there is one; `UnexpectedEos` on an empty buffer at the end of the stream |
| ItemDecode.OneByteLawful | src/tuple.rs:789-797 | that decoder consumes within its window |
| ItemDecode.ConsumesWithinWindow | src/tuple.rs:46 | the decoders of the item-returning generation report at most the buffer's length as consumed; `OneByteLawful`, `BufferedLawful`, `ChainDecoderLawful` and `TupleDecoderLawful` prove it |
| ItemDecode.OneByteDecoderOps | src/tuple.rs:789-797 | the one-byte test decoder as a record: it never terminates and always needs one byte; `OneByteLawful` proves its contract |
| Utf8.ConcatValid | src/bytes.rs:454 | well-formed UTF-8 is closed under concatenation |
| Utf8.AsciiValid | src/bytes.rs:454 | every US-ASCII byte string is well-formed UTF-8 |
| Utf8.InvalidExamples | src/bytes.rs:454 | a lone continuation byte, an unfinished char and an encoded surrogate are rejected; `é` is accepted |
| Utf8.ValidUtf8 | src/bytes.rs:454 | what `str::from_utf8` accepts: a sequence of UTF8-chars as RFC 3629 section 4 defines them; `ConcatValid`, `AsciiValid` and `InvalidExamples` state its properties |
| Utf8.CharWidth | src/bytes.rs:454 | the length of the UTF8-char a lead octet starts (1 to 4), or 0 for a continuation or invalid octet, as RFC 3629 section 4 lays out the lead octets; the contract bounds it by 4 |
| Utf8.IsChar | src/bytes.rs:454 | exactly one UTF8-char of RFC 3629 section 4 (UTF8-1 to UTF8-4, with the narrowed second octets after `E0`, `ED`, `F0` and `F4`); `ValidUtf8` is a run of them |
| Null.NullDecode | src/null.rs:12-14 | consumes no byte |
| Null.NullFinish | src/null.rs:16-18 | always yields `()` |
| Null.NullRequiringBytes | src/null.rs:24-26 | requires `Finite(0)` |
| Null.NullEncode | src/null.rs:37-39 | writes nothing |
| Null.NullStart | src/null.rs:41-43 | always accepts `()` |
| Null.NullLawful | src/null.rs:9-51 | both null codecs keep the trait contracts and use the default `is_idle` |
| Null.NullRoundTrip | src/null.rs:64-80 | the tests: decoding any input consumes nothing, so `decode_from_bytes` accepts exactly the empty input; `()` encodes to no bytes |
| Null.NullIsIdle | src/null.rs:20-22 | `is_idle` of both null codecs is always `true`; `NullLawful` proves it fits `requiring_bytes` |
| Null.NullDecoderOps | src/null.rs:9-27 | `NullDecoder` as a record of its four operations; `NullLawful` and `NullRoundTrip` state its contract |
| Null.NullEncoderOps | src/null.rs:34-51 | `NullEncoder` as a record of its four operations; `NullLawful` and `NullRoundTrip` state its contract |
| Values.DecodedValueDecode | src/value.rs:31-34 | the held value is handed out once with no byte consumed; an empty decoder fails with `DecoderTerminated` |
| Values.DecodedValueLawful | src/value.rs:28-42 | the decoder consumes within its window |
| Values.DecodedValueOnce | src/value.rs:21-42 | `new(v)` yields `v` once, is then terminated and refuses a second call, and never requires a byte |
| Values.DecodedValueExample | src/value.rs:10-18 | the doc-test: `new(10)` on `b"foo"` yields 10 and consumes nothing |
| Values.ValueThenDecoder | src/value.rs:28-42 | a chain led by `new(v)` decodes as its second half does, pairing each item with `v` |
| Values.DecodedValue.constructor | src/value.rs:24-26 | holds the value |
| Values.DecodedValue.Decode | src/value.rs:31-34 | performs `DecodedValueDecode` on its slot |
| Values.DecodedValueOps | src/value.rs:28-42 | `DecodedValue` as a record: `has_terminated` once the value is taken, `requiring_bytes` always `Finite(0)`; `DecodedValueLawful` and `DecodedValueOnce` state its contract |
| Values.DecodedValue.HasTerminated | src/value.rs:36-38 | `has_terminated`: the value has been taken, as `DecodedValueOps` defines it; `DecodedValueOnce` shows it turns true after the one `decode` |
| Values.DecodedValue.RequiringBytes | src/value.rs:40-42 | `requiring_bytes` is always `Finite(0)` |
| Slices.OwnedSlice.constructor | src/slice.rs:21-23 | keeps the inner value and the range unchecked |
| Slices.OwnedSlice.AsRef | src/slice.rs:54-56 | the elements `start..end` of the inner value |
| Slices.OwnedSlice.SetThroughSlice | src/slice.rs:62-64 | a write at `i` through `as_mut` writes element `start + i` of the inner value and nothing else |
| Slices.OwnedSlice.IntoInner | src/slice.rs:46-48 | the inner value |
| Slices.WriteThroughSliceIsLocal | src/slice.rs:58-65 | a write through the slice changes exactly the viewed element |
| Slices.OwnedSliceExample | src/slice.rs:72-78 | the test: `[1,2,3,4]` over `1..3` reads `[2,3]`, and writing 9 at 0 gives `[1,9,3,4]` |
| Slices.OwnedSlice.InRange | src/slice.rs:54-56 | the range lies inside the inner value, which `&inner[start..end]` needs (Rust panics otherwise); `AsRef` and `SetThroughSlice` require it, and `WriteThroughSliceIsLocal` shows a write keeps the range valid |
| Padding.PaddingDecode | src/padding.rs:36-49 | nothing consumed after the end of the stream; otherwise the whole buffer, unless a byte differs from the expected one (`InvalidInput`, state unchanged) |
| Padding.PaddingFinish | src/padding.rs:51-55 | Ok exactly after the end of the stream was seen, and it then starts over with the same expected byte; `IncompleteDecoding` before |
| Padding.PaddingDecoderRequiringBytes | src/padding.rs:61-67 | `Infinite` until the end of the stream, `Finite(0)` from then on |
| Padding.PaddingDecoderLawful | src/padding.rs:33-68 | the decoder keeps the trait contracts and uses the default `is_idle` |
| Padding.PaddingDecoderExamples | src/padding.rs:136-143 | the test: any bytes pass without an expected byte, only the expected byte with one |
| Padding.PaddingDecoder.constructor | src/padding.rs:14-19 | the expected byte, end of stream not yet seen |
| Padding.PaddingDecoder.SetExpectedByte | src/padding.rs:29-31 | changes the expected byte only |
| Padding.PaddingDecoder.Decode | src/padding.rs:36-49 | performs `PaddingDecode` in place |
| Padding.PaddingDecoder.FinishDecoding | src/padding.rs:51-55 | performs `PaddingFinish` in place |
| Padding.PaddingEncode | src/padding.rs:87-99 | an idle encoder writes nothing; otherwise the whole buffer is the padding byte, and padding stops exactly at the end of the stream |
| Padding.PaddingStart | src/padding.rs:101-105 | only an idle encoder takes the byte; otherwise `EncoderFull` and no change |
| Padding.PaddingEncoderRequiringBytes | src/padding.rs:107-113 | `Infinite` while padding, `Finite(0)` when idle |
| Padding.PaddingEncoderLawful | src/padding.rs:84-118 | the encoder keeps the trait contracts and uses the default `is_idle` |
| Padding.PaddingIntoBytesRefused | src/padding.rs:107-113 | `encode_into_bytes` refuses a padding encoder, whose requirement is `Infinite` |
| Padding.PaddingEncoder.constructor | src/padding.rs:80-82 | an idle encoder |
| Padding.PaddingEncoder.Encode | src/padding.rs:87-99 | performs `PaddingEncode` on the buffer in place |
| Padding.PaddingEncoder.StartEncoding | src/padding.rs:101-105 | performs `PaddingStart` in place |
| Padding.PaddingEncoderExample | src/padding.rs:127-133 | the test: byte 3 fills an 8-byte buffer and the encoder is idle after the end of the stream |
| Padding.PaddingDecoderIsIdle | src/padding.rs:57-59 | `is_idle`: the end of the stream has been seen; `PaddingDecoderLawful` proves the contract |
| Padding.PaddingDecoderOps | src/padding.rs:33-68 | `PaddingDecoder` as a record of its four operations; `PaddingDecoderLawful` states its contract |
| Padding.PaddingEncoderIsIdle | src/padding.rs:115-117 | `is_idle`: no padding byte is set; `PaddingEncoderLawful` proves the contract |
| Padding.PaddingEncoderOps | src/padding.rs:84-118 | `PaddingEncoder` as a record of its four operations; `PaddingEncoderLawful` states its contract |
| Bytes.EncoderExactRequiringBytes | src/bytes.rs:82-86 | exactly the bytes not yet written, 0 without an item |
| Bytes.EncoderRequiringBytes | src/bytes.rs:73-75 | `Finite` of the bytes not yet written |
| Bytes.EncoderEncode | src/bytes.rs:44-64 | writes the first `min(buffer, pending)` pending bytes and drops them from the pending ones; idle exactly when they all fit; `UnexpectedEos` exactly when they do not fit at the end of the stream |
| Bytes.EncoderStart | src/bytes.rs:66-71 | only an idle encoder takes the item, which becomes the pending bytes from offset 0; otherwise `EncoderFull` and no change |
| Bytes.BytesEncoderLawful | src/bytes.rs:41-80 | `BytesEncoder` keeps the trait contracts |
| Bytes.EncoderEncodeInPieces | src/bytes.rs:44-64 | two calls with buffers of `n1` and `n2` bytes write what one call with `n1 + n2` bytes writes, in order |
| Bytes.EncoderWritesItem | src/bytes.rs:44-71 | a started encoder requires exactly the item's length, writes the item into a buffer that fits it, and is then idle |
| Bytes.BytesEncoder.constructor | src/bytes.rs:29-39 | an idle encoder |
| Bytes.BytesEncoder.Encode | src/bytes.rs:44-64 | performs `EncoderEncode` and copies the written bytes to the front of the buffer, leaving the rest |
| Bytes.BytesEncoder.StartEncoding | src/bytes.rs:66-71 | performs `EncoderStart` in place |
| Bytes.CopyableDecode | src/bytes.rs:147-156 | copies `min(buffer, room)` bytes behind the filled part and moves the offset past them; full exactly when the buffer had enough; `UnexpectedEos` exactly when not full at the end of the stream |
| Bytes.CopyableFinish | src/bytes.rs:158-166 | Ok exactly when full, yielding the array and restarting at offset 0; otherwise `IncompleteDecoding` and no change |
| Bytes.CopyableRequiringBytes | src/bytes.rs:168-170 | `Finite` of the bytes still missing |
| Bytes.CopyableLawful | src/bytes.rs:144-175 | `CopyableBytesDecoder` keeps the trait contracts and uses the default `is_idle` |
| Bytes.CopyableReusable | src/bytes.rs:158-166 | after a finish the decoder fills and yields the next array the same way |
| Bytes.CopyableSplitInput | src/bytes.rs:147-156 | feeding a short prefix and then the rest leaves the state one call with the whole input leaves, and consumes as many bytes |
| Bytes.CopyableDocExample | src/bytes.rs:95-117 | the doc example: `foo` then `bar` in two and one byte pieces |
| Bytes.CopyableBytesDecoder.constructor | src/bytes.rs:125-127 | the given array, offset 0 |
| Bytes.CopyableBytesDecoder.Decode | src/bytes.rs:147-156 | performs `CopyableDecode` on the array in place |
| Bytes.CopyableBytesDecoder.FinishDecoding | src/bytes.rs:158-166 | performs `CopyableFinish` in place |
| Bytes.BytesDecoderExact | src/bytes.rs:215-219 | the bytes still missing, 0 once the array was taken |
| Bytes.BytesDecoderDecode | src/bytes.rs:236-248 | `DecoderTerminated` once the array was taken; otherwise copies as the copyable decoder does, with `UnexpectedEos` exactly when short at the end of the stream |
| Bytes.BytesDecoderFinish | src/bytes.rs:250-258 | `IncompleteDecoding` with bytes missing; `DecoderTerminated` once taken; otherwise yields the array and takes it |
| Bytes.BytesDecoderRequiringBytes | src/bytes.rs:260-262 | `Finite` of the bytes still missing |
| Bytes.BytesDecoderSetBytes | src/bytes.rs:210-213 | holds the new array and requires all its bytes |
| Bytes.BytesDecoderLawful | src/bytes.rs:233-267 | `BytesDecoder` keeps the trait contracts and uses the default `is_idle` |
| Bytes.BytesDecoderOneShot | src/bytes.rs:250-258 | after a successful finish the decoder requires nothing and refuses `decode` and `finish_decoding` with `DecoderTerminated` |
| Bytes.BytesDecoderExample | src/bytes.rs:474-487 | the test: `[0; 3]` on `foobar` yields `foo`, then requires 0 and is terminated |
| Bytes.BytesDecoder.constructor | src/bytes.rs:202-207 | the given array, offset 0 |
| Bytes.BytesDecoder.SetBytes | src/bytes.rs:210-213 | performs `BytesDecoderSetBytes` in place |
| Bytes.BytesDecoder.Decode | src/bytes.rs:236-248 | performs `BytesDecoderDecode` in place |
| Bytes.BytesDecoder.FinishDecoding | src/bytes.rs:250-258 | performs `BytesDecoderFinish` in place |
| Bytes.RemainingDecode | src/bytes.rs:303-314 | nothing after the end of the stream; otherwise the whole buffer is appended and the end is recorded |
| Bytes.RemainingFinish | src/bytes.rs:316-321 | `IncompleteDecoding` before the end of the stream; after it the gathered bytes, and it starts over |
| Bytes.RemainingRequiringBytes | src/bytes.rs:323-329 | `Infinite` before the end of the stream, `Finite(0)` after it |
| Bytes.RemainingLawful | src/bytes.rs:300-334 | `RemainingBytesDecoder` keeps the trait contracts and uses the default `is_idle` |
| Bytes.RemainingGathersEverything | src/bytes.rs:303-314 | a run of calls before the end of the stream gathers all the chunks in order |
| Bytes.RemainingDocExample | src/bytes.rs:273-288 | the doc example: `foo` then `bar` at the end of the stream gives `foobar` |
| Bytes.RemainingBytesDecoder.constructor | src/bytes.rs:296-298 | nothing gathered, end not seen |
| Bytes.RemainingBytesDecoder.Decode | src/bytes.rs:303-314 | performs `RemainingDecode` in place |
| Bytes.RemainingBytesDecoder.FinishDecoding | src/bytes.rs:316-321 | performs `RemainingFinish` in place |
| Bytes.Utf8EncoderWritesString | src/bytes.rs:372-390 | a started `Utf8Encoder` writes the string's bytes into a buffer that fits them and is then idle |
| Bytes.Utf8Finish | src/bytes.rs:452-456 | errors of the inner finish are passed on; the inner bytes are yielded exactly when they are well-formed UTF-8, otherwise `InvalidInput` |
| Bytes.Utf8DecoderLawful | src/bytes.rs:442-465 | `Utf8Decoder` keeps the trait contracts of its inner decoder |
| Bytes.Utf8DecoderExamples | src/bytes.rs:401-409 | the doc example `foo`, and ill-formed bytes refused |
| Bytes.Utf8Decoder.constructor | src/bytes.rs:423-425 | holds the inner decoder |
| Bytes.Utf8Decoder.Decode | src/bytes.rs:448-450 | delegates to the inner decoder |
| Bytes.Utf8Decoder.FinishDecoding | src/bytes.rs:452-456 | performs `Utf8Finish` in place |
| Bytes.EncoderIsIdle | src/bytes.rs:77-79 | `is_idle`: no item is held; `BytesEncoderLawful` proves it agrees with `requiring_bytes` |
| Bytes.BytesEncoderOps | src/bytes.rs:41-80 | `BytesEncoder` as a record of its four operations; `BytesEncoderLawful` and `EncoderWritesItem` state its contract |
| Bytes.CopyableIsIdle | src/bytes.rs:172-174 | `is_idle`: the array is full; `CopyableLawful` proves the contract |
| Bytes.CopyableOps | src/bytes.rs:144-175 | `CopyableBytesDecoder` as a record; `CopyableLawful` and `CopyableReusable` state its contract |
| Bytes.BytesDecoderIsIdle | src/bytes.rs:264-266 | `is_idle`: nothing more is expected; `BytesDecoderLawful` proves the contract |
| Bytes.BytesDecoderOps | src/bytes.rs:233-267 | `BytesDecoder` as a record; `BytesDecoderLawful` and `BytesDecoderOneShot` state its contract |
| Bytes.RemainingIsIdle | src/bytes.rs:331-333 | `is_idle`: the end of the stream has been seen; `RemainingLawful` proves the contract |
| Bytes.RemainingOps | src/bytes.rs:300-334 | `RemainingBytesDecoder` as a record; `RemainingLawful` and `RemainingGathersEverything` state its contract |
| Bytes.Utf8EncoderOps | src/bytes.rs:372-390 | `Utf8Encoder` as a `BytesEncoder` of the string's bytes; `Utf8EncoderWritesString` states what it writes |
| Bytes.Utf8DecoderOps | src/bytes.rs:442-465 | `Utf8Decoder` as the inner decoder with `Utf8Finish` as its `finish_decoding`; `Utf8DecoderLawful` states its contract |
| Fixnum.BeValueBound | src/fixnum.rs:184-193 | a big-endian reading of `w` bytes is below `256^w` |
| Fixnum.LeValueBound | src/fixnum.rs:211-220 | a little-endian reading of `w` bytes is below `256^w` |
| Fixnum.BeRoundTrip | src/fixnum.rs:239-249 | reading back the big-endian bytes of a number that fits gives the number |
| Fixnum.BeBytesOfValue | src/fixnum.rs:184-193 | writing back the big-endian reading of bytes gives the bytes |
| Fixnum.LeRoundTrip | src/fixnum.rs:268-278 | reading back the little-endian bytes of a number that fits gives the number |
| Fixnum.LeBytesOfValue | src/fixnum.rs:211-220 | writing back the little-endian reading of bytes gives the bytes |
| Fixnum.ReverseSnoc | src/fixnum.rs:268-278 | reversing a sequence extended by one element puts the element first |
| Fixnum.LeIsReversedBe | src/fixnum.rs:239-278 | the little-endian bytes of a number are its big-endian bytes reversed |
| Fixnum.FromBytesBound | src/fixnum.rs:79-81 | an unsigned reading of `w` bytes is below `256^w` |
| Fixnum.DecodeItem | src/fixnum.rs:135-137 | `decode_item`: for a well-formed codec the item is in the range of its item type, and an unsigned item is below `256^width` |
| Fixnum.EncodeItem | src/fixnum.rs:476-480 | `encode_item`: `InvalidInput` exactly for an unsigned item that needs more than `width` bytes; otherwise `width` bytes |
| Fixnum.FixnumRoundTrip | src/fixnum.rs:163-166 | decoding the bytes an item encodes to gives the item, for every width, order and signedness |
| Fixnum.FixnumBytesRoundTrip | src/fixnum.rs:135-137 | encoding the item decoded from `width` bytes gives the bytes |
| Fixnum.RangeChecksMatchSource | src/fixnum.rs:477 | the range-check constants of the 24-, 40-, 48- and 56-bit encoders are `256^width - 1` |
| Fixnum.FixnumFinish | src/fixnum.rs:16-18 | `finish_decoding` of an integer decoder: the inner array read with `decode_item` exactly when it is full; `IncompleteDecoding` otherwise |
| Fixnum.NewDecoder | src/fixnum.rs:75-77 | a new decoder wants exactly `width` bytes |
| Fixnum.FixnumStart | src/fixnum.rs:36-40 | `start_encoding`: a rejected item is `InvalidInput` with no change; otherwise the item's `width` bytes become pending |
| Fixnum.FixnumOpsLawful | src/fixnum.rs:9-55 | every integer decoder and encoder keeps the trait contracts |
| Fixnum.FixnumEncodeDecode | src/fixnum.rs:1561-1580 | `assert_encode_decode!`: a started encoder requires `width` bytes, writes the item's bytes and is idle; `decode_from_bytes` of them gives the item |
| Fixnum.Fixnum8Examples | src/fixnum.rs:1582-1583 | the byte strings the test expects for 8-bit items |
| Fixnum.Fixnum16Examples | src/fixnum.rs:1584-1587 | the byte strings the test expects for 16-bit items |
| Fixnum.Fixnum24Examples | src/fixnum.rs:1588-1589 | the byte strings the test expects for 24-bit items |
| Fixnum.Fixnum32Examples | src/fixnum.rs:1590-1603 | the byte strings the test expects for 32-bit items |
| Fixnum.Fixnum40Examples | src/fixnum.rs:1604-1615 | the byte strings the test expects for 40-bit items |
| Fixnum.Fixnum48Examples | src/fixnum.rs:1616-1627 | the byte strings the test expects for 48-bit items |
| Fixnum.Fixnum56Examples | src/fixnum.rs:1628-1639 | the byte strings the test expects for 56-bit items |
| Fixnum.Fixnum64Examples | src/fixnum.rs:1640-1651 | the byte strings the test expects for unsigned 64-bit items |
| Fixnum.FixnumI64Examples | src/fixnum.rs:1652-1663 | the byte strings the test expects for signed 64-bit items |
| Fixnum.FixnumRangeExamples | src/fixnum.rs:1071 | items above the range of the 24-, 40-, 48- and 56-bit encoders are `InvalidInput` |
| Fixnum.ExtensionExamples | src/decode.rs:531-537 | the tests of `decode_from_bytes` and `encode_into_bytes` with the 16-bit big-endian codec |
| Fixnum.FixnumDecoder.constructor | src/fixnum.rs:75-77 | a decoder wanting `width` bytes |
| Fixnum.FixnumDecoder.Decode | src/fixnum.rs:12-14 | delegates to the inner `CopyableBytesDecoder` |
| Fixnum.FixnumDecoder.FinishDecoding | src/fixnum.rs:16-18 | performs `FixnumFinish` in place |
| Fixnum.FixnumEncoder.constructor | src/fixnum.rs:103-105 | an idle encoder |
| Fixnum.FixnumEncoder.Encode | src/fixnum.rs:32-34 | delegates to the inner `BytesEncoder`, writing to the front of the buffer |
| Fixnum.FixnumEncoder.StartEncoding | src/fixnum.rs:36-40 | performs `FixnumStart` in place |
| Fixnum.BeValue | src/fixnum.rs:184-193 | the number a big-endian byte string stands for (`BigEndian::read_*`); `BeValueBound`, `BeRoundTrip` and `BeBytesOfValue` prove it inverse to `BeBytes` |
| Fixnum.LeValue | src/fixnum.rs:211-220 | the number a little-endian byte string stands for (`LittleEndian::read_*`); `LeValueBound`, `LeRoundTrip` and `LeBytesOfValue` prove it inverse to `LeBytes` |
| Fixnum.BeBytes | src/fixnum.rs:239-249 | the `w` low-order bytes of `n`, most significant first (`BigEndian::write_*`); its contract gives the length, `BeRoundTrip` proves `BeValue` undoes it |
| Fixnum.LeBytes | src/fixnum.rs:268-278 | the `w` low-order bytes of `n`, least significant first (`LittleEndian::write_*`); its contract gives the length, `LeRoundTrip` proves `LeValue` undoes it, and `LeIsReversedBe` proves it is `BeBytes` reversed |
| Fixnum.FromBytes | src/fixnum.rs:184-220 | the unsigned value of the codec's bytes in its byte order; `FromBytesBound` bounds it by `256^width` |
| Fixnum.ToBytes | src/fixnum.rs:239-278 | the codec's `width` bytes of a number in its byte order; its contract gives the length, `BeRoundTrip` and `LeRoundTrip` prove `FromBytes` undoes it below `256^width`, and `FixnumRoundTrip` lifts this to items |
| Fixnum.InItemRange | src/fixnum.rs:470-481 | the values of the Rust item type of codec `c` (`u32` for `U24*`, `u64` for `U40*` … `U56*`); `FixnumRoundTrip` is stated over it, and `EncodeItem` adds the narrower width check of the wider item types |
| Fixnum.FixnumDecoderOps | src/fixnum.rs:7-25 | the decoder of `impl_decode!` as a record: a `CopyableBytesDecoder` with `decode_item` applied at `finish_decoding`; `FixnumOpsLawful` states its contract |
| Fixnum.FixnumEncoderOps | src/fixnum.rs:27-56 | the encoder of `impl_encode!` as a record: a `BytesEncoder` started with `encode_item` of the item, with `InvalidInput` outside the item type; `FixnumOpsLawful` and `FixnumEncodeDecode` state its contract |
| Adapters.MapLawful | src/combinator.rs:49-68 | `Map` keeps the decoder contracts of its inner decoder, including the default `is_idle` |
| Adapters.MapDecodeFromBytes | src/combinator.rs:56-63 | decoding through `map(f)` leaves the inner state decoding leaves, fails with the same error, and yields `f` of the inner item |
| Adapters.MapErrLawful | src/combinator.rs:111-162 | `MapErr` keeps the decoder and encoder contracts of its inner codec |
| Adapters.MapErrKeepsSuccess | src/combinator.rs:119-157 | with or without `map_err`, `decode_from_bytes` and `encode_into_bytes` succeed on the same inputs with the same values and states |
| Adapters.TryMapLawful | src/combinator.rs:919-939 | `TryMap` keeps the decoder contracts of its inner decoder |
| Adapters.TryMapDecodeFromBytes | src/combinator.rs:927-934 | decoding through `try_map(f)` succeeds exactly when decoding succeeds and `f` accepts the item, with `f`'s result |
| Adapters.MapFromLawful | src/combinator.rs:275-362 | `MapFrom` and `TryMapFrom` keep the encoder contracts of their inner encoder |
| Adapters.MapFromIntoBytes | src/combinator.rs:286-288 | encoding `u` through `map_from(from)` is encoding `from(u)` |
| Adapters.TryMapFromIntoBytes | src/combinator.rs:354-357 | a refused conversion is the error with no change; an accepted one encodes like the converted item |
| Adapters.OptionalBehaviour | src/combinator.rs:551-568 | `Optional` keeps the encoder contracts, accepts `None` without change, and encodes `Some(x)` as `x` |
| Adapters.OmittableDecode | src/combinator.rs:499-505 | nothing consumed while omitting; otherwise the inner decoder decodes |
| Adapters.OmittableFinish | src/combinator.rs:507-513 | `None` while omitting; otherwise the inner item under `Some`, or the inner error |
| Adapters.OmittableLawful | src/combinator.rs:496-522 | `Omittable` keeps the decoder contracts of its inner decoder |
| Adapters.OmittableDecodeFromBytes | src/combinator.rs:496-513 | an omitting decoder accepts exactly the empty input, yielding `None`; otherwise it decodes as the inner decoder does, under `Some` |
| Adapters.Omittable.constructor | src/combinator.rs:492-494 | the inner decoder and the flag |
| Adapters.Omittable.DoOmit | src/combinator.rs:483-485 | sets the flag only |
| Adapters.Omittable.Decode | src/combinator.rs:499-505 | performs `OmittableDecode` in place |
| Adapters.Omittable.FinishDecoding | src/combinator.rs:507-513 | performs `OmittableFinish` in place |
| Adapters.PeekableDecode | src/combinator.rs:1364-1374 | nothing consumed while an item is held; otherwise the inner decoder decodes and, once it is idle, its finished item is taken into the slot or its error returned |
| Adapters.PeekableFinish | src/combinator.rs:1376-1379 | the held item, emptying the slot, exactly when there is one; `IncompleteDecoding` otherwise |
| Adapters.PeekableLawful | src/combinator.rs:1361-1388 | `Peekable` keeps the decoder contracts |
| Adapters.PeekThenFinish | src/combinator.rs:1315-1317 | `peek` shows what `finish_decoding` returns: the item the inner decoder finished |
| Adapters.PeekableExample | src/combinator.rs:1637-1645 | the `peekable_works` test on its input `b"foo"`: 3 bytes consumed, the item `(b'f', b'o', b'o')` (as three bytes) held for `peek`, then handed over by `finish_decoding`, after which `peek` sees nothing; a 3-byte `CopyableBytesDecoder` stands in for the test's `TupleDecoder` of three `U8Decoder`s, which is in no file of this model |
| Adapters.PeekableFixnumExample | src/combinator.rs:1361-1379 | a 16-bit big-endian decoder inside `Peekable`: `[0x12, 0x34]` is held as `0x1234` and then handed over, emptying the slot |
| Adapters.Peekable.constructor | src/combinator.rs:1339-1341 | the inner decoder with an empty slot |
| Adapters.Peekable.Peek | src/combinator.rs:1315-1317 | a value exactly when `finish_decoding` would succeed, and the same value |
| Adapters.Peekable.Decode | src/combinator.rs:1364-1374 | performs `PeekableDecode` in place |
| Adapters.Peekable.FinishDecoding | src/combinator.rs:1376-1379 | performs `PeekableFinish` in place |
| Adapters.LastEncode | src/combinator.rs:1275-1282 | the held item is started once the inner encoder is idle, a failed start is passed on, and the inner encoder then encodes; the item is never started twice |
| Adapters.LastRequiringBytes | src/combinator.rs:1292-1298 | `Unknown` while the item is held, the inner count afterwards |
| Adapters.LastLawful | src/combinator.rs:1272-1299 | idle `Last` requires nothing, and it never writes past the buffer |
| Adapters.Last.constructor | src/combinator.rs:1265-1270 | the inner encoder holding the item |
| Adapters.Last.Encode | src/combinator.rs:1275-1282 | performs `LastEncode` and writes its bytes to the front of the buffer; the buffer is untouched on error |
| Adapters.LastEncodeCalls | src/combinator.rs:1275-1282 | a run of `Last::encode` calls on buffers of given lengths: the bytes written one after the other, up to the first error |
| Adapters.LastNeverStartsAgain | src/combinator.rs:1275-1282 | once its item is taken, every run of calls on `Last` is the same run on the inner encoder: no item is started again |
| Adapters.LastEncodesOnlyItem | src/combinator.rs:1241-1282 | "accepts only one additional item": over an idle inner encoder holding `x`, any run of calls writes exactly what the inner encoder started with `x` writes and ends with the slot empty, and a refused start is the run's error |
| Adapters.MaybeEosFilter | src/combinator.rs:1428-1438 | an end of stream met before any byte of an item is hidden from the inner decoder; otherwise passed on |
| Adapters.MaybeEosDecode | src/combinator.rs:1428-1438 | the inner decoder decodes with the filtered end of stream; the item counts as started once a byte was consumed |
| Adapters.MaybeEosFinish | src/combinator.rs:1440-1443 | the inner result, and the next item is not started |
| Adapters.MaybeEosLawful | src/combinator.rs:1425-1448 | `MaybeEos` keeps the decoder contracts of its inner decoder |
| Adapters.MaybeEosExample | src/combinator.rs:1624-1634 | the test: an empty final buffer fails a 16-bit decoder but not under `maybe_eos`, unless part of an item was consumed |
| Adapters.MaybeEos.constructor | src/combinator.rs:1418-1423 | the inner decoder, not started |
| Adapters.MaybeEos.Decode | src/combinator.rs:1428-1438 | performs `MaybeEosDecode` in place |
| Adapters.MaybeEos.FinishDecoding | src/combinator.rs:1440-1443 | performs `MaybeEosFinish` in place |
| Adapters.AndThenSecond | src/combinator.rs:218-220 | the second decoder is driven from `offset` on; the first is untouched and the offset stays within the buffer |
| Adapters.AndThenDecode | src/combinator.rs:210-221 | drives the first decoder until idle, builds the second decoder from its item with `f`, and drives that on the rest of the buffer; errors are passed on |
| Adapters.AndThenFinish | src/combinator.rs:223-226 | finishes and drops the second decoder; `IncompleteDecoding` without one |
| Adapters.AndThenLawful | src/combinator.rs:202-235 | `AndThen` keeps the decoder contracts |
| Adapters.AndThen.constructor | src/combinator.rs:191-200 | the first decoder and `f`, no second decoder |
| Adapters.AndThen.Decode | src/combinator.rs:210-221 | performs `AndThenDecode` in place |
| Adapters.AndThen.FinishDecoding | src/combinator.rs:223-226 | performs `AndThenFinish` in place |
| Adapters.AndThenDecodesInTurn | src/combinator.rs:210-226 | `decode_from_bytes` over `AndThen`: if the first decoder completes an item after `b0` and the decoder `f` makes of it takes all of `b1`, decoding `b0 + b1` yields what that second decoder finishes with |
| Adapters.PreEncodeStart | src/combinator.rs:1118-1122 | the item is encoded whole with `encode_into_bytes` and its bytes handed to the inner `BytesEncoder`; errors are passed on; an inner encoder of `Unknown` size gives `Other` in place of the `encode_all` path (see "## Left out") |
| Adapters.PreEncodeLawful | src/combinator.rs:1111-1127 | `PreEncode` keeps the encoder contracts |
| Adapters.PreEncodeWritesWholeItem | src/combinator.rs:1114-1122 | a started `PreEncode` requires exactly the pre-encoded length and, given room, writes those bytes and is idle |
| Adapters.MapOps | src/combinator.rs:49-72 | `Map` as a record: every operation is the inner one but `finish_decoding`, whose item goes through `f`; `MapLawful` and `MapDecodeFromBytes` state its contract |
| Adapters.MapErrDecoderOps | src/combinator.rs:111-138 | `MapErr` on a decoder as a record: every error goes through `f`; `MapErrLawful` and `MapErrKeepsSuccess` state its contract |
| Adapters.MapErrEncoderOps | src/combinator.rs:139-166 | `MapErr` on an encoder as a record: every error goes through `f`; `MapErrLawful` and `MapErrKeepsSuccess` state its contract |
| Adapters.TryMapOps | src/combinator.rs:919-943 | `TryMap` as a record: the finished item goes through the fallible `f`; `TryMapLawful` and `TryMapDecodeFromBytes` state its contract |
| Adapters.MapFromOps | src/combinator.rs:275-297 | `MapFrom` as a record: items go through `from` before the inner encoder starts; `MapFromLawful` and `MapFromIntoBytes` state its contract |
| Adapters.TryMapFromOps | src/combinator.rs:342-366 | `TryMapFrom` as a record: a conversion error comes back before the inner encoder is touched; `MapFromLawful` and `TryMapFromIntoBytes` state its contract |
| Adapters.OptionalOps | src/combinator.rs:551-572 | `Optional` as a record: `None` starts nothing and `Some(x)` starts the inner encoder with `x`; `OptionalBehaviour` states its contract |
| Adapters.OmittableOps | src/combinator.rs:496-526 | `Omittable` as a record: `requiring_bytes` is `Finite(0)` and `is_idle` is `true` while omitting; `OmittableLawful` states its contract |
| Adapters.PeekableOps | src/combinator.rs:1361-1392 | `Peekable` as a record: idle and `Finite(0)` while an item is held; `PeekableLawful` states its contract |
| Adapters.LastIsIdle | src/combinator.rs:1288-1290 | `is_idle` of `Last`: no item is pending and the inner encoder is idle; `LastLawful` proves the contract |
| Adapters.MaybeEosOps | src/combinator.rs:1425-1452 | `MaybeEos` as a record: `requiring_bytes` and `is_idle` are the inner decoder's; `MaybeEosLawful` states its contract |
| Adapters.AndThenRequiringBytes | src/combinator.rs:228-235 | `requiring_bytes` of `AndThen`: the second decoder's once it exists, else the first one's; `AndThenLawful` proves the contract |
| Adapters.AndThenIsIdle | src/combinator.rs:236-238 | `is_idle` of `AndThen`: only once the second decoder exists and is idle; `AndThenLawful` proves the contract |
| Adapters.AndThenOps | src/combinator.rs:202-239 | `AndThen` as a record of its four operations; `AndThenLawful` states its contract |
| Adapters.PreEncodeOps | src/combinator.rs:1111-1131 | `PreEncode` as a record: it writes from its `BytesEncoder`, whose `requiring_bytes` and `is_idle` it reports; `PreEncodeLawful` states its contract |
| Framing.LengthNew | src/combinator.rs:670-676 | the inner codec, with `remaining_bytes == expected_bytes` |
| Framing.LengthSetExpectedBytes | src/combinator.rs:688-698 | accepted exactly between items, resetting both counts; `IncompleteDecoding` and no change in the middle of an item |
| Framing.LengthLimit | src/combinator.rs:724 | the bytes the inner decoder may see: the smaller of the buffer and the bytes the item still needs |
| Framing.LengthDecodeInner | src/combinator.rs:724-734 | the inner decoder sees at most `limit` bytes with the end of the stream right after the item; `remaining_bytes` drops by what it consumed, and not on error |
| Framing.LengthDecodeAsWritten | src/combinator.rs:723-735 | `decode` as written: `UnexpectedEos` when the check that adds the buffer length to the bytes after it fails, otherwise `LengthDecodeInner` |
| Framing.LengthDecode | src/combinator.rs:723-735 | `decode` with the intended check, which counts only the bytes after the buffer: `UnexpectedEos`, else `LengthDecodeInner` |
| Framing.LengthFinish | src/combinator.rs:737-742 | only after exactly `expected_bytes` (else `IncompleteDecoding`); the inner result, and the budget is restored |
| Framing.LengthDecoderLawful | src/combinator.rs:720-747 | the `Length` decoder keeps the decoder contracts |
| Framing.LengthKeepsAccount | src/combinator.rs:701-746 | `remaining_bytes` never exceeds `expected_bytes`, drops by exactly the bytes consumed, and is restored by a finish |
| Framing.LengthEosAtOnce | src/combinator.rs:727-730 | with the intended check, a stream that ends inside the item is an `UnexpectedEos` at once, with no change |
| Framing.LengthChecksAgree | src/combinator.rs:727-730 | both checks agree when the end is unknown or the buffer covers the item |
| Framing.LengthEosAsWrittenLate | src/combinator.rs:727-730 | as written, a 3-byte item whose stream ends after 2 bytes gives `Ok(2)`; the intended check gives `UnexpectedEos` |
| Framing.StringDecoderLawful | src/combinator.rs:1486-1509 | the string decoder used by the tests keeps the decoder contracts |
| Framing.LengthDecoderExamples | src/combinator.rs:1486-1509 | the tests: `length(3)` decodes `foo`; `length(0)` cannot finish before a decode call, and afterwards yields the empty string |
| Framing.StringOfLength | src/combinator.rs:1616-1621 | the closure of the `and_then` test: a `length(n)` string decoder |
| Framing.AndThenExample | src/combinator.rs:1616-1621 | the test: `\x03foo` decodes to `foo` |
| Framing.LengthDecoder.constructor | src/decode.rs:300-302 | the state `LengthNew` builds |
| Framing.LengthDecoder.SetExpectedBytes | src/combinator.rs:688-698 | performs `LengthSetExpectedBytes` in place |
| Framing.LengthDecoder.Decode | src/combinator.rs:723-735 | performs `LengthDecode` in place |
| Framing.LengthDecoder.FinishDecoding | src/combinator.rs:737-742 | performs `LengthFinish` in place |
| Framing.LengthEncode | src/combinator.rs:755-776 | `UnexpectedEos` when the buffer is short of the item at the end of the stream; the inner encoder gets at most the bytes the item owes; an idle inner encoder with bytes still owed is `InvalidInput`; `remaining_bytes` drops by what was written |
| Framing.LengthStartAsWritten | src/combinator.rs:778-786 | `start_encoding` as written: `EncoderFull` unless `remaining_bytes == expected_bytes` |
| Framing.LengthEncoderNew | src/encode.rs:317-319 | the intended encoder starts idle, owing nothing |
| Framing.LengthStart | src/combinator.rs:778-786 | the intended `start_encoding`: an idle encoder takes the item and then owes `expected_bytes`; a busy one refuses with `EncoderFull` |
| Framing.LengthEncoderLawful | src/combinator.rs:752-791 | the intended `Length` encoder keeps the encoder contracts and the default `is_idle` |
| Framing.LengthEncoderAsWrittenSingleUse | src/combinator.rs:778-786 | as written, `length(1)` claims a byte before it holds an item and refuses a second item with `EncoderFull` |
| Framing.U8Items | src/combinator.rs:1512-1530 | 1 and 2 are `u8` items and 1 encodes as the byte 1 |
| Framing.LengthEncoderReusable | src/combinator.rs:788-790 | as intended, the encoder starts idle and takes a second item after the first |
| Framing.LengthStartAfterItem | src/combinator.rs:778-786 | after an item the next start is the inner start with the full budget |
| Framing.LengthEncoderExamples | src/combinator.rs:1512-1530 | the tests: `hey` fits `length(3)`, `hello` is `UnexpectedEos`, `hi` is `InvalidInput` |
| Framing.LengthEncoder.constructor | src/encode.rs:317-319 | the encoder `LengthEncoderNew` builds |
| Framing.LengthEncoder.Encode | src/combinator.rs:755-776 | performs `LengthEncode` and writes its bytes to the front of the buffer |
| Framing.LengthEncoder.StartEncoding | src/combinator.rs:778-786 | performs `LengthStart` in place |
| Framing.MaxBytesSetMax | src/combinator.rs:980-989 | accepted exactly when the item so far fits the new limit; `InvalidInput` and no change otherwise |
| Framing.MaxBytesDecode | src/combinator.rs:1009-1032 | `InvalidInput` with no change when the bytes visible or announced exceed the limit left; otherwise the inner decoder decodes and the consumed count grows |
| Framing.MaxBytesFinish | src/combinator.rs:1034-1037 | the inner result, and the count starts over |
| Framing.MaxBytesDecoderLawful | src/combinator.rs:1006-1042 | the `MaxBytes` decoder keeps the decoder contracts |
| Framing.MaxBytesKeepsLimit | src/combinator.rs:1009-1037 | an item never takes more than `max_bytes` |
| Framing.MaxBytesDecoderExamples | src/combinator.rs:1542-1547 | the test: `max_bytes(3)` takes `12` and `123` but not `1234` |
| Framing.MaxBytesEncode | src/combinator.rs:1050-1060 | the inner encoder encodes; going over the limit is `InvalidInput`; the count starts over once the inner encoder is idle |
| Framing.MaxBytesEncoderLawful | src/combinator.rs:1047-1069 | the `MaxBytes` encoder keeps the encoder contracts |
| Framing.MaxBytesEncoderExamples | src/combinator.rs:1550-1562 | the test: `max_bytes(3)` writes `foo`, refuses `hello` |
| Framing.MaxBytesDecoder.constructor | src/combinator.rs:957-963 | the inner decoder with nothing consumed |
| Framing.MaxBytesDecoder.SetMaxBytes | src/combinator.rs:980-989 | performs `MaxBytesSetMax` in place |
| Framing.MaxBytesDecoder.Decode | src/combinator.rs:1009-1032 | performs `MaxBytesDecode` in place |
| Framing.MaxBytesDecoder.FinishDecoding | src/combinator.rs:1034-1037 | performs `MaxBytesFinish` in place |
| Framing.MaxBytesEncoder.constructor | src/encode.rs:288-290 | the inner encoder with nothing written |
| Framing.MaxBytesEncoder.Encode | src/combinator.rs:1050-1060 | performs `MaxBytesEncode` and writes its bytes to the front of the buffer |
| Framing.MaxBytesEncoder.StartEncoding | src/combinator.rs:1062-1064 | delegates the start to the inner encoder |
| Framing.SliceDecode | src/combinator.rs:1192-1198 | the inner decoder sees at most `consumable_bytes`, with the end of the stream moved back by the hidden bytes; the budget drops by what it consumed |
| Framing.SliceDecoderLawful | src/combinator.rs:1189-1207 | the `Slice` decoder keeps the decoder contracts |
| Framing.SuspendedSliceConsumesNothing | src/combinator.rs:1170-1172 | a suspended slice consumes nothing and stays suspended |
| Framing.SliceDecoderExample | src/combinator.rs:1565-1584 | the test's first round: two one-byte slices take one byte each of `fboaor` and are suspended |
| Framing.SliceEncode | src/combinator.rs:1215-1221 | the inner encoder gets at most `consumable_bytes` of room, with the end moved back; the budget drops by what it wrote |
| Framing.SliceEncoderLawful | src/combinator.rs:1212-1234 | the `Slice` encoder keeps the encoder contracts |
| Framing.SliceEncoderExample | src/combinator.rs:1587-1613 | the test: budgets 3, 0, 3 and 6 write a 12-byte item in those pieces |
| Framing.SliceBytesEncode | src/combinator.rs:1215-1221 | over a `BytesEncoder`: the next pending bytes as far as buffer and budget allow; an error exactly when that leaves the item unfinished at the end of the stream |
| Framing.SliceDecoder.constructor | src/combinator.rs:1147-1152 | suspended with a budget of 0 |
| Framing.SliceDecoder.SetConsumableBytes | src/combinator.rs:1162-1164 | sets the budget only |
| Framing.SliceDecoder.Decode | src/combinator.rs:1192-1198 | performs `SliceDecode` in place |
| Framing.SliceDecoder.FinishDecoding | src/combinator.rs:1200-1202 | delegates the finish to the inner decoder |
| Framing.SliceEncoder.constructor | src/encode.rs:409-411 | suspended with a budget of 0 |
| Framing.SliceEncoder.SetConsumableBytes | src/combinator.rs:1162-1164 | sets the budget only |
| Framing.SliceEncoder.Encode | src/combinator.rs:1215-1221 | performs `SliceEncode` and writes its bytes to the front of the buffer |
| Framing.SliceEncoder.StartEncoding | src/combinator.rs:1223-1225 | delegates the start to the inner encoder |
| Framing.LengthEosCheckAsWritten | src/combinator.rs:727-730 | the end-of-stream check of `Length::decode` as written (see "## Findings"); `LengthEosAsWrittenLate` shows where it lets an item through late |
| Framing.LengthEosCheck | src/combinator.rs:727-730 | the intended check: the bytes known to follow cover what the item still needs; `LengthChecksAgree` and `LengthEosAtOnce` state when it fires |
| Framing.LengthDecoderOps | src/combinator.rs:720-751 | `Length` as a decoder record: `requiring_bytes` is `Finite` of the bytes still expected; `LengthDecoderLawful` and `LengthKeepsAccount` state its contract |
| Framing.StringDecoderOps | src/combinator.rs:1486-1509 | the `Utf8Decoder` over a `RemainingBytesDecoder` that the tests frame with `Length`; `StringDecoderLawful` states its contract |
| Framing.LengthEncoderOps | src/combinator.rs:752-795 | `Length` as an encoder record: `requiring_bytes` is `Finite` of the bytes still owed and it is idle when none are; `LengthEncoderLawful` states its contract |
| Framing.MaxBytesFits | src/combinator.rs:1009-1032 | what `MaxBytes::decode` lets through: the buffer, plus the known rest of the stream, fit in the allowance left; `MaxBytesKeepsLimit` proves it keeps the count within the limit |
| Framing.MaxBytesDecoderOps | src/combinator.rs:1006-1046 | `MaxBytes` as a decoder record; `MaxBytesDecoderLawful` and `MaxBytesKeepsLimit` state its contract |
| Framing.MaxBytesEncoderOps | src/combinator.rs:1047-1073 | `MaxBytes` as an encoder record; `MaxBytesEncoderLawful` states its contract |
| Framing.IsSuspended | src/combinator.rs:1170-1172 | `is_suspended`: the budget of consumable bytes is spent; `SuspendedSliceConsumesNothing` proves a suspended slice consumes nothing and stays suspended |
| Framing.SliceDecoderOps | src/combinator.rs:1189-1211 | `Slice` as a decoder record; `SliceDecoderLawful` states its contract |
| Framing.SliceEncoderOps | src/combinator.rs:1212-1234 | `Slice` as an encoder record; `SliceEncoderLawful` states its contract |
| Collecting.CollectLoop | src/combinator.rs:627-637 | the loop of `Collect::decode`: the offset stays within the buffer, items are only appended, and it runs to the end of the buffer unless a busy inner decoder returns early |
| Collecting.CollectDecode | src/combinator.rs:622-638 | nothing once the end of the stream was seen; otherwise the loop, and the end is recorded when the loop ran through a final buffer |
| Collecting.CollectFinish | src/combinator.rs:640-645 | Ok exactly after the end of the stream, handing over the items in order and starting over; `IncompleteDecoding` otherwise |
| Collecting.CollectLawful | src/combinator.rs:615-654 | `Collect` keeps the decoder contracts for an inner decoder that makes progress |
| Collecting.NullDecoderBreaksProgress | src/combinator.rs:627-633 | `NullDecoder` breaks `MakesProgress`: at an offset short of the buffer's end a round of `Collect`'s loop takes no byte and leaves the decoder as it was, so the loop never ends |
| Collecting.CollectNew | src/combinator.rs:607-613 | no items, end not seen |
| Collecting.ItemDecoderIsFixnumDecoder | src/fixnum.rs:9-19 | the item decoder the examples use behaves as the integer decoder of the file |
| Collecting.ItemDecoderLawful | src/fixnum.rs:9-19 | that decoder keeps the decoder contracts and makes progress |
| Collecting.ByteValues | src/fixnum.rs:79-81 | bytes read as `u8` items are their values |
| Collecting.U8Step | src/fixnum.rs:79-81 | a fresh `U8Decoder` takes the next byte and finishes it as its value, ready again |
| Collecting.CollectU8Loop | src/combinator.rs:627-637 | `Collect` over `U8Decoder` appends every byte left in the buffer |
| Collecting.CollectU8Decodes | src/combinator.rs:1463-1467 | the test, for every input: `U8Decoder::new().collect()` decodes a whole stream to the list of its bytes |
| Collecting.Collect.constructor | src/decode.rs:252-257 | the state `CollectNew` builds |
| Collecting.Collect.Decode | src/combinator.rs:622-638 | performs `CollectDecode` with a `while` loop in place |
| Collecting.Collect.FinishDecoding | src/combinator.rs:640-645 | performs `CollectFinish` in place |
| Collecting.CollectNLoop | src/combinator.rs:853-863 | the loop of `CollectN::decode`: one item per round while items remain; the count of pending plus collected items is kept |
| Collecting.CollectNDecode | src/combinator.rs:852-865 | the loop, and `UnexpectedEos` when the stream ends short of the count |
| Collecting.CollectNFinish | src/combinator.rs:867-871 | Ok exactly when every expected item is in, handing them over; `IncompleteDecoding` otherwise |
| Collecting.CollectNLawful | src/combinator.rs:845-880 | `CollectN` keeps the decoder contracts |
| Collecting.CollectNNew | src/combinator.rs:837-843 | `n` items of the decoder `d` expected, none collected |
| Collecting.CollectNU8Loop | src/combinator.rs:853-863 | over `U8Decoder`, one byte per expected item as far as the buffer goes |
| Collecting.CollectNU8Decodes | src/combinator.rs:1470-1483 | the test, for every input: `collectn(n)` yields the first `n` bytes, fails with `UnexpectedEos` on fewer at the end, and waits for more otherwise |
| Collecting.CollectN.constructor | src/combinator.rs:837-843 | the state `CollectNNew` builds |
| Collecting.CollectN.SetRemainingItems | src/combinator.rs:818-820 | sets the count only |
| Collecting.CollectN.Decode | src/combinator.rs:852-865 | performs `CollectNDecode` with a `while` loop in place |
| Collecting.CollectN.DecodeOne | src/combinator.rs:854-858 | one round of the loop: it ends the call with what `CollectNLoop` gives on an error or when the inner decoder waits for more, or one item is taken, one less is expected and `CollectNLoop` from the new cursor gives the same |
| Collecting.CollectN.FinishDecoding | src/combinator.rs:867-871 | performs `CollectNFinish` in place |
| Collecting.RepeatLoop | src/combinator.rs:413-431 | the loops of `Repeat::encode`: the inner encoder is restarted with the next item while idle; the output only grows and stays within the buffer |
| Collecting.RepeatEncode | src/combinator.rs:413-431 | never writes past the buffer |
| Collecting.RepeatStart | src/combinator.rs:433-437 | only an idle `Repeat` takes an iterator; otherwise `EncoderFull` and no change |
| Collecting.RepeatLawful | src/combinator.rs:406-446 | `Repeat` keeps the encoder contracts and the default `is_idle` |
| Collecting.BytesOf | src/fixnum.rs:107-110 | the bytes `u8` items are written as, read back as the items |
| Collecting.U8EncodesItem | src/fixnum.rs:107-110 | `U8Encoder` writes an item as its one byte |
| Collecting.RepeatU8Loop | src/combinator.rs:413-431 | over `U8Encoder`, each item is written as one byte, given room for all |
| Collecting.RepeatCollectRoundTrip | src/combinator.rs:1533-1539 | the test, for every list of bytes: `repeat()` writes the items one byte each and is idle, and `collect()` decodes them back |
| Collecting.Repeat.constructor | src/combinator.rs:402-404 | no iterator |
| Collecting.Repeat.Encode | src/combinator.rs:413-431 | performs `RepeatEncode` with a `while` loop, writing into the buffer in place |
| Collecting.Repeat.Step | src/combinator.rs:415-429 | one round of the loop: either it ends the call with what `RepeatLoop` gives, or it wrote more bytes at the cursor and `RepeatLoop` from the new state gives the same |
| Collecting.Repeat.FeedIdle | src/combinator.rs:416-423 | the `while self.inner.is_idle()` loop: it stops as `RepeatLoop` does, or leaves a busy inner encoder from which `RepeatLoop` gives the same |
| Collecting.Repeat.EncodeBusy | src/combinator.rs:425 | one `encode` call of the inner encoder on the rest of the buffer, its bytes landing at the cursor and the rest of the buffer unchanged |
| Collecting.Repeat.StartEncoding | src/combinator.rs:433-437 | performs `RepeatStart` in place |
| Collecting.CollectOps | src/combinator.rs:615-658 | `Collect` as a record: `Finite(0)` and idle once the end of the stream is seen; `CollectLawful` states its contract |
| Collecting.ItemDecoderOps | src/fixnum.rs:7-25 | the decoder of codec `c`, as `Collect` and `CollectN` hold it; `ItemDecoderIsFixnumDecoder` proves it is `FixnumDecoderOps` |
| Collecting.CollectNOps | src/combinator.rs:845-884 | `CollectN` as a record: `Finite(0)` and idle once no item is expected; `CollectNLawful` states its contract |
| Collecting.RepeatOps | src/combinator.rs:406-450 | `Repeat` as a record: `Unknown` while items are left, `Finite(0)` and idle once there are none; `RepeatLawful` states its contract |
| Chains.BufferedDecode | src/chain.rs:686-694 | nothing consumed while an item is held; otherwise the inner decoder decodes and its item goes into the slot; the call itself never yields |
| Chains.BufferedRequiringBytes | src/chain.rs:704-710 | `Finite(0)` while an item is held, else the inner count |
| Chains.BufferedTakeItem | src/chain.rs:651-653 | the held item, if any, and an empty slot over the same inner decoder |
| Chains.BufferedLawful | src/chain.rs:683-711 | `Buffered` consumes within its window |
| Chains.BufferedThenTake | src/chain.rs:651-694 | with an empty slot, decoding and then taking the item is decoding with the inner decoder: the same error, bytes, item and state |
| Chains.BufferedHoldingIsInert | src/chain.rs:686-710 | a held item makes `Buffered` consume nothing, change nothing, require nothing, and not be terminated |
| Chains.TryDecodeBuffered | src/chain.rs:547-564 | `bytecodec_try_decode!` on a buffered decoder: one holding an item is skipped; otherwise it gets `buf[offset..]`, errors are passed on, and the caller proceeds exactly when it now holds an item |
| Chains.Buffered.constructor | src/chain.rs:634-636 | the inner decoder with an empty slot |
| Chains.Buffered.Decode | src/chain.rs:686-694 | performs `BufferedDecode` in place |
| Chains.Buffered.TakeItem | src/chain.rs:651-653 | performs `BufferedTakeItem` in place |
| Chains.ChainDecodeSecond | src/chain.rs:552-563 | `b` decodes the rest of the buffer; a completed item is paired with `a`'s, whose slot is emptied; otherwise `a` is unchanged |
| Chains.ChainDecode | src/chain.rs:547-564 | `b` sees bytes only once `a` holds its item; a yielded pair carries `a`'s item and empties its slot; `b` is untouched while `a` is busy |
| Chains.ChainDecoderRequiringBytes | src/chain.rs:570-574 | with `a` holding its item, the count is `b`'s |
| Chains.ChainDecoderLawful | src/chain.rs:540-575 | `Chain` consumes within its window |
| Chains.ChainDecoder.constructor | src/chain.rs:536-538 | both halves, `a` behind an empty slot |
| Chains.ChainDecoder.Decode | src/chain.rs:547-564 | performs `ChainDecode` in place |
| Chains.ChainEncode | src/chain.rs:583-592 | a busy `a` writes first, and `b` writes only once `a` is idle, into what is left; never past the buffer |
| Chains.ChainStart | src/chain.rs:594-598 | `a` takes the first item, then `b` the second; an error of `a` leaves `b` alone |
| Chains.ChainRequiringBytesAsWritten | src/chain.rs:600-604 | as written the halves are combined with `add_for_decoding`; two finite counts add up |
| Chains.ChainRequiringBytes | src/chain.rs:600-604 | combined with `add_for_encoding`: finite exactly when both halves are finite, and then their sum |
| Chains.ChainEncoderLawful | src/chain.rs:576-615 | the chain keeps the encoder contracts of its halves, including the default `is_idle` |
| Chains.ChainExactAgrees | src/chain.rs:621-623 | when both halves report exact counts both additions give the exact sum |
| Chains.ChainAsWrittenHidesUnknown | src/chain.rs:600-604 | as written, a known count of a busy `a` hides the unknown count of a busy `b` |
| Chains.ChainRequiringBytesAsWrittenUnderCounts | src/chain.rs:600-604 | on a concrete chain the count as written is `Finite(2)` for three bytes, so `encode_into_bytes` fails with `UnexpectedEos`; the corrected count is `Unknown` |
| Chains.ChainEncoder.constructor | src/chain.rs:536-538 | both halves |
| Chains.ChainEncoder.Encode | src/chain.rs:583-592 | performs `ChainEncode` and writes its bytes to the front of the buffer |
| Chains.ChainEncoder.EncodeFirst | src/chain.rs:584-587 | the first half of `encode`: it ends the call with what `ChainEncode` gives on an error or a still busy `a`, or `a` is idle, its bytes are at the front and `ChainEncode` is `b` writing into the rest |
| Chains.ChainEncoder.StartEncoding | src/chain.rs:594-598 | performs `ChainStart` in place |
| Chains.StartDecoderShape | src/chain.rs:39-49 | the chain seed refuses to decode with `Other`, never terminates, and its count is `Unknown` |
| Chains.FirstLinkDecode | src/chain.rs:68-70 | the first link decodes as its decoder, with the item as a 1-tuple |
| Chains.NextLinkDecode | src/chain.rs:87-91 | a further link decodes as the chain of the earlier links and the new decoder, with `((t0, ..), t)` flattened to `(t0, .., t)` |
| Chains.FirstLinkLawful | src/chain.rs:62-79 | the first link consumes within its window |
| Chains.NextLinkLawful | src/chain.rs:80-100 | a further link consumes within its window |
| Chains.StartEncoderLawful | src/chain.rs:256-283 | the encoder seed keeps the encoder contracts, is idle and requires `Finite(0)` |
| Chains.FirstEncLinkLawful | src/chain.rs:301-326 | the first encoder link keeps the encoder contracts |
| Chains.NextEncLinkLawful | src/chain.rs:327-353 | a further encoder link keeps the encoder contracts |
| Chains.NextLinkTakesOneByte | src/chain.rs:87-91 | a chain extended by a one-byte decoder completes `ts + [buf[k]]` from `k + 1` bytes |
| Chains.DecoderChainExample | src/chain.rs:720-730 | the test: one call on `foo` yields the flat triple and consumes all three bytes |
| Chains.U8StartHolds | src/fixnum.rs:107-110 | an idle `U8Encoder` started with `x` holds the one byte `x` |
| Chains.EncoderChainStartExample | src/chain.rs:733-743 | the test: `start_encoding((1, 2, 3))` hands each item to its encoder in order |
| Chains.U8WritesHeld | src/fixnum.rs:32-34 | a `U8Encoder` holding `x` writes `[x]` when there is room and is idle |
| Chains.AppendedU8Writes | src/chain.rs:583-592 | a `U8Encoder` chained after a link that finishes its bytes `w` writes `w + [x]` in the same call |
| Chains.EncoderChainExample | src/chain.rs:733-743 | the test: the started chain writes `[1, 2, 3]` into three bytes and is idle |
| Chains.BufferedHasTerminated | src/chain.rs:696-702 | `has_terminated` of `Buffered`: never while an item is held, else the inner decoder's; `BufferedHoldingIsInert` states it |
| Chains.BufferedOps | src/chain.rs:683-711 | `Buffered` as a record of its three operations; `BufferedLawful` states its contract |
| Chains.Buffered.HasItem | src/chain.rs:641-643 | `has_item`: the slot holds an item; `BufferedHoldingIsInert` proves that while it does, `decode` consumes nothing and the decoder does not terminate |
| Chains.ChainHasTerminated | src/chain.rs:566-568 | `has_terminated` of the chain decoder: either half has; `ChainDecoderLawful` is about the record that uses it |
| Chains.ChainDecoderOps | src/chain.rs:540-575 | the chain decoder as a record; `ChainDecoderLawful` states its contract |
| Chains.ChainIsIdle | src/chain.rs:606-608 | `is_idle` of the chain encoder: both halves are idle; `ChainEncoderLawful` proves it agrees with `requiring_bytes` |
| Chains.ChainEncoderOps | src/chain.rs:576-615 | the chain encoder as a record, with `requiring_bytes` combined for encoding; `ChainEncoderLawful` states its contract |
| Chains.ChainEncoderAsWrittenOps | src/chain.rs:576-615 | the chain encoder with `requiring_bytes` as written (see "## Findings"); `ChainRequiringBytesAsWrittenUnderCounts` shows the discrepancy |
| Chains.ChainExactRequiringBytes | src/chain.rs:621-623 | `exact_requiring_bytes`: the sum of both halves; `ChainExactAgrees` proves it matches `requiring_bytes` |
| Chains.ChainEncoder.RequiringBytes | src/chain.rs:600-604 | the encoder's `requiring_bytes` over its current state |
| Chains.ChainEncoder.IsIdle | src/chain.rs:606-608 | the encoder's `is_idle` over its current state |
| Chains.StartDecoderOps | src/chain.rs:36-50 | `StartDecoderChain`: decoding it is an error (`Other`), it never terminates and needs an unknown count; `StartDecoderShape` states it |
| Chains.FirstLinkOps | src/chain.rs:62-79 | the first link of a decoder chain as a record; `FirstLinkLawful` and `FirstLinkDecode` state its contract |
| Chains.FirstLinkNew | src/chain.rs:57-61 | `StartDecoderChain.chain(d)`: the start link buffered with no item and `d` as the second half |
| Chains.NextLinkOps | src/chain.rs:80-100 | a later link of a decoder chain as a record; `NextLinkLawful` and `NextLinkDecode` state its contract |
| Chains.NextLinkNew | src/chain.rs:57-61 | `.chain(d1)` on an earlier chain: that chain buffered with no item and `d1` as the second half |
| Chains.StartEncoderOps | src/chain.rs:256-283 | `StartEncoderChain`: always idle with `Finite(0)`, and encoding or starting it is an error (`Other`); `StartEncoderLawful` states its contract |
| Chains.FirstEncLinkOps | src/chain.rs:301-326 | the first link of an encoder chain as a record, taking the one component of a 1-tuple; `FirstEncLinkLawful` states its contract |
| Chains.NextEncLinkOps | src/chain.rs:327-353 | a later link of an encoder chain: `(t0, .., t)` is split into `((t0, ..), t)`; `NextEncLinkLawful` states its contract |
| Tuples.SumForDecodingShape | src/tuple.rs:125-130 | the `add_for_decoding` fold of any number of counts: infinite if one is, unknown if one is and the finite ones add up to zero, otherwise the finite total |
| Tuples.SumForEncodingShape | src/tuple.rs:752-754 | the `add_for_encoding` fold from `Finite(0)`: infinite if one is, otherwise unknown if one is, otherwise the finite total |
| Tuples.HeadsFrom | src/tuple.rs:110-112 | the `bytecodec_try_decode!` steps over the buffered components stay within the buffer, leave earlier components alone, and proceed only when every component from `i` on holds its item |
| Tuples.HeadsFromKeepsOrder | src/tuple.rs:110-112 | the steps stop at a component that holds no item, leave components holding an item alone, and feed a component only once every earlier one holds its item |
| Tuples.TupleDecode | src/tuple.rs:109-123 | the tuple decoder never consumes past the buffer; a completed tuple has one item per component, takes the held ones in order and empties every slot; otherwise a component changes only once every earlier one holds its item, and the last one changes only when all do |
| Tuples.TupleDecoderRequiringBytes | src/tuple.rs:125-130 | the `add_for_decoding` fold of the components' counts, buffered ones first |
| Tuples.TupleDecoderLawful | src/tuple.rs:101-131 | the tuple decoder consumes within its window |
| Tuples.TupleDecoderNew | src/tuple.rs:83-89 | every component fresh behind an empty slot |
| Tuples.TupleOfTwoIsChain | src/tuple.rs:46-62 | `Tuple2Decoder::decode` behaves as `Chain::decode` of src/chain.rs: the same new state, error, bytes consumed and pair |
| Tuples.TupleDecoderExample | src/tuple.rs:794-800 | the test: two one-byte decoders on `b"foo"` yield `(b'f', b'o')` after two bytes |
| Tuples.TupleDecoder.constructor | src/tuple.rs:83-89 | the state of `TupleDecoderNew` |
| Tuples.TupleDecoder.Decode | src/tuple.rs:109-123 | performs `TupleDecode` in place |
| Tuples.EncodeFrom | src/tuple.rs:741-745 | the `bytecodec_try_encode!` steps from component `i` on extend what was written and stay within the buffer, leaving earlier components alone |
| Tuples.EncodeFromKeepsOrder | src/tuple.rs:741-745 | the steps leave idle components alone, and write a component only once every earlier one is idle |
| Tuples.TupleEncode | src/tuple.rs:741-745 | the tuple encoder writes at most the buffer, leaves idle components alone and writes a component only once every earlier one is idle |
| Tuples.StartFrom | src/tuple.rs:747-750 | the `start_encoding` calls in order: success exactly when every component accepts its item, each then in its started state; the components before the first one called are untouched |
| Tuples.StartFromStopsAtError | src/tuple.rs:747-750 | on an error, the calls stopped at the first component that refused its item: the earlier components are started, that one is in its failed state and gives the error, and the later ones are untouched |
| Tuples.TupleStart | src/tuple.rs:747-750 | every component started with its item, in order, succeeding exactly when each does; a tuple of another arity is refused |
| Tuples.TupleEncoderRequiringBytes | src/tuple.rs:752-754 | infinite exactly when some component is, unknown exactly when none is infinite and some is unknown, otherwise the total |
| Tuples.TupleEncoderLawful | src/tuple.rs:736-776 | the tuple encoder keeps the encoder contracts, with `is_idle` the conjunction of the components' |
| Tuples.TupleExactAgrees | src/tuple.rs:760-767 | when every component's count is its exact count, the tuple's count is `exact_requiring_bytes`, the sum |
| Tuples.TupleEncoderExample | src/tuple.rs:892-898 | the test: `with_item((0, 1))` on two `U8Encoder`s encodes to `[0, 1]` |
| Tuples.TupleEncoder.constructor | src/tuple.rs:713-715 | the given components |
| Tuples.TupleEncoder.Encode | src/tuple.rs:741-745 | performs `TupleEncode` and writes its bytes to the front of the buffer |
| Tuples.TupleEncoder.EncodeComponent | src/macros.rs:14-23 | one `bytecodec_try_encode!` step on component `i`: it ends the call with what `EncodeFrom` gives on an error or a still busy component, or it wrote more bytes at the cursor and `EncodeFrom` from the next component gives the same |
| Tuples.TupleEncoder.StartEncoding | src/tuple.rs:747-750 | performs `TupleStart` in place |
| Tuples.SumForDecoding | src/tuple.rs:125-130 | the decoders' `requiring_bytes` sum, `add_for_decoding` associated to the left; `SumForDecodingShape` gives its closed form |
| Tuples.SumForEncoding | src/tuple.rs:752-754 | `Finite(0).add_for_encoding(c0)..` as the encoders write it; `SumForEncodingShape` gives its closed form |
| Tuples.TupleDecoderOps | src/tuple.rs:101-131 | the tuple decoders as a record; `TupleDecoderLawful` states its contract (its `has_terminated` is an assumption, see "## Left out") |
| Tuples.TupleDecoder.RequiringBytes | src/tuple.rs:125-130 | the decoder's `requiring_bytes` over its current state |
| Tuples.TupleIsIdle | src/tuple.rs:756-758 | `is_idle`: every component is idle; `TupleEncoderLawful` proves it agrees with `requiring_bytes` |
| Tuples.TupleEncoderOps | src/tuple.rs:733-777 | `TupleEncoder` as a record of its four operations; `TupleEncoderLawful` states its contract |
| Tuples.TupleExactRequiringBytes | src/tuple.rs:764-767 | `exact_requiring_bytes`: the sum of the components' exact counts; `TupleExactAgrees` proves it matches `requiring_bytes` |
| Tuples.TupleEncoder.RequiringBytes | src/tuple.rs:752-754 | the encoder's `requiring_bytes` over its current components |
| Tuples.TupleEncoder.IsIdle | src/tuple.rs:756-758 | the encoder's `is_idle` over its current components |
| Buffers.DecodeWindow | src/buf.rs:234-243 | `as_ref()`/`Deref`: exactly the bytes after the cursor, so `len()` is what is left |
| Buffers.DecodeBufNew | src/buf.rs:31-37 | the whole slice visible, remaining bytes unknown, not at the end of the stream |
| Buffers.DecodeBufWithEos | src/buf.rs:52-58 | `Some(0)` remaining bytes and at the end of the stream when `eos`, unknown and not at the end otherwise |
| Buffers.DecodeBufWithRemainingBytes | src/buf.rs:69-75 | the slice and `Some(n)`; at the end of the stream exactly when `n == 0` |
| Buffers.DecodeConsume | src/buf.rs:157-162 | succeeds exactly when `size` bytes are left, then drops exactly those from the window; otherwise `InvalidInput` |
| Buffers.DecodeConsumeAll | src/buf.rs:165-167 | the window becomes empty, nothing else changes |
| Buffers.DecodeRead | src/buf.rs:246-251 | `read` hands out `min(len(), n)` bytes, and what it read followed by the new window is the old window |
| Buffers.DecodeConsumeComposes | src/buf.rs:157-162 | consuming `a` then `b` is consuming `a + b`, and both succeed exactly when the sum does |
| Buffers.DecodeReadIsConsume | src/buf.rs:246-251 | reading is consuming what was read |
| Buffers.LimitedDecodeBuf | src/buf.rs:191-207 | the sub-buffer shows the first `limit` bytes; a known remaining count grows by the bytes it hides |
| Buffers.DecodeWithLimit | src/buf.rs:191-207 | `f` runs on the sub-buffer and its result is returned; the outer cursor advances by exactly what `f` consumed |
| Buffers.DecodeWithLimitAndRemainingBytes | src/buf.rs:215-232 | as `with_limit`, with `n` bytes said to follow in the sub-buffer |
| Buffers.LimitedDecodeBufKeepsEos | src/buf.rs:191-207 | the sub-buffer places the end of the stream where the outer one does, and is at the end only when the outer one is and the limit is the whole window |
| Buffers.ReadToEnd | src/buf.rs:177-182 | the closure of the example: it reads the whole window |
| Buffers.DecodeWithLimitExample | src/buf.rs:173-185 | the example: `with_limit(3, ..)` on `b"foobar"` reads `"foo"` and leaves `b"bar"` |
| Buffers.DecodeBuf.New | src/buf.rs:31-37 | the state of `DecodeBufNew` |
| Buffers.DecodeBuf.WithEos | src/buf.rs:52-58 | the state of `DecodeBufWithEos` |
| Buffers.DecodeBuf.WithRemainingBytes | src/buf.rs:69-75 | the state of `DecodeBufWithRemainingBytes` |
| Buffers.DecodeBuf.Len | src/buf.rs:241-243 | the length of the window |
| Buffers.DecodeBuf.IsEos | src/buf.rs:127-129 | at the end of the stream exactly when the state says so |
| Buffers.DecodeBuf.Consume | src/buf.rs:157-162 | performs `DecodeConsume`, leaving the buffer unchanged on error |
| Buffers.DecodeBuf.ConsumeAll | src/buf.rs:165-167 | performs `DecodeConsumeAll` |
| Buffers.DecodeBuf.ReadInto | src/buf.rs:246-251 | performs `DecodeRead` into `dst[at..]`, the rest of `dst` untouched |
| Buffers.DecodeBuf.WithLimit | src/buf.rs:191-207 | performs `DecodeWithLimit` |
| Buffers.EncodeBufWithEos | src/buf.rs:276-303 | all of `b` is room, with the given EOS flag |
| Buffers.EncodeConsumeAsWritten | src/buf.rs:356-361 | as written: succeeds exactly when `2 * offset + size` fits the buffer |
| Buffers.EncodeConsume | src/buf.rs:356-361 | as documented: succeeds exactly when `size` bytes of room are left, then exactly those are consumed; otherwise `InvalidInput` |
| Buffers.EncodeConsumeAsWrittenRefusesRoom | src/buf.rs:340-355 | the doc example's buffer: after consuming 1 of 3 bytes the check as written refuses the 2 bytes left, which the documented rule accepts |
| Buffers.EncodeConsumeRulesAgreeAtStart | src/buf.rs:356-361 | at offset 0 both rules agree |
| Buffers.EncodeConsumeAll | src/buf.rs:364-366 | no room left, nothing else changes |
| Buffers.EncodeWrite | src/buf.rs:461-466 | `write` copies `min(len(), src.len())` bytes to the start of the room and moves the cursor past them; no other byte changes |
| Buffers.EncodeWriteReadsBack | src/buf.rs:461-466 | what `write` put in the room reads back at the old cursor, and the bytes around it are untouched |
| Buffers.LimitedEncodeBuf | src/buf.rs:426-437 | the sub-buffer is the first `limit` bytes of room, with the given EOS flag |
| Buffers.MergeLimited | src/buf.rs:426-437 | the end of the borrow: the sub-buffer's bytes go back in place and the outer cursor moves by what it consumed |
| Buffers.EncodeWithLimit | src/buf.rs:387-402 | with `limit` equal to the room `f` runs on the buffer itself; otherwise on a sub-buffer never at EOS, merged back |
| Buffers.EncodeWithLimitAndEos | src/buf.rs:426-437 | `f` always runs on a sub-buffer with the given EOS flag, merged back |
| Buffers.EncodeWithLimitIsLocal | src/buf.rs:426-437 | the outer buffer keeps its EOS flag and its bytes outside the limited room, and its room shrinks by what `f` consumed |
| Buffers.EncodeWithLimitExample | src/buf.rs:373-381 | the example: writing `b"foobar"` through a limit of 3 of a 10-byte buffer writes 3 bytes and leaves 7 |
| Buffers.EncodeBuf.New | src/buf.rs:276-282 | the state of `EncodeBufWithEos(b, false)` |
| Buffers.EncodeBuf.WithEos | src/buf.rs:297-303 | the state of `EncodeBufWithEos(b, eos)` |
| Buffers.EncodeBuf.Len | src/buf.rs:451-453 | the room left |
| Buffers.EncodeBuf.Consume | src/buf.rs:356-361 | performs `EncodeConsume`, leaving the buffer unchanged on error |
| Buffers.EncodeBuf.ConsumeAll | src/buf.rs:364-366 | performs `EncodeConsumeAll` |
| Buffers.EncodeBuf.Write | src/buf.rs:461-466 | performs `EncodeWrite` on the array |
| Buffers.EncodeBuf.WithLimitAndEos | src/buf.rs:426-437 | performs `EncodeWithLimitAndEos` |
| Buffers.DecodeIsEos | src/buf.rs:127-129 | `is_eos`: no byte of the stream follows the slice; `DecodeBufWithEos` and `DecodeBufWithRemainingBytes` state when it holds |
| Buffers.EncodeRoom | src/buf.rs:440-453 | `len()` of an `EncodeBuf`: the room left after the cursor; `EncodeConsume`, `EncodeWrite` and `EncodeWithLimitIsLocal` state how it changes |
| Buffers.EncodeIsCompleted | src/combinators.rs:275 | the `is_completed` the `Chain` encoder asks of the buffer, taken as "room is left" (see "## Left out"); `ChainEncodeStep` and `ChainEncodeWritesInOrder` rest on it |
| Buffers.EncodeBuf.IsEos | src/buf.rs:325-327 | `is_eos` of an `EncodeBuf`: the flag it was made with, which the contracts of `EncodeBuf.New` (`false`) and `EncodeBuf.WithEos` (`e`) fix |
| BufCodec.ItemOf | src/combinators.rs:30-32 | what `decode(&mut DecodeBuf)` returns: the completed item, if any, or the same error |
| BufCodec.DecodeOn | src/combinators.rs:362-369 | a decoder run on a `DecodeBuf` sees its window and end of the stream, and the cursor moves past exactly what it consumed |
| BufCodec.EncodeOn | src/combinators.rs:268-280 | an encoder run on an `EncodeBuf` writes at the cursor, which moves past exactly what it wrote |
| BufCodec.DecodesWithinWindow | src/combinators.rs:308-328 | a decoder of the buffer generation consumes only what the window holds; `BufferedLawful`, `BytesDecoderLawful` and `VecDecoderLawful` prove it |
| BufCodec.EncodesWithinRoom | src/combinators.rs:268-280 | an encoder of the buffer generation writes only what the room admits; `BytesEncoderLawful` and `StartChainIsEmpty` prove it |
| BufCombinators.MapOption | src/combinators.rs:30-32 | `Option::map`: present exactly when the argument is, with `f` applied |
| BufCombinators.MapDecode | src/combinators.rs:30-32 | `Map::decode`: the inner call, with its item passed through `f`; the same state, error and bytes consumed |
| BufCombinators.MapIdentity | src/combinators.rs:23-37 | mapping with the identity changes nothing |
| BufCombinators.MapComposes | src/combinators.rs:23-37 | mapping with `f` then `g` is mapping with their composition |
| BufCombinators.MapErrMapsOnlyErrors | src/combinators.rs:52-85 | `MapErr` leaves every successful `decode`, `encode` and `start_encoding` and every state alone, and maps exactly the errors |
| BufCombinators.AndThenLoop | src/combinators.rs:113-129 | the loop of `AndThen::decode` consumes within the window, uses all of it unless it yields, and a yield drops the second decoder |
| BufCombinators.AndThenCursor | src/combinators.rs:113-129 | where the loop leaves the cursor: within the window, past what it consumed when it returns, and past the rounds before a failing `decode(buf)?` |
| BufCombinators.AndThenSizeHint | src/combinators.rs:131-138 | the second decoder's hint once it exists, else the first's |
| BufCombinators.AndThenSwitches | src/combinators.rs:113-129 | once the first decoder yields, the rest of the window goes to the decoder made of its item |
| BufCombinators.AndThenYieldResets | src/combinators.rs:113-129 | a yield of the second decoder is `AndThen`'s yield, and the second decoder is dropped |
| BufCombinators.AndThen.constructor | src/combinators.rs:94-103 | the decoder with no second decoder yet |
| BufCombinators.AndThen.Decode | src/combinators.rs:113-129 | performs `AndThenDecode` on the buffer's window; the cursor moves past what was consumed, and on an error past what the rounds before the failing call consumed (`AndThenCursor`) |
| BufCombinators.AndThen.DecodeSizeHint | src/combinators.rs:131-138 | `AndThenSizeHint` of the state |
| BufCombinators.BufferedDecode | src/combinators.rs:362-369 | with a full slot nothing is consumed; with an empty one the decoder decodes and its item goes into the slot; the call never yields |
| BufCombinators.BufferedSizeHint | src/combinators.rs:371-377 | 0 while an item is held, else the decoder's hint |
| BufCombinators.BufferedTake | src/combinators.rs:355-357 | the held item, and an empty slot |
| BufCombinators.BufferedLawful | src/combinators.rs:359-378 | `Buffered` consumes within the window |
| BufCombinators.BufferedThenTake | src/combinators.rs:355-369 | with an empty slot, decoding through `Buffered` and taking the item is decoding with the decoder itself |
| BufCombinators.BufferedHoldingBreaksProgress | src/combinators.rs:113-125 | a `Buffered` holding an item consumes and yields nothing on a non-empty window, so it breaks `DecoderMakesProgress`, on which `AndThen`'s `while !buf.is_empty()` loop ends |
| BufCombinators.ChainDecoderNew | src/combinators.rs:257-259 | both slots empty, stage 0 first |
| BufCombinators.ChainDecodeLoop | src/combinators.rs:308-328 | the loop only advances the stage, leaves finished stages alone, stays within the window and stops early only with both stages done |
| BufCombinators.ChainDecodeCursor | src/combinators.rs:308-317 | where the loop leaves the cursor: within the window, past what it consumed when it ends, and past the rounds before a failing `decode(buf)?` |
| BufCombinators.ChainDecodeFinish | src/combinators.rs:318-327 | after the loop: with both stages done the chain yields both buffered items and starts over, or fails with `Other` on an empty slot; otherwise nothing is yielded |
| BufCombinators.ChainDecodeWith | src/combinators.rs:308-328 | the corrected `Chain::decode` consumes within the window and all of it unless it yields |
| BufCombinators.ChainDecodeSizeHint | src/combinators.rs:330-339 | the hints of the stages not yet done, added up |
| BufCombinators.OneByteTakes | src/bytes_codec.rs:65-79 | a fresh one-byte `BytesDecoder` completes with the first byte of a non-empty window |
| BufCombinators.ChainDecodeAsWrittenNeverYields | src/combinators.rs:308-328 | as written a chain of two one-byte stages given `[1, 2]` consumes both bytes without yielding, and yields nothing on the next call; the corrected one yields `([1], [2])` |
| BufCombinators.ChainDecodeYieldsPair | src/combinators.rs:308-328 | for all decoders and windows: if stage `a` completes `x` after `k` bytes with bytes left over and stage `b` completes `y` after `m` of them, the corrected chain consumes `k + m`, yields `(x, y)` and starts over with both slots empty |
| BufCombinators.ChainDecoder.constructor | src/combinators.rs:257-259 | the state of `ChainDecoderNew` |
| BufCombinators.ChainDecoder.Decode | src/combinators.rs:308-328 | performs the corrected `ChainDecode` on the buffer; the cursor moves past what was consumed, and on an error past what the rounds before the failing call consumed (`ChainDecodeCursor`) |
| BufCombinators.ChainDecoder.DecodeRound | src/combinators.rs:309-317 | one round of the loop: a failure ends the call as `ChainDecodeLoop` says with the cursor where the round began, otherwise the loop goes on from a later byte or stage with the same outcome and cursor |
| BufCombinators.ChainDecoder.DecodeSizeHint | src/combinators.rs:330-339 | `ChainDecodeSizeHint` of the state |
| BufCombinators.ChainEncodeLoop | src/combinators.rs:268-280 | the loop only advances the stage, leaves finished stages alone, writes only after the cursor and stops with room left only when both stages are done |
| BufCombinators.ChainEncStart | src/combinators.rs:282-288 | `Full` unless both stages are done; otherwise both stages started in order from stage 0, success exactly when both accept, the first error leaving `b` alone |
| BufCombinators.ChainEncodeSizeHint | src/combinators.rs:290-299 | the hints of the stages not yet done, added up |
| BufCombinators.ChainNewAsWritten | src/combinators.rs:257-259 | as written a new chain starts at stage 0 |
| BufCombinators.ChainNewAsWrittenRefusesFirstItem | src/combinators.rs:282-284 | such a chain refuses its first item with `Full`, whatever the item |
| BufCombinators.ChainEncoderNew | src/combinators.rs:257-259 | corrected: both stages counted as done |
| BufCombinators.ChainEncoderNewAccepts | src/combinators.rs:282-288 | the corrected chain accepts an item exactly when both stages accept their parts, starting at stage 0, and writes nothing before |
| BufCombinators.ChainEncodeWritesInOrder | src/combinators.rs:268-280 | when `a` leaves room, one call writes `a`'s bytes followed by `b`'s |
| BufCombinators.ChainEncodeStep | src/combinators.rs:268-280 | one step of the loop: the current stage writes, an error ends the call, and the chain moves on when the buffer reports it completed |
| BufCombinators.ChainEncoder.constructor | src/combinators.rs:257-259 | the state of the corrected `ChainEncoderNew` |
| BufCombinators.ChainEncoder.Encode | src/combinators.rs:268-280 | performs `ChainEncodeLoop` on the buffer |
| BufCombinators.ChainEncoder.EncodeStage | src/combinators.rs:270-277 | one round of the loop: the current stage encodes into the buffer; on an error or with no room left the loop ends as `ChainEncodeLoop` does, otherwise the index moves on and `ChainEncodeLoop` from the new buffer gives the same |
| BufCombinators.ChainEncoder.StartEncoding | src/combinators.rs:282-288 | performs `ChainEncStart` |
| BufCombinators.ChainEncoder.EncodeSizeHint | src/combinators.rs:290-299 | `ChainEncodeSizeHint` of the state |
| BufCombinators.StartChainIsEmpty | src/combinators.rs:641-652 | `StartChain` writes nothing and accepts `()` |
| BufCombinators.Chain2Start | src/combinators.rs:203-205 | `Chain2` starts its chain with the items before the last for `a` and the last one for `b` |
| BufCombinators.Chain2SplitKeepsOrder | src/combinators.rs:184-224 | that split puts the items back together in order |
| BufCombinators.Chain2FirstStart | src/combinators.rs:165-167 | the first link starts the chain with `((), x)` |
| BufCombinators.MapFromStartsMapped | src/combinators.rs:402-412 | `MapFrom` starts its encoder with `f(item)` and otherwise encodes as it does |
| BufCombinators.IntoFlatRoundTrips | src/combinators.rs:610-638 | `into_flat3` and `into_flat8` lose and reorder nothing: nesting back gives the original, and flattening a nested flat tuple gives it back |
| BufCombinators.FlattenedChainYieldsInOrder | src/combinators.rs:434-437 | a flattened three-stage chain yields `(a, b, c)` where the chain yields `((a, b), c)`, with the same state and bytes consumed |
| BufCombinators.MapOps | src/combinators.rs:23-37 | `Map` as a record whose size hint is the inner one; `MapIdentity` and `MapComposes` state its laws |
| BufCombinators.MapErrDecoderOps | src/combinators.rs:52-66 | `MapErr` on a decoder as a record; `MapErrMapsOnlyErrors` proves only errors change |
| BufCombinators.MapErrEncoderOps | src/combinators.rs:67-85 | `MapErr` on an encoder as a record; `MapErrMapsOnlyErrors` proves only errors change |
| BufCombinators.AndThenDecode | src/combinators.rs:113-129 | `AndThen::decode` as the loop `AndThenLoop`; `AndThenSwitches` and `AndThenYieldResets` state how it moves to the second decoder and back |
| BufCombinators.BufferedOps | src/combinators.rs:359-378 | `Buffered` as a record; `BufferedLawful` states its contract |
| BufCombinators.ChainDecodeAsWritten | src/combinators.rs:308-328 | `Chain::decode` as written (see "## Findings"); `ChainDecodeAsWrittenNeverYields` shows a pair it never yields |
| BufCombinators.ChainDecode | src/combinators.rs:308-328 | `Chain::decode` moving on as soon as a stage holds its item; `ChainDecodeWith` bounds what it consumes and `ChainDecodeYieldsPair` proves it yields the pair of its stages' items |
| BufCombinators.StartChainOps | src/combinators.rs:642-652 | `StartChain`: it writes nothing and accepts the unit item; `StartChainIsEmpty` states it |
| BufCombinators.MapFromOps | src/combinators.rs:395-413 | `MapFrom` as a record: the item goes through `f` before the encoder starts; `MapFromStartsMapped` states it |
| BufCombinators.IntoFlat3 | src/combinators.rs:610-612 | `into_flat3`: `((a, b), c)` to `(a, b, c)`; `IntoFlatRoundTrips` proves it a bijection |
| BufCombinators.IntoFlat4 | src/combinators.rs:614-616 | `into_flat4`: `(((a, b), c), d)` to `(a, b, c, d)` |
| BufCombinators.IntoFlat5 | src/combinators.rs:618-620 | `into_flat5`: the five-component flattening |
| BufCombinators.IntoFlat6 | src/combinators.rs:622-626 | `into_flat6`: the six-component flattening |
| BufCombinators.IntoFlat7 | src/combinators.rs:628-632 | `into_flat7`: the seven-component flattening |
| BufCombinators.IntoFlat8 | src/combinators.rs:634-638 | `into_flat8`: the eight-component flattening; `IntoFlatRoundTrips` proves it a bijection |
| BufCombinators.Flatten3Ops | src/combinators.rs:428-442 | `Flatten<T, (A, B, C)>`: `Map` with `IntoFlat3`; `FlattenedChainYieldsInOrder` states what it yields |
| BufBytes.BytesEncoderNew | src/bytes_codec.rs:13-23 | a new encoder has nothing left to write |
| BufBytes.BytesEncode | src/bytes_codec.rs:28-34 | never fails; writes as much of the unwritten rest as the room admits, and what it wrote followed by what is left is the old rest |
| BufBytes.BytesRemaining | src/bytes_codec.rs:43-49 | `Some` of the length of the unwritten rest |
| BufBytes.BytesStart | src/bytes_codec.rs:36-41 | succeeds exactly when nothing is left to write, and then the whole item is left to write; otherwise `Full` and no change |
| BufBytes.BytesEncoderLawful | src/bytes_codec.rs:25-50 | the encoder writes within the room |
| BufBytes.BytesEncodeSplits | src/bytes_codec.rs:28-34 | two calls with rooms `n1` and `n2` write what one call with `n1 + n2` writes, ending in the same state |
| BufBytes.BytesEncoderWritesItem | src/bytes_codec.rs:28-41 | after the last item is out, a new one is accepted and, given room, written exactly, leaving `Some(0)` |
| BufBytes.BytesEncoder.constructor | src/bytes_codec.rs:13-15 | the state of `BytesEncoderNew` |
| BufBytes.BytesEncoder.Encode | src/bytes_codec.rs:28-34 | performs `BytesEncode` and writes its bytes at the buffer's cursor |
| BufBytes.BytesEncoder.StartEncoding | src/bytes_codec.rs:36-41 | performs `BytesStart` |
| BufBytes.BytesEncoder.RemainingBytes | src/bytes_codec.rs:43-49 | `BytesRemaining` of the state |
| BufBytes.BytesDecoderNew | src/bytes_codec.rs:58-60 | an `N`-byte array with offset 0 |
| BufBytes.BytesFill | src/bytes_codec.rs:66-67 | `read` copies `min(window, room)` bytes into the array at the offset, which moves past them; no other byte changes |
| BufBytes.BytesDecodeAsWritten | src/bytes_codec.rs:65-79 | as written: a full array is yielded and replaced, but the offset stays at `N`; an array not full at the end of the stream is `InvalidInput` |
| BufBytes.BytesDecode | src/bytes_codec.rs:65-79 | corrected: copies `min(window, room)` bytes; yields exactly when the array becomes full, the bytes collected so far, and starts over; fails with `InvalidInput` exactly when not full at the end of the stream |
| BufBytes.BytesDecodeAsWrittenRepeatsDefault | src/bytes_codec.rs:72-75 | as written, after one array every later call yields `N` zero bytes without consuming anything |
| BufBytes.BytesDecodeAsWrittenExample | src/bytes_codec.rs:65-79 | `[u8; 2]` on `[1, 2, 3, 4]` and then `[3, 4]`: as written the second call yields `[0, 0]`, corrected it yields `[3, 4]` |
| BufBytes.BytesDecoderLawful | src/bytes_codec.rs:62-80 | the decoder consumes within the window |
| BufBytes.BytesDecodeAcrossWindows | src/bytes_codec.rs:65-79 | a window too short and then a second one yield the first `N` bytes of the two together, taking from the second only what was missing |
| BufBytes.BytesRoundTrip | src/bytes_codec.rs:28-79 | what `BytesEncoder` writes of an item, an `N`-byte decoder with `N` its length decodes back to the item |
| BufBytes.BytesDecoder.constructor | src/bytes_codec.rs:58-60 | the state of `BytesDecoderNew(n)` |
| BufBytes.BytesDecoder.Decode | src/bytes_codec.rs:65-79 | performs the corrected `BytesDecode` on the array and moves the buffer's cursor past what was read |
| BufBytes.VecDecode | src/bytes_codec.rs:94-105 | consumes the whole window; yields exactly at the end of the stream, everything collected, and starts empty; otherwise collects the window |
| BufBytes.VecDecoderLawful | src/bytes_codec.rs:91-106 | the decoder consumes within the window |
| BufBytes.VecDecodeAllIsConcat | src/bytes_codec.rs:94-105 | a series of windows not at the end of the stream collects their concatenation |
| BufBytes.VecDecoderYieldsStream | src/bytes_codec.rs:94-105 | however the stream is cut into windows, the decoder yields all its bytes in order at the end, and is empty after |
| BufBytes.VecDecoder.constructor | src/bytes_codec.rs:87-89 | nothing collected |
| BufBytes.VecDecoder.Decode | src/bytes_codec.rs:94-105 | performs `VecDecode` and consumes the whole window |
| BufBytes.Utf8Decode | src/bytes_codec.rs:147-154 | the inner decoder's bytes are the item when they are well-formed UTF-8, `InvalidInput` otherwise; errors and partial calls passed on |
| BufBytes.Utf8RoundTrip | src/bytes_codec.rs:118-154 | what `Utf8Encoder` writes of a string, `Utf8Decoder` over `VecDecoder` decodes back to it at the end of the stream |
| BufBytes.Utf8DecoderRefusesInvalid | src/bytes_codec.rs:147-154 | a lone continuation byte is refused with `InvalidInput` |
| BufBytes.BytesEncoderOps | src/bytes_codec.rs:25-50 | the buffer-generation `BytesEncoder` as a record (its size hint is an assumption, see "## Left out"); `BytesEncoderLawful` states its contract |
| BufBytes.BytesDecoderOps | src/bytes_codec.rs:62-80 | the buffer-generation `BytesDecoder` as a record (its size hint is an assumption, see "## Left out"); `BytesDecoderLawful` states its contract |
| BufBytes.VecDecoderOps | src/bytes_codec.rs:91-106 | `VecDecoder` as a record (its size hint is an assumption, see "## Left out"); `VecDecoderLawful` states its contract |
| BufBytes.VecDecodeAll | src/bytes_codec.rs:94-105 | the state after windows before the end of the stream are decoded one by one; `VecDecodeAllIsConcat` proves it is all of them, in order |
| BufBytes.Utf8EncoderOps | src/bytes_codec.rs:115-129 | `Utf8Encoder` as a `BytesEncoder` of the string's bytes; `Utf8RoundTrip` states its contract |
| BufBytes.Utf8DecoderOps | src/bytes_codec.rs:141-155 | `Utf8Decoder` as a record over its inner decoder; `Utf8RoundTrip` and `Utf8DecoderRefusesInvalid` state its contract |
| Sequences.BytesNew | src/sequences.rs:11-16 | the array, cursor at 0 |
| Sequences.BytesDefault | src/sequences.rs:19-24 | `B::default()` for `[u8; n]`: `n` zero bytes, cursor at 0 |
| Sequences.RemainingSize | src/sequences.rs:27-31 | the bytes past the cursor, 0 without an array |
| Sequences.BytesDecode | src/sequences.rs:36-48 | copies `min(buf, remaining)` bytes to the cursor, no other byte changing, and moves the cursor past them; fails with `InvalidInput` exactly when the stream ends before the array is full |
| Sequences.BytesPop | src/sequences.rs:50-59 | never fails; hands out the array exactly when it is full, leaving no array; otherwise no change |
| Sequences.BytesEncode | src/sequences.rs:68-77 | writes `min(room, remaining)` bytes: exactly the bytes past the cursor, which moves past them |
| Sequences.BytesPush | src/sequences.rs:79-87 | accepted, cursor at 0, exactly when nothing is left to write; otherwise handed back with no change |
| Sequences.BytesSizeHint | src/sequences.rs:61-63 | both hints are `Some(remaining_size())` |
| Sequences.BytesOpsLawful | src/traits.rs:3-27 | `Bytes` consumes at most its input and writes at most its buffer |
| Sequences.BytesHintTracksProgress | src/sequences.rs:36-91 | each `decode` or `encode` lowers the size hint by exactly the bytes it consumed or wrote |
| Sequences.BytesDecodeSplits | src/sequences.rs:36-48 | away from the end of the stream two calls on `w1` and `w2` leave the state one call on `w1 + w2` leaves, having consumed as much |
| Sequences.BytesRoundTrip | src/sequences.rs:36-87 | an idle encoder accepts an item and writes exactly its bytes; a default decoder of that size given them at the end of the stream consumes them and pops the item |
| Sequences.BytesPopThenIdle | src/sequences.rs:36-59 | once popped, the decoder consumes nothing and has nothing left |
| Sequences.BytesCodec.New | src/sequences.rs:11-16 | the state of `BytesNew` over a fresh array |
| Sequences.BytesCodec.Default | src/sequences.rs:19-24 | the state of `BytesDefault` over a fresh array |
| Sequences.BytesCodec.Decode | src/sequences.rs:36-48 | performs `BytesDecode` on the array in place |
| Sequences.BytesCodec.PopItem | src/sequences.rs:50-59 | performs `BytesPop` |
| Sequences.BytesCodec.Encode | src/sequences.rs:68-77 | performs `BytesEncode` and writes its bytes to the front of `buf` |
| Sequences.BytesCodec.PushItem | src/sequences.rs:79-87 | performs `BytesPush`, an accepted item in a new array |
| Sequences.BytesCodec.SizeHint | src/sequences.rs:61-63 | `BytesSizeHint` of the state |
| Sequences.ConsumesAtMost | src/traits.rs:6 | `decode` of the newest generation consumes at most the buffer; `BytesOpsLawful` and `SlotOpsLawful` prove it |
| Sequences.WritesAtMost | src/traits.rs:22 | `encode` of the newest generation writes at most the buffer; `BytesOpsLawful` and `SlotOpsLawful` prove it |
| Sequences.BytesDecoderOps | src/sequences.rs:33-64 | the `Bytes` decoder as a record; `BytesOpsLawful` and `BytesDecodeSplits` state its contract |
| Sequences.BytesEncoderOps | src/sequences.rs:65-92 | the `Bytes` encoder as a record; `BytesOpsLawful` and `BytesRoundTrip` state its contract |
| Numbers.ByteToI8 | src/numbers.rs:118-126 | `b as i8`: the octet read as two's complement |
| Numbers.I8ToByte | src/numbers.rs:139-147 | `v as u8`: the two's-complement octet of `v` |
| Numbers.I8ConversionsInverse | src/numbers.rs:118-147 | the two casts are inverse; `-1` is the octet 255 |
| Numbers.SlotDecode | src/numbers.rs:59-67 | an empty slot takes the first octet and refuses an empty buffer with `InvalidInput`; a full slot consumes nothing |
| Numbers.SlotPop | src/numbers.rs:69-71 | the slot's value, leaving it empty |
| Numbers.SlotDecodeSizeHint | src/numbers.rs:73-75 | `Some(0)` with a value, `Some(1)` without |
| Numbers.SlotEncode | src/numbers.rs:80-88 | the slot ends empty; nothing is written without a value; with one, the octet is written, or `InvalidInput` for an empty buffer |
| Numbers.SlotPush | src/numbers.rs:90-97 | accepted into an empty slot, handed back otherwise |
| Numbers.SlotEncodeSizeHint | src/numbers.rs:99-101 | `Some(1)` with a value, `Some(0)` without |
| Numbers.SlotOpsLawful | src/numbers.rs:56-102 | the slot codecs consume at most their input and write at most their buffer |
| Numbers.SlotRoundTrip | src/numbers.rs:59-101 | an empty encoder accepts `v` and writes its octet; an empty decoder given it consumes it and pops `v`; both end empty |
| Numbers.U8AndI8RoundTrip | src/numbers.rs:46-162 | `U8` and `I8` give back what they encode; `I8` writes `-1` as 255 |
| Numbers.SlotEncodeLosesValueOnEmptyBuffer | src/numbers.rs:80-88 | a value whose `encode` fails for want of room is lost: the next call writes nothing |
| Numbers.ByteSlot.New | src/numbers.rs:48-50 | a slot holding `v` |
| Numbers.ByteSlot.Empty | src/numbers.rs:52-54 | an empty slot |
| Numbers.ByteSlot.Decode | src/numbers.rs:59-67 | performs `SlotDecode` |
| Numbers.ByteSlot.PopItem | src/numbers.rs:69-71 | performs `SlotPop` |
| Numbers.ByteSlot.Encode | src/numbers.rs:80-88 | performs `SlotEncode`, writing its octet to the front of `buf` |
| Numbers.ByteSlot.PushItem | src/numbers.rs:90-97 | performs `SlotPush` |
| Numbers.ByteSlot.DecodeSizeHint | src/numbers.rs:73-75 | `SlotDecodeSizeHint` of the slot |
| Numbers.ByteSlot.EncodeSizeHint | src/numbers.rs:99-101 | `SlotEncodeSizeHint` of the slot |
| Numbers.NumberNew | src/numbers.rs:166-170 | the array of `new(n)`, cursor at 0, whose bytes decode back to `n` |
| Numbers.NumberNewChecked | src/numbers.rs:222-227 | `InvalidInput` exactly when `n` does not fit in the width; otherwise the array, which decodes back to `n` |
| Numbers.NewTruncate | src/numbers.rs:229-233 | corrected: the array of `n` with the bits above the width cleared, in the codec's byte order |
| Numbers.ToBytesRoundTrip | src/numbers.rs:6-43 | the codec's read function undoes its write function on the width's range |
| Numbers.NewTruncateAsWritten | src/numbers.rs:247-251 | as written `U24le::new_truncate` writes big-endian; every other codec writes in its own order |
| Numbers.NewTruncateAgreesWithNew | src/numbers.rs:222-233 | for a number that fits, `new_truncate` and `new` agree |
| Numbers.U24leNewTruncateAsWrittenMisorders | src/numbers.rs:247-251 | as written `U24le::new_truncate(1)` holds `[0, 0, 1]`, read back as `0x1_0000`; corrected it holds `[1, 0, 0]` |
| Numbers.NumberPop | src/numbers.rs:15-18 | the popped array read with the codec's read function |
| Numbers.NumberPush | src/numbers.rs:32-36 | the item's encoding pushed into the `Bytes`; a refused push hands back the item |
| Numbers.NumberDecoderLawful | src/numbers.rs:8-23 | the decoder consumes at most its input |
| Numbers.NumberRoundTrip | src/numbers.rs:6-43 | an idle encoder accepts `n` and writes its `width` bytes; a default decoder given them at the end of the stream pops `n` |
| Numbers.NumberCodec.Default | src/numbers.rs:163-164 | a `Bytes` of `width` zero bytes |
| Numbers.NumberCodec.New | src/numbers.rs:166-170 | the state of `NumberNew` |
| Numbers.NumberCodec.Truncated | src/numbers.rs:229-233 | the state of the corrected `NewTruncate` |
| Numbers.NumberCodec.Decode | src/numbers.rs:11-13 | `BytesDecode` on the inner `Bytes` |
| Numbers.NumberCodec.PopItem | src/numbers.rs:15-18 | performs `NumberPop` |
| Numbers.NumberCodec.Encode | src/numbers.rs:28-30 | `BytesEncode` on the inner `Bytes`, its bytes at the front of `buf` |
| Numbers.NumberCodec.PushItem | src/numbers.rs:32-36 | performs `NumberPush` |
| Numbers.NumberCodec.SizeHint | src/numbers.rs:20-22 | `BytesSizeHint` of the state |
| Numbers.SlotDecoderOps | src/numbers.rs:56-76 | the `U8` and `I8` decoders as a record; `SlotOpsLawful` and `SlotRoundTrip` state its contract |
| Numbers.SlotEncoderOps | src/numbers.rs:77-102 | the `U8` and `I8` encoders as a record; `SlotOpsLawful` and `SlotRoundTrip` state its contract |
| Numbers.NumberDecoderOps | src/numbers.rs:6-23 | the decoder of `impl_codec!`: the `Bytes` decoder with the conversion at `pop_item`; `NumberDecoderLawful` states its contract |
| Items.I24Bytes | src/items.rs:238 | `write_i24` writes three bytes |
| Items.I24Value | src/items.rs:242 | `read_i24` gives a signed 24-bit value |
| Items.AsU32 | src/items.rs:236 | `n as u32`: `n` for non-negative, `n + 2^32` for negative |
| Items.I24NewAsWritten | src/items.rs:235-240 | as written: `InvalidInput` exactly when `n` is negative or above `0xFF_FFFF` |
| Items.I24RoundTrip | src/items.rs:242 | `read_i24` undoes `write_i24` on the signed range and `write_i24` undoes `read_i24` on every three bytes |
| Items.I24New | src/items.rs:235-240 | corrected: `InvalidInput` exactly outside the signed 24-bit range; otherwise the bytes read back as `n` |
| Items.I24NewAsWrittenMisjudges | src/items.rs:247-252 | as written `new(-1)` is refused and `new(0x80_0000)` accepted though its bytes read back as `-0x80_0000`; the corrected check does the opposite |
| Items.I24Pop | src/items.rs:16-19 | the popped array read with `read_i24` |
| Items.I24Push | src/items.rs:33-37 | the `write_i24` bytes pushed; a refused push hands back the item |
| Items.I24PushPopRoundTrip | src/items.rs:7-45 | an idle `I24*` encoder accepts a signed 24-bit `n` and writes 3 bytes; a default decoder given them pops `n` |
| Items.U8SlotOccupancy | src/items.rs:60-102 | an empty `U8` refuses an empty buffer, a full one consumes nothing and hands back a pushed item, popping empties it, and the hints add up to 1 |
| Items.I8SlotReinterprets | src/items.rs:119-148 | `I8` reads an octet as two's complement and writes its two's-complement octet, and gives back what it writes |
| Items.U24NewChecksRange | src/items.rs:211-228 | `U24*::new` refuses exactly the numbers above `0xFF_FFFF`, and the little-endian bytes are the big-endian ones reversed |
| Items.I24Codec.Default | src/items.rs:232-233 | a `Bytes` of three zero bytes |
| Items.I24Codec.New | src/items.rs:235-240 | the state of the corrected `I24New` |
| Items.I24Codec.Decode | src/items.rs:12-14 | `BytesDecode` on the inner `Bytes` |
| Items.I24Codec.PopItem | src/items.rs:16-19 | performs `I24Pop` |
| Items.I24Codec.Encode | src/items.rs:29-31 | `BytesEncode` on the inner `Bytes`, its bytes at the front of `buf` |
| Items.I24Codec.PushItem | src/items.rs:33-37 | performs `I24Push` |
| Items.I24Codec.SizeHint | src/items.rs:21-23 | `BytesSizeHint` of the state |

## Left out

- src/io.rs and src/io_async.rs: reading from and writing to `std::io` and tokio streams is I/O, outside a model of the state machines.
- src/json_codec.rs and src/bincode_codec.rs: thin wrappers over serde serializers, whose code is not part of this model.
- src/monolithic.rs: its byte counts come from a whole-object serializer, and its writer chain writes to `io::Write`.
- src/maker.rs: factory traits with no behaviour.
- `F32*`/`F64*` codecs (src/fixnum.rs:1336-1558, src/numbers.rs:529-583): floating point is not modelled.
- src/error.rs: only the error kind is kept; `trackable` location and history chains, messages and the `io::Error` conversion are left out.
- `inner_ref`/`inner_mut`/`into_inner` accessors of the combinators: they only hand out the wrapped codec.
- `bytecodec_try_decode!` is not among the files of this model. `TryDecode` (generation A) and `TryDecodeBuffered` (generation B) follow the documented behaviour: skip a part that is done, otherwise decode and return early while it is not done.
- `u64`/`usize` overflow in `ByteCount` sums, counters and size hints: counts are unbounded.
- Aliasing between a codec's own buffer and the caller's buffer: Rust's borrowing keeps them apart, and the methods require that they differ.
- Tuples.TupleDecode: the components all have the same decoder type, because a tuple of `N` different codec types cannot be written without traits; `Tuple2Decoder` … `Tuple8Decoder` are one decoder over a sequence of components.
- Tuples.TupleStart: a tuple of another arity than the encoder's cannot be formed in Rust; the model refuses it with `InvalidInput`.
- Tuples.TupleEncode: states the order and room bounds of the writes; the exact bytes are stated only through `TupleEncoderExample` and `EncodeFrom`'s definition.
- Chains.NextLinkDecode: the tuple reshaping of `DecoderChain`/`EncoderChain` is modelled on a sequence of items, not on Rust tuples of up to eight types.
- Numbers.NumberPush: an item wider than the codec (a `u32` above 24 bits for `U24be`/`U24le`, a `u64` above the width for `U40*` … `U56*`) panics in the byte-order writer (`write_u24`/`write_uint`); the requires excludes it.
- Numbers.NumberNew: covers only the codecs whose item type has exactly their width (`U16be`, `I32le`, `U64be`, ...), so its requires is the range of the Rust item type; the `new` of `U24*` … `U56*`, which checks the width, is `NumberNewChecked`.
- Encode.EncodeIntoBytes: on an `Unknown` requirement the source calls `encode_all` (src/encode.rs:441-444), which is defined in no file of this model; the model returns `Ok(None)` there instead of the bytes.
- Adapters.PreEncodeStart: because of that gap, an inner encoder whose `requiring_bytes` is `Unknown` after `start_encoding` (for example any started `Repeat`) makes the model fail with `Other`, where the source pre-encodes the item through `encode_all`.
- Buffers.EncodeIsCompleted: `EncodeBuf::is_completed`, which the `Chain` encoder calls after each stage (src/combinators.rs:275), is defined in no file of this model; it is taken to mean "room is left in the buffer" (`EncodeRoom(st) > 0`), and `ChainEncodeLoop`, `ChainEncodeStep`, `ChainEncodeWritesInOrder` and `ChainEncoder.EncodeStage` rest on that reading.
- BufBytes.BytesEncoderOps: the trait of this generation, with its default `encode_size_hint`, is defined in no file of this model, and src/bytes_codec.rs:25-50 overrides no size hint; the model takes the hint to be the bytes not yet written, which is what `remaining_bytes` (src/bytes_codec.rs:43-49) reports.
- BufBytes.Utf8EncoderOps: its size hint is taken, as for `BytesEncoderOps`, to be the bytes not yet written (src/bytes_codec.rs:126-128 gives them as `remaining_bytes`); the source defines no `encode_size_hint` for it.
- BufBytes.BytesDecoderOps: src/bytes_codec.rs:62-80 defines no `decode_size_hint`; the model takes it to be the bytes the array still lacks, `|bytes| - offset`.
- BufBytes.VecDecoderOps: src/bytes_codec.rs:91-106 defines no `decode_size_hint`; the model takes it to be `0`, since a `VecDecoder` has no length to expect.
- BufCombinators.StartChainOps: src/combinators.rs:642-652 defines no `encode_size_hint` for `StartChain`; the model takes it to be `0`, since it writes nothing.
- Tuples.TupleDecoderOps: the tuple decoders do not define `has_terminated` (src/tuple.rs:39-62, 101-131), and the trait that would give its default is in no file of this model; the model takes it to be `false`.
- Collecting.MakesProgress: `CollectLoop`, `CollectDecode`, `CollectLawful` and `Collect.Decode` require it, which excludes a decoder that takes no byte and stays as it was, such as `NullDecoder` (`NullDecoderBreaksProgress`); on such a decoder `collect()` over a non-empty buffer (src/combinator.rs:628-633) loops forever, and the model has no result for it.
- BufCodec.DecoderMakesProgress: `BufCombinators.AndThenLawful` and `AndThenLoop` require it, which excludes a decoder that neither consumes nor yields on a non-empty window, such as a `Buffered` holding its item (`BufferedHoldingBreaksProgress`); on such a decoder the loop of src/combinators.rs:113-125 spins forever, and the model has no result for it.
- BufCombinators.AndThen.Decode: on an error the cursor is left past the bytes of the rounds before the failing call (`AndThenCursor`); what the failing inner call itself consumed through the shared `DecodeBuf` before its `?` is not reported by the decoder records of this generation, which return only the error.
- BufCombinators.ChainDecoder.Decode: likewise, on an error the cursor is left past the rounds before the failing stage's call (`ChainDecodeCursor`), not past what that call itself consumed.
- Collecting.Repeat: the source repeats over any `IntoIterator`; the model takes a finite sequence of items, so an infinite iterator is left out.
- Framing.MaxBytesDecode: src/combinator.rs:1010-1011 matches `eos.remaining_bytes()` against `ByteCount::Infinite`, while src/eos.rs:33 gives it the type `Option<u64>`; the model follows src/eos.rs, where `None` is an unknown remainder.
- Utf8.ValidUtf8: the well-formedness of RFC 3629, section 4, written as a predicate over octets; no decoding to code points.

## Findings

| source | as written | input that shows it | evidently intended | confidence | as-written member | corrected member |
|---|---|---|---|---|---|---|
| src/combinator.rs:726-730 | `Length::decode` adds `buf.len()` to the bytes known to follow the buffer before comparing them with the bytes the item needs after the buffer | `length(3)` over a 3-byte decoder, `buf = [1, 2]`, end of stream right after the buffer: `Ok(2)` with one byte still owed and none to come | `UnexpectedEos` at once, by the end-of-stream rule of src/decode.rs:32-34: compare only the bytes after the buffer | not executed | Framing.LengthEosAsWrittenLate | Framing.LengthEosAtOnce |
| src/combinator.rs:778-786 | `Length::start_encoding` insists on `remaining_bytes == expected_bytes`, which is false once an item has been written (`remaining_bytes == 0`), and `new` sets `remaining_bytes := expected_bytes` so a fresh encoder claims bytes it does not hold | `length(1)` over `U8Encoder`: start with 1, write `[1]`, start with 2 gives `EncoderFull` | the encoder starts idle and accepts an item whenever the previous one is out | not executed | Framing.LengthEncoderAsWrittenSingleUse | Framing.LengthEncoderReusable |
| src/chain.rs:600-604 | the encoder `Chain::requiring_bytes` combines its halves with `add_for_decoding` | `a` with 2 bytes still to write and `b` with an unknown count: `Finite(2)`, so `encode_into_bytes` allocates 2 bytes for 3 and fails | `add_for_encoding`, as `TupleEncoder` uses: `Unknown` | not executed | Chains.ChainRequiringBytesAsWrittenUnderCounts | Chains.ChainRequiringBytes |
| src/buf.rs:356-361 | `EncodeBuf::consume` compares `offset + size` with `len()`, which is already the room after `offset` | the doc example's 3-byte buffer after `consume(1)`: `consume(2)` is refused with 2 bytes of room | fail exactly when `size` exceeds the room left, as documented and as `DecodeBuf::consume` does | not executed | Buffers.EncodeConsumeAsWrittenRefusesRoom | Buffers.EncodeConsume |
| src/bytes_codec.rs:65-79 | `BytesDecoder::decode` replaces the full array with `B::default()` but leaves `offset` at `N` | `[u8; 2]` on `[1, 2, 3, 4]` yields `[1, 2]`; the next call on `[3, 4]` yields `[0, 0]` and consumes nothing | reset `offset` with the array so the next item is decoded | not executed | BufBytes.BytesDecodeAsWrittenExample | BufBytes.BytesDecodeAcrossWindows |
| src/combinators.rs:258 | `Chain::new` sets the stage index to 0, while `start_encoding` (src/combinators.rs:282-284) accepts an item only at index 2 | any fresh chain: `start_encoding` gives `Full` | a fresh encoding chain counts both stages as done and accepts its first item | not executed | BufCombinators.ChainNewAsWrittenRefusesFirstItem | BufCombinators.ChainEncoderNewAccepts |
| src/combinators.rs:308-328 | `Chain::decode` moves to the next stage only after a call that consumed nothing, which needs a non-empty window, so a last stage that finishes with the window is never seen as done | two one-byte stages on `[1, 2]` at the end of the stream: both bytes consumed, nothing yielded, and nothing on the next call | move on once the stage holds its item: yield `([1], [2])` | not executed | BufCombinators.ChainDecodeAsWrittenNeverYields | BufCombinators.ChainDecodeYieldsPair |
| src/numbers.rs:247-251 | `U24le::new_truncate` writes its masked value with `BigEndian::write_u24` | `U24le::new_truncate(1)` holds `[0, 0, 1]`, which `pop_item` reads as `0x1_0000` | `LittleEndian::write_u24`, as `U24le::new` uses: `[1, 0, 0]` | not executed | Numbers.U24leNewTruncateAsWrittenMisorders | Numbers.NewTruncateAgreesWithNew |
| src/items.rs:235-240 | `I24be::new`/`I24le::new` check `(n as u32) <= 0xFF_FFFF` | `new(-1)` is refused; `new(0x80_0000)` is accepted although its bytes read back as `-0x80_0000` | accept exactly `-0x80_0000 <= n < 0x80_0000` | not executed | Items.I24NewAsWrittenMisjudges | Items.I24New |
