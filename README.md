# DVD LPCM decoding and LAME bitrate fix-up, modelled in Dafny

This project models two pieces of a GStreamer plugin set.

**The DVD LPCM decoder element** (`gst/dvdlpcmdec/gstdvdlpcmdec.c`) turns DVD linear-PCM
audio into plain big-endian PCM. It has two input modes:

- **DVD-framed.** Each chunk starts with a 5-byte prefix:
  - a 16-bit first-access offset;
  - a 24-bit header word that packs the dynamic range, mute, emphasis, sample width, rate and channel count.
- **Raw.** The same parameters arrive as caps fields.

How the element handles its input:

- A new header word is parsed, and its caps are proposed on the source pad.
- The payload is split at the first access unit into at most two sub-ranges. Each sub-range goes to the raw chain function.
- The raw chain function converts the samples:
  - 16-bit samples pass through;
  - 20-bit groups of 10 bytes are expanded into 12 bytes in a new buffer;
  - 24-bit groups of 12 bytes are regrouped in place.
- The converted buffer is stamped from a running timestamp cursor and pushed.

**The LAME MP3 encoder element** (`ext/lame/gstlamemp3enc.c`) contributes two pieces:

- The `CHECK_AND_FIXUP_BITRATE` rule snaps a requested bitrate to the grid of its band.
- The tail of `set_format` builds the output caps.

Files:

| file | module | what it holds |
|---|---|---|
| `wrappers.dfy` | `Wrappers` | `Option` |
| `lpcm_header.dfy` | `Bytes` | the `byte` type and the nibble masks |
| `lpcm_header.dfy` | `LpcmHeader` | the header fields, `ParseHeader`, a reference encoder and the chunk prefix reads |
| `lpcm_convert.dfy` | `LpcmConvert` | the 20-bit expansion and the 24-bit regrouping, as functions on sequences and as the array loops of the C code |
| `lpcm_decoder.dfy` | `LpcmDecoder` | the specification functions of the element |
| `lpcm_element.dfy` | `LpcmElement` | the element as a class `Decoder` |

The specification functions in `LpcmDecoder` are:

- sample counts, durations and `update_timestamps`;
- the raw chain function (`ChainRawSpec`);
- the sub-range split (`DecodePayload`);
- the DVD chain function (`ChainDvdSpec`).

The class `Decoder` carries the instance fields of the C structure. Its methods (setcaps, reset, update_timestamps, chain_raw, chain_dvd) update those fields and the caller's byte array. Each method is proved equal to the matching specification function.

Parameters that stand in for the pipeline:

- whether the source pad is usable;
- what buffer allocation and `gst_pad_push` return;
- whether the source pad accepts proposed caps.

Whatever the element does on its source pad is appended to the field `sent`. An entry either sets or clears the caps or pushes a buffer.

Two edge cases of the code are modelled exactly as written:

- **A first-access offset of exactly 4.**
  - The comment at lines 364-368 treats 4 as a valid offset: the access unit then starts right after the prefix, and a single sub-buffer is enough.
  - The code tests `first_access > 4` (line 373). An offset of 4 takes the else branch at lines 400-406, which forwards the whole payload with its timestamp cleared. The chunk's timestamp is dropped even though it belongs to the first byte of that payload.
  - In the model: `LpcmDecoder.SingleRangeWithoutTimestamp`.
- **Raw caps with a missing field.**
  - setcaps jumps to `caps_parse_error` (lines 210-211, 248-253) and returns `FALSE`.
  - The fields it read before the missing one stay stored.
  - In the model: `LpcmElement.ApplyRawCaps` and `LpcmElement.Decoder.SetCaps`.

Two slips in the 20-bit path are also modelled as written; the intended behaviour sits beside them under its own names (see "## Findings"):

- Output byte 8 of each group takes the low nibble of input byte 9 (line 494). `Expand20`, `Output20` and the element use this map. `Expand20Intended` is the map with the high nibble.
- The 20-bit sample count goes into a local that hides the outer `samples` (line 461), so 20-bit buffers get duration 0. `SamplesAsWritten` and the element use this count. `Samples` is the count the other paths compute.

## Model

| member | source | states |
|---|---|---|
| Bytes.MasksAsArithmetic | gst/dvdlpcmdec/gstdvdlpcmdec.c:486-497 | On every 8-bit value, `& 0xf0`, `& 0x0f`, `(& 0x0f) << 4` and `>> 4` equal the arithmetic nibble functions the model computes with. |
| LpcmHeader.ParseHeader | gst/dvdlpcmdec/gstdvdlpcmdec.c:272-306 | Every 24-bit header word gives valid fields: width 16, 20 or 24; rate 48000 or 96000; 1 to 8 channels; dynamic range 0-255; output width 16 or 24. |
| LpcmHeader.ParseEncodeRoundTrip | gst/dvdlpcmdec/gstdvdlpcmdec.c:272-306 | Parsing the encoding of any valid fields gives the same fields back, because each field occupies bits of its own. |
| LpcmHeader.EncodeParseRelevantBits | gst/dvdlpcmdec/gstdvdlpcmdec.c:272-306 | Re-encoding the parse of any 24-bit header word gives back exactly the bits the parser reads: bits 0-10, the rate bit 12, the width bits 14-15 (cleared for the unassigned selector 3, which parses as 16-bit) and the mute and emphasis bits 22-23. Bit 11 and bits 13 and 16-21 are ignored. |
| LpcmHeader.FirstAccess | gst/dvdlpcmdec/gstdvdlpcmdec.c:332 | The big-endian 16-bit read of bytes 0-1 lies below 2^16. |
| LpcmHeader.HeaderWord | gst/dvdlpcmdec/gstdvdlpcmdec.c:333 | The big-endian 24-bit read of bytes 2-4 lies below 2^24. |
| LpcmHeader.EncodeParseCanonical | gst/dvdlpcmdec/gstdvdlpcmdec.c:272-306 | Re-encoding a parse and parsing again is stable. Every valid combination of fields is the parse of some header word. |
| LpcmHeader.SelectorThreeIs16Bit | gst/dvdlpcmdec/gstdvdlpcmdec.c:283-296 | The unassigned width selector 0b11 falls to the default branch: 16-bit in and out. |
| LpcmHeader.ChunkPrefixRoundTrip | gst/dvdlpcmdec/gstdvdlpcmdec.c:332-333 | The big-endian reads of the 5-byte prefix return the encoded first-access offset and header word, whatever payload follows. |
| LpcmHeader.PrefixReadsInjective | gst/dvdlpcmdec/gstdvdlpcmdec.c:332-333 | Two chunks with equal offset and header word have equal prefix bytes, so the reads lose nothing. |
| LpcmHeader.EncodeHeader | gst/dvdlpcmdec/gstdvdlpcmdec.c:272-306 | The reference encoder that the header round trips rest on (`ParseEncodeRoundTrip`, `EncodeParseRelevantBits`); every word it builds fits in 24 bits. |
| LpcmConvert.LowNibble20 | gst/dvdlpcmdec/gstdvdlpcmdec.c:482-497 | The low bits of 20-bit sample k sit in the high nibble of byte 8 + k/2 for even k and in its low nibble for odd k; they are a 4-bit value. |
| LpcmConvert.Expand20GroupAsWritten | gst/dvdlpcmdec/gstdvdlpcmdec.c:486-497 | The 10-to-12 byte group map exactly as the loop body writes it. Its own contract gives the length 12; `Expand20GroupAsWrittenByte8` pins it down as the intended map with byte 8 replaced. |
| LpcmConvert.Expand20Group | gst/dvdlpcmdec/gstdvdlpcmdec.c:482-497 | The intended group map, which gives 12 bytes; `Expand20GroupSample` and `Pack20GroupRoundTrip` state what it promises. |
| LpcmConvert.Expand20GroupSample | gst/dvdlpcmdec/gstdvdlpcmdec.c:482-484 | Sample k of a group expanded by the intended map (`Expand20Group`) is the two high bytes of 20-bit sample k followed by its low nibble shifted up, which leaves a zero low nibble, as the comment promises. The code as written breaks this for sample C (see "## Findings"). |
| LpcmConvert.Pack20GroupRoundTrip | gst/dvdlpcmdec/gstdvdlpcmdec.c:485-501 | Packing the corrected 12-byte expansion restores the 10-byte group, so no bit of input is lost. |
| LpcmConvert.Expand20GroupAsWrittenLosesNibble | gst/dvdlpcmdec/gstdvdlpcmdec.c:494 | As written, output byte 8 takes the low nibble of input byte 9, not its high nibble. Two different groups then expand to the same bytes. |
| LpcmConvert.Expand20GroupAsWrittenByte8 | gst/dvdlpcmdec/gstdvdlpcmdec.c:486-497 | The group map as written differs from the intended one in output byte 8 only, which holds the low nibble of input byte 9. |
| LpcmConvert.Pack20GroupAsWritten | gst/dvdlpcmdec/gstdvdlpcmdec.c:486-497 | Packing a group expanded as written gives back the group with the high nibble of byte 9 cleared, and nothing else changed. |
| LpcmConvert.Expand20 | gst/dvdlpcmdec/gstdvdlpcmdec.c:485-501 | The loop as written turns the size / 10 whole groups into 12 bytes each. |
| LpcmConvert.Expand20Intended | gst/dvdlpcmdec/gstdvdlpcmdec.c:485-501 | The intended map, applied to every whole group, also gives 12 bytes per group. |
| LpcmConvert.ExpandedByte | gst/dvdlpcmdec/gstdvdlpcmdec.c:486-497 | The byte the loop body stores at position k of a group's output is byte k of the group map as written applied to that group. |
| LpcmConvert.Expand20At | gst/dvdlpcmdec/gstdvdlpcmdec.c:485-501 | Byte 12i+k of the expansion as written is the byte the loop body stores at k for input group i, including the low nibble of byte 9 at k = 8. |
| LpcmConvert.Expand20IgnoresTail | gst/dvdlpcmdec/gstdvdlpcmdec.c:462-501 | The loop runs over the size / 10 whole groups only; a trailing partial group does not affect the expansion. |
| LpcmConvert.Pack20RoundTrip | gst/dvdlpcmdec/gstdvdlpcmdec.c:485-501 | Packing the intended whole-buffer expansion restores every whole group of the input. |
| LpcmConvert.DropHigh9At | gst/dvdlpcmdec/gstdvdlpcmdec.c:494 | The input with each group's byte-9 high nibble cleared agrees with the input at every whole-group byte except byte 9 of each group, where only the low nibble stays. |
| LpcmConvert.Pack20AsWritten | gst/dvdlpcmdec/gstdvdlpcmdec.c:485-501 | Packing the expansion as written restores every whole group except for the high nibble of byte 9 of each group, which is lost. |
| LpcmConvert.Expand20NotInjective | gst/dvdlpcmdec/gstdvdlpcmdec.c:494 | Two different buffers expand to the same output bytes as written, so the 20-bit output cannot be undone. |
| LpcmConvert.Expanded20LengthFits | gst/dvdlpcmdec/gstdvdlpcmdec.c:461-470 | The allocated samples * 3 bytes always hold the 12-byte groups the loop writes. The two lengths agree when the size is a multiple of 10. |
| LpcmConvert.Output20 | gst/dvdlpcmdec/gstdvdlpcmdec.c:461-501 | The 20-bit output buffer has the allocated length and begins with the expansion as written of every whole group. |
| LpcmConvert.Output20Zero | gst/dvdlpcmdec/gstdvdlpcmdec.c:469-501 | The allocated bytes past the expanded groups are not written by the loop and keep the zero content the model gives a fresh buffer. |
| LpcmConvert.Expand20GroupInto | gst/dvdlpcmdec/gstdvdlpcmdec.c:486-497 | One loop pass writes the 12 bytes of the map as written for one source group to dest[q..q+12] and leaves the rest of dest alone. |
| LpcmConvert.Expand20Into | gst/dvdlpcmdec/gstdvdlpcmdec.c:460-501 | The 20-bit loop over a sub-range fills a fresh buffer whose contents equal `Output20` of the sub-range. |
| LpcmConvert.Reorder24 | gst/dvdlpcmdec/gstdvdlpcmdec.c:511-536 | Regrouping a buffer keeps its length. |
| LpcmConvert.Reorder24Group | gst/dvdlpcmdec/gstdvdlpcmdec.c:524-534 | The regrouping of one 12-byte group, which keeps 12 bytes; `Reorder24GroupSample`, `Reorder24GroupPermutes` and `Reorder24GroupRoundTrip` state its layout, permutation and inverse. |
| LpcmConvert.Source24 | gst/dvdlpcmdec/gstdvdlpcmdec.c:524-534 | Output byte k, which belongs to sample k / 3, comes from the low byte 8 + k/3 of that sample when it is the sample's third byte, and otherwise from its high bytes 2(k/3) + k%3. |
| LpcmConvert.Reorder24GroupSample | gst/dvdlpcmdec/gstdvdlpcmdec.c:521-536 | After regrouping, sample k of a group is its two high bytes 2k, 2k+1 followed by its low byte 8+k: linear 24-bit big-endian order. |
| LpcmConvert.Reorder24GroupPermutes | gst/dvdlpcmdec/gstdvdlpcmdec.c:522-534 | Regrouping one group keeps the same bytes (a multiset permutation). |
| LpcmConvert.Reorder24GroupRoundTrip | gst/dvdlpcmdec/gstdvdlpcmdec.c:522-534 | The group permutation and its inverse undo each other in both orders. |
| LpcmConvert.Reorder24NotInvolution | gst/dvdlpcmdec/gstdvdlpcmdec.c:522-534 | Applying the permutation twice does not restore a group, so it is not its own inverse. |
| LpcmConvert.Reorder24RoundTrip | gst/dvdlpcmdec/gstdvdlpcmdec.c:511-536 | Undoing the regrouping of a whole buffer restores it. |
| LpcmConvert.Reorder24Permutes | gst/dvdlpcmdec/gstdvdlpcmdec.c:511-536 | Regrouping a whole buffer is a permutation of its bytes. |
| LpcmConvert.Reorder24At | gst/dvdlpcmdec/gstdvdlpcmdec.c:521-536 | Byte 12i+k of the regrouped buffer comes from byte `Source24(k)` of group i. |
| LpcmConvert.Reorder24Tail | gst/dvdlpcmdec/gstdvdlpcmdec.c:511-536 | The size % 12 trailing bytes are left unchanged. |
| LpcmConvert.Reorder24GroupInPlace | gst/dvdlpcmdec/gstdvdlpcmdec.c:522-534 | One pass through the temporary copy and memcpy: every byte of the group is taken from its source position in the old group, and nothing outside the group changes. |
| LpcmConvert.Reorder24InPlace | gst/dvdlpcmdec/gstdvdlpcmdec.c:507-538 | The in-place loop leaves the array as its old prefix, then `Reorder24` of the old sub-range, then its old suffix. |
| LpcmDecoder.Samples | gst/dvdlpcmdec/gstdvdlpcmdec.c:454-515 | The per-channel count each width path computes never exceeds the buffer's size in bytes. |
| LpcmDecoder.Duration | gst/dvdlpcmdec/gstdvdlpcmdec.c:259 | The duration is the floor of samples·second/rate: d·rate ≤ samples·second < (d + 1)·rate. |
| LpcmDecoder.SamplesAsWritten | gst/dvdlpcmdec/gstdvdlpcmdec.c:432-545 | The count that update_timestamps actually receives never exceeds the intended count, nor the buffer size. `TwentyBitKeepsCursor` and `SamplesAsWrittenDropsDuration` show it is 0 on the 20-bit path. |
| LpcmDecoder.SamplesCountOutput | gst/dvdlpcmdec/gstdvdlpcmdec.c:454-515 | The per-channel sample count of each width path equals output bytes / bytes per output sample / channels for the buffer pushed. |
| LpcmDecoder.SamplesAsWrittenDropsDuration | gst/dvdlpcmdec/gstdvdlpcmdec.c:461 | As written, the 20-bit count goes into a shadowing local. A one-group stereo buffer at 48 kHz then gets duration 0, not the 41666 ns of the outer count. |
| LpcmDecoder.UpdateTimestamps | gst/dvdlpcmdec/gstdvdlpcmdec.c:256-270 | A timestamped buffer keeps its timestamp, which also becomes the cursor. Any other buffer is stamped with the cursor after it advances by the buffer's own duration. |
| LpcmDecoder.StampRunIsPrefixSum | gst/dvdlpcmdec/gstdvdlpcmdec.c:259-266 | In a run of untimestamped buffers, buffer k is stamped with the cursor plus the durations of buffers 0..k, its own included. |
| LpcmDecoder.StampRunUniform | gst/dvdlpcmdec/gstdvdlpcmdec.c:259-266 | With a common duration d, buffer k of a run is stamped with cursor + (k + 1)·d. |
| LpcmDecoder.NextStampUsesOwnDuration | gst/dvdlpcmdec/gstdvdlpcmdec.c:259-266 | A buffer stamped t keeps t; an untimestamped buffer after it is stamped t plus its own duration, and that equals t plus the first buffer's duration iff the two durations agree. |
| LpcmDecoder.StampsGapWhenDurationsDiffer | gst/dvdlpcmdec/gstdvdlpcmdec.c:259-266 | For example, a 10 ns buffer stamped 0 followed by an untimestamped 20 ns buffer stamps the second at 20, not at 10 where the first ends. |
| LpcmDecoder.RawOutput | gst/dvdlpcmdec/gstdvdlpcmdec.c:449-541 | The bytes pushed for each width: 16-bit and 24-bit output keep the input's length, and 20-bit output has the allocated length 3·(size·8/20). |
| LpcmDecoder.RawOutputKeepsSamples | gst/dvdlpcmdec/gstdvdlpcmdec.c:449-541 | 16-bit output is the input. 24-bit output is a permutation that can be undone. 20-bit output has the allocated length and packs back to every whole input group with the high nibble of each byte 9 cleared. |
| LpcmDecoder.ChainRawSpec | gst/dvdlpcmdec/gstdvdlpcmdec.c:426-585 | The data handed back has the input's length. When nothing is pushed, the flow is an error and the cursor and the bytes stay as they were. |
| LpcmDecoder.ChainRawOutcome | gst/dvdlpcmdec/gstdvdlpcmdec.c:426-585 | A buffer is pushed iff the rate is set, the pad is usable, the width is 16/20/24 and (for 20) allocation succeeded. Otherwise an error is returned and the cursor stays. A push returns the pad's answer, and only the 24-bit path rewrites the input. |
| LpcmDecoder.ChainRawPushesConverted | gst/dvdlpcmdec/gstdvdlpcmdec.c:543-547 | The pushed buffer holds the converted input, with duration samples·second/rate for the count as written, and its stamp equal to the new cursor. The cursor is the input's timestamp if it has one, else the old cursor plus the duration. |
| LpcmDecoder.TwentyBitKeepsCursor | gst/dvdlpcmdec/gstdvdlpcmdec.c:459-545 | As written, a pushed 20-bit buffer has duration 0, and an untimestamped one is stamped with the old cursor, which does not move. The 16-bit and 24-bit paths use the full count. |
| LpcmDecoder.ChainRawRejects | gst/dvdlpcmdec/gstdvdlpcmdec.c:441-584 | Each rejection, tested in the source's order, gives its flow with nothing pushed and the state unchanged: rate 0 gives not-negotiated, an unusable pad not-linked, a bad width not-negotiated, and a failed allocation the allocation's flow. |
| LpcmDecoder.SubRanges | gst/dvdlpcmdec/gstdvdlpcmdec.c:370-407 | There are one or two sub-ranges; the first starts after the 5-byte prefix and the last ends at the chunk's end. |
| LpcmDecoder.DecodePayload | gst/dvdlpcmdec/gstdvdlpcmdec.c:367-407 | Decoding the payload hands back data of the chunk's length. |
| LpcmDecoder.SubRangesShape | gst/dvdlpcmdec/gstdvdlpcmdec.c:370-407 | The sub-ranges run in order from byte 5 to the end without gaps. There are two exactly when first_access > 4; the first then holds first_access - 4 bytes, and only the second keeps the chunk's timestamp. |
| LpcmDecoder.SubRangesPartition | gst/dvdlpcmdec/gstdvdlpcmdec.c:370-407 | Every payload byte lies in exactly one sub-range, and no prefix byte lies in any. |
| LpcmDecoder.DecodePayloadBySubRanges | gst/dvdlpcmdec/gstdvdlpcmdec.c:370-407 | The payload decoding equals handing each sub-range in turn, with its timestamp, to the raw chain function, stopping after a failure. |
| LpcmDecoder.DecodePayloadOnlyPushes | gst/dvdlpcmdec/gstdvdlpcmdec.c:370-407 | Decoding the payload leaves the 5-byte prefix untouched and only pushes buffers. |
| LpcmDecoder.CheckHeaderSpec | gst/dvdlpcmdec/gstdvdlpcmdec.c:334-358 | The header word is accepted iff it equals the stored one or its caps were accepted. The stored header becomes the word exactly when it is accepted, and the cursor is kept. |
| LpcmDecoder.ChainDvdSpec | gst/dvdlpcmdec/gstdvdlpcmdec.c:308-422 | The data handed back has the chunk's length, and a successful chunk leaves its header word stored. |
| LpcmDecoder.FormatFor | gst/dvdlpcmdec/gstdvdlpcmdec.c:336-358 | A new header word yields valid fields that re-encode to exactly the bits of the word the parser reads. A repeated word keeps the stored format, which after a refused renegotiation is the format parsed from the refused word. |
| LpcmDecoder.ChainDvdOutcome | gst/dvdlpcmdec/gstdvdlpcmdec.c:308-423 | The state stays usable and the prefix untouched. A new header word is parsed and proposed before anything is pushed; a repeated one keeps the format and only pushes. The header word is stored iff it is the same or its caps were accepted. |
| LpcmDecoder.RefusedHeaderDropsChunk | gst/dvdlpcmdec/gstdvdlpcmdec.c:336-422 | When new caps are refused, the fields are already overwritten but the stored header and the cursor stay. The caps proposal is the only event, and the chunk is dropped with a flow error. |
| LpcmDecoder.AcceptedHeaderDecodesPayload | gst/dvdlpcmdec/gstdvdlpcmdec.c:336-407 | Once negotiated, the payload is decoded with the parsed or kept format from the stored cursor, after at most one caps proposal. |
| LpcmDecoder.FirstFailureStops | gst/dvdlpcmdec/gstdvdlpcmdec.c:380-387 | If the range before the access unit fails, its flow is returned and the rest of the chunk is never handed on. |
| LpcmDecoder.SingleRangeWithoutTimestamp | gst/dvdlpcmdec/gstdvdlpcmdec.c:400-407 | With first_access from 0 to 4, the result does not depend on the chunk's timestamp or on the second call's answers. |
| LpcmDecoder.AccessUnitKeepsTimestamp | gst/dvdlpcmdec/gstdvdlpcmdec.c:389-399 | After the first range succeeds, the rest is pushed last, stamped with the chunk's timestamp, which also becomes the cursor. |
| LpcmDecoder.ZeroHeaderAfterReset | gst/dvdlpcmdec/gstdvdlpcmdec.c:336-359 | After a reset, a chunk whose header word is 0 matches the stored word, is never parsed and is refused as not negotiated, with nothing emitted. |
| LpcmElement.ApplyRawCaps | gst/dvdlpcmdec/gstdvdlpcmdec.c:199-217 | The output width is derived from the input width exactly when every caps field is present. Otherwise it keeps its old value. |
| LpcmElement.RawCapsAgreeWithHeader | gst/dvdlpcmdec/gstdvdlpcmdec.c:40-52 | Complete raw caps inside the sink template configure a format that some header word encodes, with output width 16 or 24. |
| LpcmElement.Decoder.constructor | gst/dvdlpcmdec/gstdvdlpcmdec.c:161-176 | A new element is in the reset state and has cleared its source caps once. |
| LpcmElement.Decoder.Reset | gst/dvdlpcmdec/gstdvdlpcmdec.c:143-158 | Every format field, the cursor and the stored header are zeroed, and the source caps are cleared. |
| LpcmElement.Decoder.SetCaps | gst/dvdlpcmdec/gstdvdlpcmdec.c:178-254 | DVD caps only select the DVD chain function. Raw caps select the raw one and store each present field. Only complete caps derive the output width and propose source caps, whose acceptance is the result. |
| LpcmElement.Decoder.StoreFields | gst/dvdlpcmdec/gstdvdlpcmdec.c:199-208 | Each field present in the caps is stored, and all other state is kept. |
| LpcmElement.Decoder.UpdateTimestamps | gst/dvdlpcmdec/gstdvdlpcmdec.c:256-270 | The duration is samples·second/rate, and the stamp and new cursor are those of `LpcmDecoder.UpdateTimestamps`. |
| LpcmElement.Decoder.ChainRaw | gst/dvdlpcmdec/gstdvdlpcmdec.c:426-585 | The flow, new cursor, emitted events and new array contents are those of `ChainRawSpec` on the old state and sub-range. The format, header and mode are unchanged. |
| LpcmElement.Decoder.ConvertSamples | gst/dvdlpcmdec/gstdvdlpcmdec.c:449-541 | The bytes pushed are `RawOutput` of the sub-range, and the sample count is `SamplesAsWritten`. The array changes only in the 24-bit case, where the sub-range is replaced by its regrouping. |
| LpcmElement.Decoder.CountSamples | gst/dvdlpcmdec/gstdvdlpcmdec.c:432-515 | The outer `samples` holds `SamplesAsWritten`: the 16-bit and 24-bit divisions give `Samples`, and the 20-bit count lands in a hiding local, leaving 0. |
| LpcmElement.Decoder.ProposeHeader | gst/dvdlpcmdec/gstdvdlpcmdec.c:336-351 | The fields become `ParseHeader(h)` and their caps are proposed. The cursor and the stored header are kept. |
| LpcmElement.Decoder.CheckHeader | gst/dvdlpcmdec/gstdvdlpcmdec.c:336-359 | The acceptance, new state and events are those of `CheckHeaderSpec` on the old state. |
| LpcmElement.Decoder.ChainDvd | gst/dvdlpcmdec/gstdvdlpcmdec.c:308-423 | The flow, new state, events and array contents are those of `ChainDvdSpec` on the old state and chunk. |
| LpcmElement.Decoder.DecodePayloadInto | gst/dvdlpcmdec/gstdvdlpcmdec.c:370-407 | Handing on the sub-ranges gives the flow, cursor, events and array contents of `DecodePayload`, and keeps the format and header. |
| LpcmElement.Decoder.DecodeTwoRanges | gst/dvdlpcmdec/gstdvdlpcmdec.c:373-399 | The two-range branch gives the same outcome as `DecodePayload` on a chunk with first_access > 4. |
| LameSettings.CheckAndFixupBitrate | ext/lame/gstlamemp3enc.c:395-425 | A warning is raised iff the stored bitrate differs from the request. It names the request, the stored value and the band's maximum and step. |
| LameSettings.BandOf | ext/lame/gstlamemp3enc.c:400-413 | Each band's step is 8, 16, 32 or 64 and divides its maximum, and every bitrate up to 320 lies at or below its band's maximum. |
| LameSettings.RoundUp | ext/lame/gstlamemp3enc.c:404-413 | GST_ROUND_UP_n always gives a multiple of n. |
| LameSettings.RoundUpLeastMultiple | ext/lame/gstlamemp3enc.c:404-413 | The GST_ROUND_UP_n of the macro gives the least multiple of n not below the value, and keeps a multiple of n. |
| LameSettings.FixupKeepsUnbanded | ext/lame/gstlamemp3enc.c:400-414 | 0 and bitrates above 320 are kept without a warning. |
| LameSettings.FixupSnapsToBand | ext/lame/gstlamemp3enc.c:402-414 | In a band, the stored bitrate is the least multiple of the band's step not below the request. It never exceeds the band's maximum, and a positive request stays in its band. |
| LameSettings.FixupWarnsOffGrid | ext/lame/gstlamemp3enc.c:415-424 | A warning is raised exactly for a bitrate from a band that is off that band's grid. |
| LameSettings.FixupIdempotent | ext/lame/gstlamemp3enc.c:395-425 | A stored bitrate passes the macro again unchanged and without a warning. |
| LameSettings.FixupTopBand | ext/lame/gstlamemp3enc.c:411-413 | Every bitrate from 257 to 320 becomes 320. |
| LameSettings.MpegAudioVersion | ext/lame/gstlamemp3enc.c:342-348 | LAME versions 0, 1 and 2 map into caps versions 1 to 3 and back through the inverse; any other value passes through. |
| LameSettings.MpegAudioVersionBijective | ext/lame/gstlamemp3enc.c:342-348 | The remap is a bijection from LAME's versions {0, 1, 2} onto the caps versions {1, 2, 3}, and leaves other values as they are. |
| LameSettings.OutputCaps | ext/lame/gstlamemp3enc.c:333-356 | There are no caps (an error) exactly when the output rate is 0. |
| LameSettings.OutputCapsDescribeStream | ext/lame/gstlamemp3enc.c:350-356 | The caps are MPEG-1 layer 3 at the output rate. They have one channel exactly when mono is set or the input has one, and a known LAME version gives caps version 1, 2 or 3. |

## Left out

- GObject and pad plumbing is not modelled: type registration, pad creation, reference counting, `gst_object_unref`, logging and `GST_ELEMENT_ERROR` messages.
- The pipeline's answers are parameters: `GST_PAD_IS_USABLE`, `gst_pad_alloc_buffer`, `gst_pad_push` and the result of `gst_pad_set_caps`.
- The caps a buffer carries and the source caps' fixed fields are not modelled. Only rate, channels and output width are recorded in a caps proposal.
- Sub-buffers and `gst_buffer_make_writable` are modelled as index ranges of the caller's array, which the 24-bit path rewrites in place. The model does not cover a copy made by `make_writable` when the buffer is shared.
- The allocated 20-bit output buffer is modelled as zero-filled. In C the bytes past the expanded groups are uninitialised.
- Integer widths are unbounded, and no wrap-around is modelled.
  - In raw mode nothing bounds the buffer size: the guint product `size * 8` at line 461 wraps from 2^29 bytes.
  - `update_timestamps` takes the count as an `int` (line 257), and its 64-bit product `samples * GST_SECOND` (line 259) wraps past 2^64.
  - The model computes these values exactly, so it describes buffers below those sizes.
- `GST_CLOCK_TIME_NONE` is modelled as `None` rather than as the all-ones 64-bit value.
- Decoder.ChainDvd requires a chunk of at least 5 bytes whose first-access offset above 4 stays within the chunk (`WellFormedChunk`). The C code reads the prefix and cuts the sub-buffers without checking, so other chunks are undefined behaviour there.
- Decoder.ChainRaw requires that a set rate comes with at least one channel (`Usable`). Raw caps that carry a rate but no channel count are refused by setcaps. The rate would still be stored, so a buffer delivered after such a refusal would divide by zero in C.
- The `len > 0` test at line 381 is always true inside the `first_access > 4` branch. The model has no separate path for it.
- The per-group stores of the 20-bit loop and the `memcpy` of the 24-bit loop are modelled as simultaneous assignments to the group. Their sources and destinations do not overlap, so no intermediate state is observable.
- `gst_dvdlpcmdec_change_state` is not modelled: it only calls reset on the ready-to-paused transition, and `Decoder.Reset` models that reset.
- The DVD element's type registration, class init and plugin entry points are not modelled.
- LAME encoder: only the bitrate fix-up macro and the output-caps tail of `set_format` are modelled.
  - The calls into the LAME library are parameters of `OutputCaps`: `lame_get_out_samplerate` and `lame_get_version`.
  - Not modelled: encoder setup, latency computation, tag merging, the warning on a changed output rate, and the other properties.
- LameSettings.CheckAndFixupBitrate: the warning does not carry the property name (`param`) that the macro prints, since it only labels the message. The warning records the request, the stored value and the band.
- LameSettings.CheckAndFixupBitrate: models the macro on its `gint` argument as an unbounded integer. The `GST_ROUND_UP_n` masks are modelled as rounding to the next multiple (floor rounding of `x + n - 1`), which is what the masks compute on two's-complement values.

## Findings

| source | as written | input that shows it | evidently intended | confidence | as-written member | corrected member |
|---|---|---|---|---|---|---|
| gst/dvdlpcmdec/gstdvdlpcmdec.c:494 | `dest[8] = src[9] & 0x0f` stores the low nibble of byte 9 where sample C's low nibble belongs. Sample C loses its own bits and gets sample D's. | A 20-bit group whose byte 9 is 0x5A. Output byte 8 becomes 0x0A instead of 0x50, and a group with byte 9 = 0x0A expands to the same bytes. | `src[9] & 0xf0`, matching `dest[2] = src[8] & 0xf0`, so the expansion can be undone. | not executed | LpcmConvert.Expand20GroupAsWrittenLosesNibble | LpcmConvert.Pack20GroupRoundTrip |
| gst/dvdlpcmdec/gstdvdlpcmdec.c:461 | `gint64 samples` declares a new local that hides the outer `samples`. `update_timestamps` then receives the outer value 0. | A 10-byte stereo 20-bit buffer at 48 kHz. Its duration is 0 and the cursor does not advance; the intended duration is 41666 ns. | Assign the outer `samples`, as the 16-bit and 24-bit paths do. | not executed | LpcmDecoder.SamplesAsWrittenDropsDuration | LpcmDecoder.SamplesCountOutput |
