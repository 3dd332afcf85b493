/**
  The DVD LPCM decoder element of gst/dvdlpcmdec/gstdvdlpcmdec.c: its
  format state, the timestamp cursor, the raw chain function (one buffer of
  samples in a configured layout) and the DVD chain function (a chunk with
  a 5-byte prefix, split into one or two raw sub-ranges).

  The pipeline calls the element makes are oracles passed in as parameters:
  whether the source pad is usable, what buffer allocation and pushing
  return, and whether the source pad accepts proposed caps.  What the
  element hands downstream is recorded as a sequence of events.
 */
module LpcmDecoder {
  import opened Bytes
  import opened LpcmHeader
  import opened LpcmConvert
  import opened Wrappers

  /** The GstFlowReturn values a chain function can return. */
  datatype Flow = Ok | NotLinked | WrongState | Unexpected | NotNegotiated | Error | NotSupported

  /** Nanoseconds per second (GST_SECOND). */
  const Second: nat := 1_000_000_000

  /** Caps proposed on the source pad: signed big-endian integer samples. */
  datatype SrcCaps = SrcCaps(rate: nat, channels: nat, width: int)

  /** A buffer pushed downstream: its bytes, timestamp and duration. */
  datatype OutBuffer = OutBuffer(data: seq<byte>, stamp: nat, duration: nat)

  /** What the element does on its source pad: set (or clear) its caps, or
      push a buffer. */
  datatype Event = SetSrcCaps(caps: Option<SrcCaps>) | Push(buffer: OutBuffer)

  /** The pipeline's answers during one run of the raw chain function:
      GST_PAD_IS_USABLE, the result of gst_pad_alloc_buffer (asked only on
      the 20-bit path) and the result of gst_pad_push. */
  datatype Pad = Pad(usable: bool, alloc: Flow, push: Flow)

  /** The source caps announced for a format. */
  function CapsOf(f: HeaderFields): SrcCaps
  {
    SrcCaps(f.rate, f.channels, f.outWidth)
  }

  /** The format after gst_dvdlpcm_reset: every field zero or false. */
  const ResetFormat: HeaderFields := HeaderFields(0, false, false, 0, 0, 0, 0)

  /** a / d on naturals, written as repeated subtraction.  This is a proof
      device, not a second division of the source: Samples and Duration
      divide by the channel count and the rate through it, so that the
      proofs that only pass a count or a duration on do not reason about a
      division by a variable.  QuotIsDiv shows it is the C division (whose
      operands here are never negative). */
  function Quot(a: nat, d: nat): (q: nat)
    requires d > 0
    ensures q <= a
    decreases a
  {
    if a < d then 0 else 1 + Quot(a - d, d)
  }

  lemma {:induction false} QuotIsDiv(a: nat, d: nat)
    requires d > 0
    ensures Quot(a, d) == a / d
    decreases a
  {
    if a >= d {
      QuotIsDiv(a - d, d);
      var q, r := (a - d) / d, (a - d) % d;
      assert a == (q + 1) * d + r;
      DivModUnique(a, d, q + 1, r);
    } else {
      DivModUnique(a, d, 0, a);
    }
  }

  /** Per-channel sample count of a raw buffer of `size` bytes, as the three
      width paths compute it (lines 454, 461 and 478, 515).  The 20-bit
      count is the one the path computes into its own local; as written it
      never reaches update_timestamps (see SamplesAsWritten). */
  function Samples(width: int, channels: nat, size: nat): (n: nat)
    requires channels >= 1
    ensures n <= size
  {
    if width == 16 then Quot(size, channels) / 2
    else if width == 20 then Quot(size * 8 / 20, channels)
    else Quot(size, channels) / 3
  }

  /** The count update_timestamps receives (line 545) as the code is
      written: the 20-bit path computes its count into a 64-bit local
      declared at line 461 that hides the outer `samples` of line 432,
      which stays 0. */
  function SamplesAsWritten(width: int, channels: nat, size: nat): (n: nat)
    requires channels >= 1
    ensures n <= Samples(width, channels, size) <= size
  {
    if width == 20 then 0 else Samples(width, channels, size)
  }

  /** Duration in nanoseconds of `samples` frames at `rate` (line 259). */
  function Duration(samples: nat, rate: nat): (d: nat)
    requires rate > 0
    ensures d * rate <= samples * Second < (d + 1) * rate
  {
    QuotIsDiv(samples * Second, rate);
    Quot(samples * Second, rate)
  }

  /** a / b / c == a / (b * c) */
  lemma DivDiv(a: nat, b: nat, c: nat)
    requires b > 0 && c > 0
    ensures a / b / c == a / (b * c)
  {
    var x, q, y := a / b, a / b / c, a / b % c;
    var rest := b * y + a % b;
    assert a == b * x + a % b;
    assert x == c * q + y;
    MulDistributes(b, c, q, y);
    assert a == (b * c) * q + rest;
    MulMonotone(b, y, c - 1);
    assert b * (c - 1) == b * c - b;
    DivModUnique(a, b * c, q, rest);
  }

  lemma MulDistributes(b: int, c: int, q: int, y: int)
    ensures b * (c * q + y) == (b * c) * q + b * y
  {
  }

  lemma MulMonotone(b: nat, y: nat, z: nat)
    requires y <= z
    ensures b * y <= b * z
  {
    assert b * z == b * y + b * (z - y);
  }

  /** The sample count is the number of whole output samples per channel in
      the buffer that is pushed: output bytes / bytes per output sample /
      channels. */
  lemma SamplesCountOutput(width: int, channels: nat, s: seq<byte>)
    requires width in {16, 20, 24} && channels >= 1
    ensures Samples(width, channels, |s|) == |RawOutput(width, s)| / (OutWidthFor(width) / 8) / channels
  {
    var n := |s|;
    if width == 16 {
      assert |RawOutput(width, s)| / (OutWidthFor(width) / 8) == n / 2;
      QuotIsDiv(n, channels);
      DivDiv(n, channels, 2);
      DivDiv(n, 2, channels);
    } else if width == 20 {
      assert |RawOutput(width, s)| / (OutWidthFor(width) / 8) == n * 8 / 20;
      QuotIsDiv(n * 8 / 20, channels);
    } else {
      assert |RawOutput(width, s)| / (OutWidthFor(width) / 8) == n / 3;
      QuotIsDiv(n, channels);
      DivDiv(n, channels, 3);
      DivDiv(n, 3, channels);
    }
  }

  /** The sample count as written loses the time of every 20-bit buffer:
      a 20-bit buffer of one stereo group has a zero duration as written
      and a positive one with the outer count. */
  lemma SamplesAsWrittenDropsDuration()
    ensures Duration(SamplesAsWritten(20, 2, 10), 48000) == 0
    ensures Duration(Samples(20, 2, 10), 48000) == 41666
  {
    QuotIsDiv(0, 48000);
    QuotIsDiv(4, 2);
    QuotIsDiv(2 * Second, 48000);
  }

  /** update_timestamps (lines 257-266): a buffer that carries a timestamp
      keeps it and moves the cursor there; any other buffer first advances
      the cursor by its own duration and is then stamped with the cursor. */
  function UpdateTimestamps(ts: Option<nat>, cursor: nat, duration: nat): (r: (nat, nat))
    ensures r.0 == r.1
    ensures ts.Some? ==> r.0 == ts.value
    ensures ts.None? ==> r.0 - cursor == duration
  {
    match ts
    case Some(t) => (t, t)
    case None => (cursor + duration, cursor + duration)
  }

  /** Sum of a sequence of durations. */
  function Total(ds: seq<nat>): nat
  {
    if ds == [] then 0 else Total(ds[..|ds| - 1]) + ds[|ds| - 1]
  }

  /** Stamps of a run of buffers without timestamps, starting from a cursor. */
  function StampRun(cursor: nat, ds: seq<nat>): (stamps: seq<nat>)
    ensures |stamps| == |ds|
    decreases |ds|
  {
    if ds == [] then []
    else
      var r := UpdateTimestamps(None, cursor, ds[0]);
      [r.0] + StampRun(r.1, ds[1..])
  }

  /** Within a run of buffers without timestamps, buffer k is stamped with
      the cursor plus the durations of buffers 0..k, its own included. */
  lemma {:induction false} StampRunIsPrefixSum(cursor: nat, ds: seq<nat>, k: nat)
    requires k < |ds|
    ensures StampRun(cursor, ds)[k] == cursor + Total(ds[..k + 1])
    decreases |ds|
  {
    if k > 0 {
      StampRunIsPrefixSum(cursor + ds[0], ds[1..], k - 1);
      TotalCons(ds[..k + 1]);
      assert ds[..k + 1][1..] == ds[1..][..k];
    } else {
      assert ds[..1][..0] == [];
    }
  }

  /** Total of x + ds is x plus the total of ds. */
  lemma {:induction false} TotalCons(ds: seq<nat>)
    requires |ds| >= 1
    ensures Total(ds) == ds[0] + Total(ds[1..])
    decreases |ds|
  {
    if |ds| > 1 {
      TotalCons(ds[..|ds| - 1]);
      assert ds[..|ds| - 1][1..] == ds[1..][..|ds[1..]| - 1];
      assert ds[..|ds| - 1][0] == ds[0];
    } else {
      assert ds[1..] == [];
      assert ds[..0] == [];
    }
  }

  /** When every buffer of the run lasts d, the stamps are d apart and start
      one duration past the cursor: contiguous only because the durations
      are equal. */
  lemma {:induction false} StampRunUniform(cursor: nat, ds: seq<nat>, d: nat, k: nat)
    requires k < |ds|
    requires forall j :: 0 <= j < |ds| ==> ds[j] == d
    ensures StampRun(cursor, ds)[k] == cursor + (k + 1) * d
  {
    StampRunIsPrefixSum(cursor, ds, k);
    TotalUniform(ds[..k + 1], d);
  }

  lemma {:induction false} TotalUniform(ds: seq<nat>, d: nat)
    requires forall j :: 0 <= j < |ds| ==> ds[j] == d
    ensures Total(ds) == |ds| * d
    decreases |ds|
  {
    if ds != [] {
      TotalUniform(ds[..|ds| - 1], d);
    }
  }

  /** With different durations the stamps are not contiguous: a 10 ns
      buffer stamped 0 followed by an untimestamped 20 ns buffer puts the
      second at 20, not at 10 where the first ends. */
  /** After a timestamped buffer, an untimestamped one is stamped with the
      first one's timestamp plus its OWN duration, whatever the first
      buffer's duration was; so the stamps are contiguous only when the
      two durations agree. */
  lemma NextStampUsesOwnDuration(cursor: nat, t: nat, d1: nat, d2: nat)
    ensures UpdateTimestamps(Some(t), cursor, d1).0 == t
    ensures UpdateTimestamps(None, UpdateTimestamps(Some(t), cursor, d1).1, d2).0 == t + d2
    ensures UpdateTimestamps(None, UpdateTimestamps(Some(t), cursor, d1).1, d2).0 == t + d1 <==> d1 == d2
  {
  }

  lemma StampsGapWhenDurationsDiffer()
    ensures UpdateTimestamps(Some(0), 0, 10).0 + 10 == 10
    ensures UpdateTimestamps(None, UpdateTimestamps(Some(0), 0, 10).1, 20).0 == 20
  {
  }

  // ---------------------------------------------------------------------
  // The raw chain function
  // ---------------------------------------------------------------------

  /** The bytes pushed for a buffer in each supported layout: 16-bit as is,
      20-bit expanded to 24-bit, 24-bit regrouped. */
  function RawOutput(width: int, s: seq<byte>): (r: seq<byte>)
    requires width in {16, 20, 24}
    ensures |r| == if width == 20 then Expanded20Length(|s|) else |s|
  {
    if width == 16 then s
    else if width == 20 then Output20(s)
    else Reorder24(s)
  }

  /** What each layout's output keeps of its input: 16-bit and 24-bit output
      is a permutation of the input (the identity for 16-bit) that can be
      undone; 20-bit output restores every full group when packed. */
  lemma RawOutputKeepsSamples(width: int, s: seq<byte>)
    requires width in {16, 20, 24}
    ensures width == 16 ==> RawOutput(width, s) == s
    ensures width != 20 ==> |RawOutput(width, s)| == |s| && multiset(RawOutput(width, s)) == multiset(s)
    ensures width == 20 ==> |RawOutput(width, s)| == Expanded20Length(|s|)
                            && Pack20(RawOutput(width, s)[..12 * (|s| / 10)]) == DropHigh9(s)
    ensures width == 24 ==> Unorder24(RawOutput(width, s)) == s
  {
    if width == 20 {
      Pack20AsWritten(s);
    } else if width == 24 {
      Reorder24Permutes(s);
      Reorder24RoundTrip(s);
    }
  }

  /** The outcome of one call of the raw chain function: the new cursor,
      the buffer pushed if any, the sub-range's bytes afterwards (the 24-bit
      path rewrites them in place) and the returned flow. */
  datatype RawResult = RawResult(cursor: nat, pushed: Option<OutBuffer>, data: seq<byte>, ret: Flow)

  /** True when the 24-bit path runs and rewrites the input in place. */
  predicate ReordersInPlace(f: HeaderFields, pad: Pad)
  {
    f.rate != 0 && pad.usable && f.width == 24
  }

  /** gst_dvdlpcmdec_chain_raw (lines 426-584) on the bytes s with timestamp
      ts, from format f and cursor. */
  function ChainRawSpec(f: HeaderFields, cursor: nat, s: seq<byte>, ts: Option<nat>, pad: Pad): (r: RawResult)
    requires f.rate == 0 || f.channels >= 1
    ensures |r.data| == |s|
    ensures r.pushed.None? ==> r.cursor == cursor && r.data == s && r.ret != Ok
  {
    if f.rate == 0 then RawResult(cursor, None, s, NotNegotiated)
    else if !pad.usable then RawResult(cursor, None, s, NotLinked)
    else if f.width !in {16, 20, 24} then RawResult(cursor, None, s, NotNegotiated)
    else if f.width == 20 && pad.alloc != Ok then RawResult(cursor, None, s, pad.alloc)
    else
      var duration := Duration(SamplesAsWritten(f.width, f.channels, |s|), f.rate);
      var stamped := UpdateTimestamps(ts, cursor, duration);
      var out := RawOutput(f.width, s);
      RawResult(stamped.1, Some(OutBuffer(out, stamped.0, duration)), if f.width == 24 then out else s, pad.push)
  }

  /** A buffer is pushed exactly when every check passes; otherwise an
      error is returned and the cursor stays.  A push returns what the
      pipeline answers, and only the 24-bit path changes the input bytes. */
  lemma ChainRawOutcome(f: HeaderFields, cursor: nat, s: seq<byte>, ts: Option<nat>, pad: Pad)
    requires f.rate == 0 || f.channels >= 1
    ensures var r := ChainRawSpec(f, cursor, s, ts, pad);
            && (r.pushed.Some? <==> f.rate != 0 && pad.usable && f.width in {16, 20, 24} && (f.width == 20 ==> pad.alloc == Ok))
            && (r.pushed.None? ==> r.ret != Ok && r.cursor == cursor)
            && (r.pushed.Some? ==> r.ret == pad.push)
            && r.data == if ReordersInPlace(f, pad) then Reorder24(s) else s
  {
  }

  /** A pushed buffer holds the converted input, timed by the sample count
      the code hands on: the input's own timestamp if it has one, else the
      advanced cursor. */
  lemma ChainRawPushesConverted(f: HeaderFields, cursor: nat, s: seq<byte>, ts: Option<nat>, pad: Pad)
    requires f.rate != 0 && f.channels >= 1 && pad.usable && f.width in {16, 20, 24}
    requires f.width == 20 ==> pad.alloc == Ok
    ensures var r := ChainRawSpec(f, cursor, s, ts, pad);
            && r.pushed == Some(OutBuffer(RawOutput(f.width, s), r.cursor, Duration(SamplesAsWritten(f.width, f.channels, |s|), f.rate)))
            && r.cursor == (if ts.Some? then ts.value else cursor + r.pushed.value.duration)
  {
  }

  /** As written, a pushed 20-bit buffer has duration 0: without a
      timestamp it is stamped with the unchanged cursor, which does not
      move; 16-bit and 24-bit buffers get the duration of their count. */
  lemma TwentyBitKeepsCursor(f: HeaderFields, cursor: nat, s: seq<byte>, ts: Option<nat>, pad: Pad)
    requires f.rate != 0 && f.channels >= 1 && pad.usable && f.width in {16, 20, 24}
    requires f.width == 20 ==> pad.alloc == Ok
    ensures var r := ChainRawSpec(f, cursor, s, ts, pad);
            && (f.width == 20 ==> r.pushed.value.duration == 0)
            && (f.width == 20 && ts.None? ==> r.cursor == cursor && r.pushed.value.stamp == cursor)
            && (f.width != 20 ==> r.pushed.value.duration == Duration(Samples(f.width, f.channels, |s|), f.rate))
  {
    QuotIsDiv(0, f.rate);
  }

  /** The rejections: an unnegotiated rate, a disabled source pad, an
      unsupported width and a failed allocation each return an error and
      leave the cursor where it was. */
  lemma ChainRawRejects(f: HeaderFields, cursor: nat, s: seq<byte>, ts: Option<nat>, pad: Pad)
    requires f.rate == 0 || f.channels >= 1
    ensures f.rate == 0 ==> ChainRawSpec(f, cursor, s, ts, pad) == RawResult(cursor, None, s, NotNegotiated)
    ensures f.rate != 0 && !pad.usable ==> ChainRawSpec(f, cursor, s, ts, pad) == RawResult(cursor, None, s, NotLinked)
    ensures f.rate != 0 && pad.usable && f.width !in {16, 20, 24} ==>
              ChainRawSpec(f, cursor, s, ts, pad) == RawResult(cursor, None, s, NotNegotiated)
    ensures f.rate != 0 && pad.usable && f.width == 20 && pad.alloc != Ok ==>
              ChainRawSpec(f, cursor, s, ts, pad) == RawResult(cursor, None, s, pad.alloc)
  {
  }

  /** The events a raw chain call leaves on the source pad. */
  function PushEvents(r: RawResult): (ev: seq<Event>)
    ensures |ev| <= 1
  {
    if r.pushed.Some? then [Push(r.pushed.value)] else []
  }

  // ---------------------------------------------------------------------
  // The DVD chain function
  // ---------------------------------------------------------------------

  /** A slice [start, end) of a chunk handed to the raw chain function, and
      whether it carries the chunk's timestamp. */
  datatype SubRange = SubRange(start: nat, end: nat, keepsTimestamp: bool)

  /** The split at lines 370-407: after the 5-byte prefix, a first-access
      offset above 4 gives the bytes before the access unit (first_access - 4
      of them, without timestamp) and then the rest with the chunk's
      timestamp; an offset of 0 to 4 gives one sub-range without timestamp. */
  function SubRanges(firstAccess: nat, size: nat): (rs: seq<SubRange>)
    requires 5 <= size && (firstAccess > 4 ==> firstAccess + 1 <= size)
    ensures 1 <= |rs| <= 2 && rs[0].start == 5 && rs[|rs| - 1].end == size
  {
    if firstAccess > 4 then
      [SubRange(5, firstAccess + 1, false), SubRange(firstAccess + 1, size, true)]
    else
      [SubRange(5, size, false)]
  }

  /** The sub-ranges run in order from byte 5 to the end of the chunk
      without gaps; only the second one, from the access unit on, keeps the
      chunk's timestamp, and the first one then holds first_access - 4
      bytes. */
  lemma SubRangesShape(firstAccess: nat, size: nat)
    requires 5 <= size && (firstAccess > 4 ==> firstAccess + 1 <= size)
    ensures var rs := SubRanges(firstAccess, size);
            && |rs| == (if firstAccess > 4 then 2 else 1)
            && rs[0].start == 5 && rs[|rs| - 1].end == size
            && (forall k :: 0 <= k < |rs| ==> rs[k].start <= rs[k].end)
            && (forall k :: 0 <= k < |rs| - 1 ==> rs[k].end == rs[k + 1].start)
            && (forall k :: 0 <= k < |rs| ==> (rs[k].keepsTimestamp <==> firstAccess > 4 && k == 1))
            && (firstAccess > 4 ==> rs[0].end - rs[0].start == firstAccess - 4)
  {
  }

  /** Every payload byte 5..size-1 lies in exactly one sub-range, and no
      prefix byte lies in any. */
  lemma SubRangesPartition(firstAccess: nat, size: nat, j: nat)
    requires 5 <= size && (firstAccess > 4 ==> firstAccess + 1 <= size)
    ensures var rs := SubRanges(firstAccess, size);
            (5 <= j < size ==> exists k :: 0 <= k < |rs| && rs[k].start <= j < rs[k].end)
            && (forall k, m :: 0 <= k < m < |rs| ==> !(rs[k].start <= j < rs[k].end && rs[m].start <= j < rs[m].end))
            && (j < 5 || j >= size ==> forall k :: 0 <= k < |rs| ==> !(rs[k].start <= j < rs[k].end))
  {
    var rs := SubRanges(firstAccess, size);
    if 5 <= j < size {
      if |rs| == 2 && j >= rs[0].end {
        assert rs[1].start <= j < rs[1].end;
      } else {
        assert rs[0].start <= j < rs[0].end;
      }
    }
  }

  /** The timestamp a sub-range is handed with. */
  function TimestampFor(r: SubRange, ts: Option<nat>): Option<nat>
  {
    if r.keepsTimestamp then ts else None
  }

  /** The decoder's state: its format, the timestamp cursor and the last
      negotiated header word. */
  datatype DecoderState = DecoderState(format: HeaderFields, timestamp: nat, header: int)

  /** The state gst_dvdlpcm_reset leaves. */
  const ResetState: DecoderState := DecoderState(ResetFormat, 0, 0)

  /** A state whose format the raw chain function can divide by. */
  predicate Usable(st: DecoderState)
  {
    st.format.rate == 0 || st.format.channels >= 1
  }

  /** The preconditions chain_dvd does not check: a chunk holds its prefix,
      and a first-access offset above 4 stays within the chunk. */
  predicate WellFormedChunk(b: seq<byte>)
  {
    |b| >= 5 && (FirstAccess(b) > 4 ==> FirstAccess(b) + 1 <= |b|)
  }

  /** The outcome of handing a chunk's sub-ranges to the raw chain
      function: the cursor, the buffers pushed, the chunk's bytes afterwards
      and the returned flow. */
  datatype Run = Run(cursor: nat, events: seq<Event>, data: seq<byte>, ret: Flow)

  /** Bytes x written over b[i..j] leave the bytes outside [i, j) as they
      were. */
  lemma Splice(b: seq<byte>, x: seq<byte>, i: nat, j: nat)
    requires i <= j <= |b| && |x| == j - i
    ensures var c := b[..i] + x + b[j..];
            && |c| == |b|
            && c[..j] == b[..i] + x
            && c[i..j] == x
            && c[j..] == b[j..]
  {
    var c := b[..i] + x + b[j..];
    assert c[..j] == b[..i] + x;
    assert c[i..j] == x;
    assert c[j..] == b[j..];
  }

  /** Lines 367-407: the payload of chunk b handed to the raw chain
      function with format f.  A first-access offset of 0 to 4 hands on
      bytes 5.. without timestamp; a larger one hands on the bytes before
      the access unit without timestamp and then, if that returned OK, the
      rest with the chunk's timestamp.  pad1 and pad2 are the pipeline's
      answers during the two calls. */
  function DecodePayload(f: HeaderFields, cursor: nat, b: seq<byte>, ts: Option<nat>, pad1: Pad, pad2: Pad): (r: Run)
    requires (f.rate == 0 || f.channels >= 1) && WellFormedChunk(b)
    ensures |r.data| == |b|
  {
    var fa := FirstAccess(b);
    if fa <= 4 then
      var r1 := ChainRawSpec(f, cursor, b[5..], None, pad1);
      Run(r1.cursor, PushEvents(r1), b[..5] + r1.data, r1.ret)
    else
      var r1 := ChainRawSpec(f, cursor, b[5..fa + 1], None, pad1);
      if r1.ret != Ok then Run(r1.cursor, PushEvents(r1), b[..5] + r1.data + b[fa + 1..], r1.ret)
      else
        var r2 := ChainRawSpec(f, r1.cursor, b[fa + 1..], ts, pad2);
        Run(r2.cursor, PushEvents(r1) + PushEvents(r2), b[..5] + r1.data + r2.data, r2.ret)
  }

  /** A reference definition of the same loop over SubRanges: each
      sub-range in turn is cut from the bytes as the previous call left
      them, handed on with TimestampFor, and written back in place. */
  function DecodeBySubRanges(f: HeaderFields, cursor: nat, b: seq<byte>, ts: Option<nat>, pad1: Pad, pad2: Pad): Run
    requires (f.rate == 0 || f.channels >= 1) && WellFormedChunk(b)
  {
    var rs := SubRanges(FirstAccess(b), |b|);
    var r1 := ChainRawSpec(f, cursor, b[rs[0].start..rs[0].end], TimestampFor(rs[0], ts), pad1);
    var b1 := b[..rs[0].start] + r1.data + b[rs[0].end..];
    if |rs| == 1 || r1.ret != Ok then
      Run(r1.cursor, PushEvents(r1), b1, r1.ret)
    else
      var r2 := ChainRawSpec(f, r1.cursor, b1[rs[1].start..rs[1].end], TimestampFor(rs[1], ts), pad2);
      Run(r2.cursor, PushEvents(r1) + PushEvents(r2), b1[..rs[1].start] + r2.data + b1[rs[1].end..], r2.ret)
  }

  /** The payload decoding is the loop over SubRanges. */
  lemma DecodePayloadBySubRanges(f: HeaderFields, cursor: nat, b: seq<byte>, ts: Option<nat>, pad1: Pad, pad2: Pad)
    requires (f.rate == 0 || f.channels >= 1) && WellFormedChunk(b)
    ensures DecodePayload(f, cursor, b, ts, pad1, pad2) == DecodeBySubRanges(f, cursor, b, ts, pad1, pad2)
  {
    var fa := FirstAccess(b);
    if fa <= 4 {
      SingleSubRange(f, cursor, b, ts, pad1, pad2);
    } else {
      TwoSubRanges(f, cursor, b, ts, pad1, pad2);
    }
  }

  lemma SingleSubRange(f: HeaderFields, cursor: nat, b: seq<byte>, ts: Option<nat>, pad1: Pad, pad2: Pad)
    requires (f.rate == 0 || f.channels >= 1) && WellFormedChunk(b) && FirstAccess(b) <= 4
    ensures DecodePayload(f, cursor, b, ts, pad1, pad2) == DecodeBySubRanges(f, cursor, b, ts, pad1, pad2)
  {
    var rs := SubRanges(FirstAccess(b), |b|);
    assert rs == [SubRange(5, |b|, false)];
    assert b[5..|b|] == b[5..];
    var r1 := ChainRawSpec(f, cursor, b[5..], None, pad1);
    assert b[..5] + r1.data + b[|b|..] == b[..5] + r1.data;
  }

  lemma TwoSubRanges(f: HeaderFields, cursor: nat, b: seq<byte>, ts: Option<nat>, pad1: Pad, pad2: Pad)
    requires (f.rate == 0 || f.channels >= 1) && WellFormedChunk(b) && FirstAccess(b) > 4
    ensures DecodePayload(f, cursor, b, ts, pad1, pad2) == DecodeBySubRanges(f, cursor, b, ts, pad1, pad2)
  {
    var fa := FirstAccess(b);
    var rs := SubRanges(fa, |b|);
    assert rs == [SubRange(5, fa + 1, false), SubRange(fa + 1, |b|, true)];
    var r1 := ChainRawSpec(f, cursor, b[5..fa + 1], None, pad1);
    var b1 := b[..5] + r1.data + b[fa + 1..];
    if r1.ret == Ok {
      assert b1[fa + 1..|b|] == b[fa + 1..];
      var r2 := ChainRawSpec(f, r1.cursor, b[fa + 1..], ts, pad2);
      assert b1[..fa + 1] + r2.data + b1[|b|..] == b[..5] + r1.data + r2.data;
    }
  }

  /** Decoding the payload never touches the 5-byte prefix and only pushes
      buffers. */
  lemma DecodePayloadOnlyPushes(f: HeaderFields, cursor: nat, b: seq<byte>, ts: Option<nat>, pad1: Pad, pad2: Pad)
    requires (f.rate == 0 || f.channels >= 1) && WellFormedChunk(b)
    ensures var r := DecodePayload(f, cursor, b, ts, pad1, pad2);
            && r.data[..5] == b[..5]
            && forall k :: 0 <= k < |r.events| ==> r.events[k].Push?
  {
  }

  /** The outcome of one call of the DVD chain function. */
  datatype DvdResult = DvdResult(state: DecoderState, events: seq<Event>, data: seq<byte>, ret: Flow)

  /** The outcome of the header check of the DVD chain function: whether
      the payload may be decoded, the new state and the caps proposal. */
  datatype HeaderCheck = HeaderCheck(accepted: bool, state: DecoderState, events: seq<Event>)

  /** Lines 334-358 on header word h: a word equal to the stored one
      changes nothing; another is parsed into the fields and its caps are
      proposed (capsOk is whether the source pad accepts them), and it is
      stored only when they are accepted. */
  function CheckHeaderSpec(st: DecoderState, h: nat, capsOk: bool): (c: HeaderCheck)
    requires h < 0x1000000
    ensures c.accepted <==> h == st.header || capsOk
    ensures c.state.timestamp == st.timestamp
    ensures c.state.header == if c.accepted then h else st.header
  {
    if h == st.header then HeaderCheck(true, st, [])
    else
      var f := ParseHeader(h);
      HeaderCheck(capsOk, DecoderState(f, st.timestamp, if capsOk then h else st.header), [SetSrcCaps(Some(CapsOf(f)))])
  }

  /** The format the payload of chunk b is decoded with from state st: a
      new header word is parsed; a repeated one keeps the stored format,
      which after a refused renegotiation is the refused word's parse. */
  function FormatFor(st: DecoderState, b: seq<byte>): (f: HeaderFields)
    requires |b| >= 5
    ensures HeaderWord(b) != st.header ==> ValidFields(f) && EncodeHeader(f) == RelevantBits(HeaderWord(b))
    ensures HeaderWord(b) == st.header ==> f == st.format
  {
    if HeaderWord(b) != st.header then
      EncodeParseRelevantBits(HeaderWord(b));
      ParseHeader(HeaderWord(b))
    else st.format
  }

  /** gst_dvdlpcmdec_chain_dvd (lines 308-422) on chunk b with timestamp ts:
      the header check, then, if it lets the chunk through, the payload
      decoded with the resulting format from the stored cursor. */
  function ChainDvdSpec(st: DecoderState, b: seq<byte>, ts: Option<nat>, capsOk: bool, pad1: Pad, pad2: Pad): (r: DvdResult)
    requires Usable(st) && WellFormedChunk(b)
    ensures |r.data| == |b|
    ensures r.ret == Ok ==> r.state.header == HeaderWord(b)
  {
    var c := CheckHeaderSpec(st, HeaderWord(b), capsOk);
    if !c.accepted then DvdResult(c.state, c.events, b, Error)
    else
      var f := c.state.format;
      assert f.rate == 0 || f.channels >= 1;
      var p := DecodePayload(f, st.timestamp, b, ts, pad1, pad2);
      DvdResult(c.state.(timestamp := p.cursor), c.events + p.events, p.data, p.ret)
  }

  /** What every call of the DVD chain function leaves behind: a usable
      format, the chunk's 5-byte prefix untouched, a new header word parsed
      and proposed before anything is pushed, a repeated one producing only
      pushes, and the header word stored exactly when it is the same or
      its caps were accepted. */
  lemma ChainDvdOutcome(st: DecoderState, b: seq<byte>, ts: Option<nat>, capsOk: bool, pad1: Pad, pad2: Pad)
    requires Usable(st) && WellFormedChunk(b)
    ensures var r := ChainDvdSpec(st, b, ts, capsOk, pad1, pad2);
            && Usable(r.state)
            && |r.data| == |b| && r.data[..5] == b[..5]
            && (HeaderWord(b) != st.header ==>
                  r.state.format == ParseHeader(HeaderWord(b)) && |r.events| >= 1
                  && r.events[0] == SetSrcCaps(Some(CapsOf(r.state.format))))
            && (HeaderWord(b) == st.header ==>
                  r.state.format == st.format && forall k :: 0 <= k < |r.events| ==> r.events[k].Push?)
            && r.state.header == if HeaderWord(b) == st.header || capsOk then HeaderWord(b) else st.header
  {
    if HeaderWord(b) == st.header || capsOk {
      DecodePayloadOnlyPushes(FormatFor(st, b), st.timestamp, b, ts, pad1, pad2);
    }
  }

  /** A refused header: the fields are already overwritten by the parse, but
      the stored header word and the cursor stay, the caps proposal is the
      only event and the chunk is dropped with a flow error. */
  lemma RefusedHeaderDropsChunk(st: DecoderState, b: seq<byte>, ts: Option<nat>, pad1: Pad, pad2: Pad)
    requires Usable(st) && WellFormedChunk(b) && HeaderWord(b) != st.header
    ensures var r := ChainDvdSpec(st, b, ts, false, pad1, pad2);
            && r.ret == Error
            && r.state == DecoderState(ParseHeader(HeaderWord(b)), st.timestamp, st.header)
            && r.events == [SetSrcCaps(Some(CapsOf(ParseHeader(HeaderWord(b)))))]
            && r.data == b
  {
  }

  /** Once negotiated, the chunk's payload is decoded with the parsed (or
      kept) format from the stored cursor, after at most one caps proposal. */
  lemma AcceptedHeaderDecodesPayload(st: DecoderState, b: seq<byte>, ts: Option<nat>, capsOk: bool, pad1: Pad, pad2: Pad)
    requires Usable(st) && WellFormedChunk(b) && (HeaderWord(b) == st.header || capsOk)
    ensures var r := ChainDvdSpec(st, b, ts, capsOk, pad1, pad2);
            var p := DecodePayload(FormatFor(st, b), st.timestamp, b, ts, pad1, pad2);
            && r.ret == p.ret && r.data == p.data && r.state.timestamp == p.cursor
            && |r.events| == |p.events| + (if HeaderWord(b) != st.header then 1 else 0)
            && r.events[|r.events| - |p.events|..] == p.events
  {
  }

    /** When the sub-range before the access unit fails, that flow is
      returned and the rest of the chunk is never handed on. */
  lemma FirstFailureStops(f: HeaderFields, cursor: nat, b: seq<byte>, ts: Option<nat>, pad1: Pad, pad2: Pad)
    requires (f.rate == 0 || f.channels >= 1) && WellFormedChunk(b) && FirstAccess(b) > 4
    requires ChainRawSpec(f, cursor, b[5..FirstAccess(b) + 1], None, pad1).ret != Ok
    ensures var r1 := ChainRawSpec(f, cursor, b[5..FirstAccess(b) + 1], None, pad1);
            var r := DecodePayload(f, cursor, b, ts, pad1, pad2);
            && r.ret == r1.ret
            && r.cursor == r1.cursor
            && r.events == PushEvents(r1)
            && r.data[FirstAccess(b) + 1..] == b[FirstAccess(b) + 1..]
  {
    var fa := FirstAccess(b);
    var r1 := ChainRawSpec(f, cursor, b[5..fa + 1], None, pad1);
    assert (b[..5] + r1.data + b[fa + 1..])[fa + 1..] == b[fa + 1..];
  }

  /** With a first-access offset of 0 to 4 the whole payload goes out as
      one sub-range without timestamp: the chunk's timestamp and the second
      call's answers play no part. */
  lemma SingleRangeWithoutTimestamp(f: HeaderFields, cursor: nat, b: seq<byte>, ts: Option<nat>, pad1: Pad, pad2: Pad, pad2': Pad)
    requires (f.rate == 0 || f.channels >= 1) && WellFormedChunk(b) && FirstAccess(b) <= 4
    ensures DecodePayload(f, cursor, b, ts, pad1, pad2) == DecodePayload(f, cursor, b, None, pad1, pad2')
  {
  }

  /** Once the bytes before the access unit went through, the bytes from
      the access unit on are pushed with the chunk's own timestamp, which
      also becomes the cursor. */
  lemma AccessUnitKeepsTimestamp(f: HeaderFields, cursor: nat, b: seq<byte>, t: nat, pad1: Pad, pad2: Pad)
    requires (f.rate == 0 || f.channels >= 1) && WellFormedChunk(b) && FirstAccess(b) > 4
    requires ChainRawSpec(f, cursor, b[5..FirstAccess(b) + 1], None, pad1).ret == Ok
    requires pad2.usable && (f.width == 20 ==> pad2.alloc == Ok)
    ensures var r := DecodePayload(f, cursor, b, Some(t), pad1, pad2);
            && r.ret == pad2.push
            && r.cursor == t
            && |r.events| >= 1 && r.events[|r.events| - 1].buffer.stamp == t
  {
  }

  /** After a reset the stored header word is 0, so a stream whose header
      word is 0 is never parsed: its chunks meet rate 0 and are refused as
      not negotiated, with nothing emitted. */
  lemma ZeroHeaderAfterReset(b: seq<byte>, ts: Option<nat>, capsOk: bool, pad1: Pad, pad2: Pad)
    requires WellFormedChunk(b) && HeaderWord(b) == 0
    ensures ChainDvdSpec(ResetState, b, ts, capsOk, pad1, pad2) == DvdResult(ResetState, [], b, NotNegotiated)
  {
    var fa := FirstAccess(b);
    if fa <= 4 {
      assert b[..5] + b[5..] == b;
    } else {
      assert b[..5] + b[5..fa + 1] + b[fa + 1..] == b;
    }
  }
}
