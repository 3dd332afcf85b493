/**
  The GstDvdLpcmDec element of gst/dvdlpcmdec/gstdvdlpcmdec.c as an object:
  the fields of its instance structure, the sink caps handler, reset,
  update_timestamps and the two chain functions, each proved to do what
  the specification functions of LpcmDecoder describe.
 */
module LpcmElement {
  import opened Bytes
  import opened LpcmHeader
  import opened LpcmConvert
  import opened LpcmDecoder
  import opened Wrappers

  /** Caps offered on the sink pad: DVD-framed chunks, or raw LPCM with the
      fields the caps structure holds (a missing field is None). */
  datatype SinkCaps =
    | DvdFramed
    | RawLpcm(rate: Option<nat>, channels: Option<nat>, width: Option<int>,
              dynamicRange: Option<int>, emphasis: Option<bool>, mute: Option<bool>)

  /** The sink pad template (lines 40-52): only these values reach setcaps. */
  predicate WithinSinkTemplate(c: SinkCaps)
  {
    c.RawLpcm? ==>
      && (c.rate.Some? ==> c.rate.value in {48000, 96000})
      && (c.channels.Some? ==> 1 <= c.channels.value <= 8)
      && (c.width.Some? ==> c.width.value in {16, 20, 24})
      && (c.dynamicRange.Some? ==> 0 <= c.dynamicRange.value < 256)
  }

  /** Every field the raw caps must carry is present. */
  predicate Complete(c: SinkCaps)
    requires c.RawLpcm?
  {
    c.rate.Some? && c.channels.Some? && c.width.Some? && c.dynamicRange.Some? && c.emphasis.Some? && c.mute.Some?
  }

  /** A caps field if present, else the current value. */
  function Or<T>(o: Option<T>, current: T): T
  {
    if o.Some? then o.value else current
  }

  /** The raw branch of setcaps (lines 199-217): each field present in the
      caps is stored, whether or not the others are; only when all are
      present is the output width derived from the input width. */
  function ApplyRawCaps(f: HeaderFields, c: SinkCaps): (r: HeaderFields)
    requires c.RawLpcm?
    ensures Complete(c) ==> r.outWidth == OutWidthFor(r.width)
    ensures !Complete(c) ==> r.outWidth == f.outWidth
  {
    var g := HeaderFields(Or(c.dynamicRange, f.dynamicRange), Or(c.mute, f.mute), Or(c.emphasis, f.emphasis),
                          Or(c.width, f.width), f.outWidth, Or(c.rate, f.rate), Or(c.channels, f.channels));
    if Complete(c) then g.(outWidth := OutWidthFor(g.width)) else g
  }

  /** Complete raw caps within the template configure exactly the format a
      DVD header word could carry: the format round-trips through the header
      encoding, and the output width is 16 or 24. */
  lemma RawCapsAgreeWithHeader(f: HeaderFields, c: SinkCaps)
    requires c.RawLpcm? && WithinSinkTemplate(c) && Complete(c)
    ensures ValidFields(ApplyRawCaps(f, c))
    ensures ParseHeader(EncodeHeader(ApplyRawCaps(f, c))) == ApplyRawCaps(f, c)
    ensures ApplyRawCaps(f, c).outWidth in {16, 24}
  {
    ParseEncodeRoundTrip(ApplyRawCaps(f, c));
  }

  class Decoder {
    var rate: nat
    var channels: nat
    var width: int
    var outWidth: int
    var dynamicRange: int
    var emphasis: bool
    var mute: bool
    /** The timestamp cursor. */
    var timestamp: nat
    /** The last header word whose caps were accepted. */
    var header: int
    /** Whether the sink pad's chain function is the DVD one. */
    var framed: bool
    /** Everything done on the source pad so far. */
    var sent: seq<Event>

    function Format(): HeaderFields
      reads this
    {
      HeaderFields(dynamicRange, mute, emphasis, width, outWidth, rate, channels)
    }

    function State(): DecoderState
      reads this
    {
      DecoderState(Format(), timestamp, header)
    }

    /** gst_dvdlpcmdec_init: the pads are made and the element is reset. */
    constructor()
      ensures State() == ResetState && sent == [SetSrcCaps(None)] && !framed
    {
      rate, channels, width, outWidth := 0, 0, 0, 0;
      dynamicRange, emphasis, mute := 0, false, false;
      timestamp, header := 0, 0;
      framed := false;
      sent := [SetSrcCaps(None)];
    }

    /** gst_dvdlpcm_reset (lines 143-158): every format field, the cursor and
        the stored header are zeroed and the source caps cleared. */
    method Reset()
      modifies this
      ensures State() == ResetState
      ensures sent == old(sent) + [SetSrcCaps(None)] && framed == old(framed)
    {
      rate := 0;
      channels := 0;
      width := 0;
      outWidth := 0;
      dynamicRange := 0;
      emphasis := false;
      mute := false;
      timestamp := 0;
      header := 0;
      sent := sent + [SetSrcCaps(None)];
    }

    /** gst_dvdlpcmdec_setcaps (lines 178-254): DVD-framed caps only select
        the DVD chain function; raw caps select the raw one, store the
        fields and, when all are present, propose source caps, whose
        acceptance (srcAccepts) is the result. */
    method SetCaps(caps: SinkCaps, srcAccepts: bool) returns (res: bool)
      requires WithinSinkTemplate(caps)
      modifies this
      ensures framed == caps.DvdFramed?
      ensures timestamp == old(timestamp) && header == old(header)
      ensures caps.DvdFramed? ==> res && Format() == old(Format()) && sent == old(sent)
      ensures caps.RawLpcm? ==>
                && Format() == ApplyRawCaps(old(Format()), caps)
                && res == (Complete(caps) && srcAccepts)
                && sent == old(sent) + if Complete(caps) then [SetSrcCaps(Some(CapsOf(Format())))] else []
    {
      if caps.DvdFramed? {
        framed := true;
        return true;
      }
      framed := false;
      StoreFields(caps);
      if !Complete(caps) {
        return false;
      }
      outWidth := if width == 20 then 24 else width;
      sent := sent + [SetSrcCaps(Some(SrcCaps(rate, channels, outWidth)))];
      res := srcAccepts;
    }

    /** The field reads of setcaps (lines 199-210): each field present in
        the caps is stored, the others keep their value. */
    method StoreFields(caps: SinkCaps)
      requires caps.RawLpcm?
      modifies this
      ensures Format() == ApplyRawCaps(old(Format()), caps).(outWidth := old(outWidth))
      ensures timestamp == old(timestamp) && header == old(header) && framed == old(framed) && sent == old(sent)
    {
      rate, channels, width := Or(caps.rate, rate), Or(caps.channels, channels), Or(caps.width, width);
      dynamicRange, emphasis, mute := Or(caps.dynamicRange, dynamicRange), Or(caps.emphasis, emphasis), Or(caps.mute, mute);
    }

    /** update_timestamps (lines 257-266) for a buffer with timestamp ts
        holding `samples` frames: returns the stamp and duration it is
        given and moves the cursor. */
    method UpdateTimestamps(ts: Option<nat>, samples: nat) returns (stamp: nat, duration: nat)
      requires rate > 0
      modifies this
      ensures Format() == old(Format()) && header == old(header) && framed == old(framed) && sent == old(sent)
      ensures duration == Duration(samples, old(rate))
      ensures (stamp, timestamp) == LpcmDecoder.UpdateTimestamps(ts, old(timestamp), duration)
    {
      duration := samples * Second / rate;
      QuotIsDiv(samples * Second, rate);
      if ts.Some? {
        timestamp := ts.value;
        stamp := ts.value;
      } else {
        timestamp := timestamp + duration;
        stamp := timestamp;
      }
    }

    /** gst_dvdlpcmdec_chain_raw (lines 426-584) on the bytes buf[off..off+len]
        with timestamp ts; pad holds the pipeline's answers. */
    method ChainRaw(buf: array<byte>, off: nat, len: nat, ts: Option<nat>, pad: Pad) returns (ret: Flow)
      requires off + len <= buf.Length && Usable(State())
      modifies this, buf
      ensures var r := ChainRawSpec(old(Format()), old(timestamp), old(buf[off..off + len]), ts, pad);
              && ret == r.ret
              && timestamp == r.cursor
              && sent == old(sent) + PushEvents(r)
              && buf[..] == old(buf[..off]) + r.data + old(buf[off + len..])
      ensures Format() == old(Format()) && header == old(header) && framed == old(framed)
    {
      ghost var s := buf[off..off + len];
      assert buf[..] == buf[..off] + s + buf[off + len..];
      if rate == 0 {
        return NotNegotiated;
      }
      if !pad.usable {
        return NotLinked;
      }
      if width !in {16, 20, 24} {
        return NotNegotiated;
      }
      if width == 20 && pad.alloc != Ok {
        return pad.alloc;
      }
      var data, samples := ConvertSamples(buf, off, len);
      var stamp, duration := UpdateTimestamps(ts, samples);
      sent := sent + [Push(OutBuffer(data, stamp, duration))];
      ret := pad.push;
    }

    /** The switch on the width at lines 449-546 once every check has
        passed: the bytes to push and their sample count.  16-bit bytes pass
        through, 20-bit bytes are expanded into a new buffer, 24-bit bytes
        are reordered in place. */
    method ConvertSamples(buf: array<byte>, off: nat, len: nat) returns (data: seq<byte>, samples: nat)
      requires off + len <= buf.Length && width in {16, 20, 24} && channels >= 1
      modifies buf
      ensures data == RawOutput(width, old(buf[off..off + len]))
      ensures samples == SamplesAsWritten(width, channels, len)
      ensures buf[..] == old(buf[..off]) + (if width == 24 then data else old(buf[off..off + len])) + old(buf[off + len..])
    {
      ghost var b := buf[..];
      ghost var s := buf[off..off + len];
      samples := CountSamples(len);
      if width == 16 {
        data := buf[off..off + len];
        assert buf[..] == buf[..off] + data + buf[off + len..];
      } else if width == 20 {
        var dest := Expand20Into(buf, off, len);
        data := dest[..];
        assert buf[..] == buf[..off] + s + buf[off + len..];
      } else {
        Reorder24InPlace(buf, off, len);
        Splice(b, Reorder24(s), off, off + len);
        data := buf[off..off + len];
      }
      assert data == RawOutput(width, s);
    }

    /** The per-channel sample count the width paths leave in `samples`
        (line 432) for a buffer of len bytes (lines 454, 461 and 478, 515).
        The 20-bit path computes its count into a local of its own that
        hides `samples`, so `samples` keeps its initial 0. */
    method CountSamples(len: nat) returns (samples: nat)
      requires width in {16, 20, 24} && channels >= 1
      ensures samples == SamplesAsWritten(width, channels, len)
    {
      samples := 0;
      if width == 16 {
        samples := len / channels / 2;
        QuotIsDiv(len, channels);
      } else if width == 20 {
        var hidden := len * 8 / 20;
        hidden := hidden / channels;
        QuotIsDiv(len * 8 / 20, channels);
        assert hidden == Samples(width, channels, len);
      } else {
        samples := len / channels / 3;
        QuotIsDiv(len, channels);
      }
    }

    /** Lines 336-351: parse_header stores the fields of header word h and
        the caps they describe are proposed on the source pad. */
    method ProposeHeader(h: nat)
      requires h < 0x1000000
      modifies this
      ensures Format() == ParseHeader(h)
      ensures sent == old(sent) + [SetSrcCaps(Some(CapsOf(ParseHeader(h))))]
      ensures timestamp == old(timestamp) && header == old(header) && framed == old(framed)
    {
      var f := ParseHeader(h);
      rate, channels, width, outWidth := f.rate, f.channels, f.width, f.outWidth;
      dynamicRange, emphasis, mute := f.dynamicRange, f.emphasis, f.mute;
      sent := sent + [SetSrcCaps(Some(SrcCaps(rate, channels, outWidth)))];
    }

    /** Lines 334-358: a header word that differs from the stored one is
        parsed and its caps proposed; it is stored only when the source pad
        accepts them (capsOk).  Returns whether the chunk may be decoded. */
    method CheckHeader(h: nat, capsOk: bool) returns (accepted: bool)
      requires h < 0x1000000
      modifies this
      ensures var c := CheckHeaderSpec(old(State()), h, capsOk);
              && accepted == c.accepted
              && State() == c.state
              && sent == old(sent) + c.events
      ensures framed == old(framed)
    {
      if h != header {
        ProposeHeader(h);
        if !capsOk {
          return false;
        }
        header := h;
      }
      return true;
    }

    /** gst_dvdlpcmdec_chain_dvd (lines 308-422) on the chunk in buf with
        timestamp ts: capsOk is whether the source pad accepts new caps,
        pad1 and pad2 the pipeline's answers during the two raw calls. */
    method ChainDvd(buf: array<byte>, ts: Option<nat>, capsOk: bool, pad1: Pad, pad2: Pad) returns (ret: Flow)
      requires WellFormedChunk(buf[..]) && Usable(State())
      modifies this, buf
      ensures var r := ChainDvdSpec(old(State()), old(buf[..]), ts, capsOk, pad1, pad2);
              && ret == r.ret
              && State() == r.state
              && sent == old(sent) + r.events
              && buf[..] == r.data
      ensures framed == old(framed)
    {
      ghost var b := buf[..];
      ghost var st := State();
      var h := buf[2] as int * 0x10000 + buf[3] as int * 0x100 + buf[4] as int;
      assert h == HeaderWord(b);
      var accepted := CheckHeader(h, capsOk);
      if accepted {
        ret := DecodePayloadInto(buf, ts, pad1, pad2);
      } else {
        ret := Error;
      }
    }

    /** Lines 367-407: the sub-ranges of the chunk in buf handed to the raw
        chain function in order, stopping after the first that does not
        return OK. */
    method DecodePayloadInto(buf: array<byte>, ts: Option<nat>, pad1: Pad, pad2: Pad) returns (ret: Flow)
      requires WellFormedChunk(buf[..]) && Usable(State())
      modifies this, buf
      ensures var p := DecodePayload(old(Format()), old(timestamp), old(buf[..]), ts, pad1, pad2);
              && ret == p.ret
              && timestamp == p.cursor
              && sent == old(sent) + p.events
              && buf[..] == p.data
      ensures Format() == old(Format()) && header == old(header) && framed == old(framed)
    {
      ghost var b := buf[..];
      var size := buf.Length;
      var firstAccess := buf[0] as int * 0x100 + buf[1] as int;
      assert firstAccess == FirstAccess(b);
      if firstAccess > 4 {
        ret := DecodeTwoRanges(buf, firstAccess, ts, pad1, pad2);
      } else {
        ret := ChainRaw(buf, 5, size - 5, None, pad1);
        assert b[5..] == b[5..5 + (size - 5)];
      }
    }

    /** Lines 371-400: first_access above 4 splits the payload at the access
        unit; the bytes before it go out without timestamp and, if that
        succeeds, the rest with the chunk's timestamp. */
    method DecodeTwoRanges(buf: array<byte>, firstAccess: nat, ts: Option<nat>, pad1: Pad, pad2: Pad) returns (ret: Flow)
      requires WellFormedChunk(buf[..]) && Usable(State()) && firstAccess == FirstAccess(buf[..]) > 4
      modifies this, buf
      ensures var p := DecodePayload(old(Format()), old(timestamp), old(buf[..]), ts, pad1, pad2);
              && ret == p.ret
              && timestamp == p.cursor
              && sent == old(sent) + p.events
              && buf[..] == p.data
      ensures Format() == old(Format()) && header == old(header) && framed == old(framed)
    {
      ghost var b := buf[..];
      var size := buf.Length;
      var off := 5;
      var len := firstAccess - 4;
      ghost var r1 := ChainRawSpec(Format(), timestamp, b[off..off + len], None, pad1);
      ret := ChainRaw(buf, off, len, None, pad1);
      Splice(b, r1.data, off, off + len);
      if ret != Ok {
        return;
      }
      ghost var b1 := buf[..];
      off := off + len;
      len := size - off;
      assert b1[off..off + len] == b[firstAccess + 1..];
      ghost var r2 := ChainRawSpec(Format(), timestamp, b[firstAccess + 1..], ts, pad2);
      ret := ChainRaw(buf, off, len, ts, pad2);
      assert buf[..] == b[..5] + r1.data + r2.data;
    }
  }
}
