/**
  The bitrate fix-up rule and the output caps of the LAME MP3 encoder
  element (ext/lame/gstlamemp3enc.c).

  A bitrate property in kbit/s is snapped up to the grid of its band:
  multiples of 8 up to 64, of 16 up to 128, of 32 up to 256 and of 64 up
  to 320.  0 (meaning "let LAME choose") and values above 320 are left as
  they are.  A changed value raises a warning naming the band.
 */
module LameSettings {
  import opened Wrappers

  /** The band a bitrate falls in: the largest bitrate of the band and the
      grid step below it.  The macro starts from 320 and 64, which is what
      0 and values above 320 keep. */
  datatype Band = Band(maxrate: int, multiplier: int)

  function BandOf(rate: int): (b: Band)
    ensures b.multiplier in {8, 16, 32, 64} && b.maxrate % b.multiplier == 0
    ensures rate <= 320 ==> rate <= b.maxrate
  {
    if rate == 0 then Band(320, 64)
    else if rate <= 64 then Band(64, 8)
    else if rate <= 128 then Band(128, 16)
    else if rate <= 256 then Band(256, 32)
    else if rate <= 320 then Band(320, 64)
    else Band(320, 64)
  }

  /** GST_ROUND_UP_8/16/32/64: clears the low bits of x + n - 1, that is,
      rounds x up to a multiple of n (on two's-complement values clearing
      the low bits is floor division by n, negatives included). */
  function RoundUp(x: int, n: int): (r: int)
    requires n in {8, 16, 32, 64}
    ensures r % n == 0
  {
    (x + n - 1) / n * n
  }

  /** r is the least multiple of n that is not below x. */
  predicate LeastMultipleFrom(r: int, x: int, n: int)
    requires n > 0
  {
    && r % n == 0
    && x <= r < x + n
    && (forall m :: m >= x && m % n == 0 ==> m >= r)
  }

  /** RoundUp gives the least multiple of n that is not below x, and keeps
      a multiple of n. */
  lemma RoundUpLeastMultiple(x: int, n: int)
    requires n in {8, 16, 32, 64}
    ensures LeastMultipleFrom(RoundUp(x, n), x, n)
    ensures x % n == 0 ==> RoundUp(x, n) == x
  {
    if n == 8 {
      RoundUpBy8(x);
    } else if n == 16 {
      RoundUpBy16(x);
    } else if n == 32 {
      RoundUpBy32(x);
    } else {
      RoundUpBy64(x);
    }
  }

  lemma RoundUpBy8(x: int)
    ensures LeastMultipleFrom(RoundUp(x, 8), x, 8) && (x % 8 == 0 ==> RoundUp(x, 8) == x)
  {
    var q := (x + 7) / 8;
    assert x + 7 == 8 * q + (x + 7) % 8;
    forall m | m >= x && m % 8 == 0
      ensures m >= 8 * q
    {
      assert m == 8 * (m / 8);
    }
  }

  lemma RoundUpBy16(x: int)
    ensures LeastMultipleFrom(RoundUp(x, 16), x, 16) && (x % 16 == 0 ==> RoundUp(x, 16) == x)
  {
    var q := (x + 15) / 16;
    assert x + 15 == 16 * q + (x + 15) % 16;
    forall m | m >= x && m % 16 == 0
      ensures m >= 16 * q
    {
      assert m == 16 * (m / 16);
    }
  }

  lemma RoundUpBy32(x: int)
    ensures LeastMultipleFrom(RoundUp(x, 32), x, 32) && (x % 32 == 0 ==> RoundUp(x, 32) == x)
  {
    var q := (x + 31) / 32;
    assert x + 31 == 32 * q + (x + 31) % 32;
    forall m | m >= x && m % 32 == 0
      ensures m >= 32 * q
    {
      assert m == 32 * (m / 32);
    }
  }

  lemma RoundUpBy64(x: int)
    ensures LeastMultipleFrom(RoundUp(x, 64), x, 64) && (x % 64 == 0 ==> RoundUp(x, 64) == x)
  {
    var q := (x + 63) / 64;
    assert x + 63 == 64 * q + (x + 63) % 64;
    forall m | m >= x && m % 64 == 0
      ensures m >= 64 * q
    {
      assert m == 64 * (m / 64);
    }
  }

  /** The warning the macro raises: the requested and the granted bitrate,
      and the band's limits it cites. */
  datatype BitrateWarning = BitrateWarning(requested: int, granted: int, maxrate: int, multiplier: int)

  /** The outcome of the macro: the bitrate it stores and the warning it
      raises, if any. */
  datatype Fixup = Fixup(rate: int, warning: Option<BitrateWarning>)

  /** CHECK_AND_FIXUP_BITRATE (lines 395-425) on a requested bitrate. */
  function CheckAndFixupBitrate(rate: int): (r: Fixup)
    ensures r.warning.Some? <==> r.rate != rate
    ensures r.warning.Some? ==> r.warning.value == BitrateWarning(rate, r.rate, BandOf(rate).maxrate, BandOf(rate).multiplier)
  {
    var b := BandOf(rate);
    var fixed :=
      if rate == 0 || rate > 320 then rate
      else if rate % b.multiplier != 0 then RoundUp(rate, b.multiplier)
      else rate;
    if fixed != rate then Fixup(fixed, Some(BitrateWarning(rate, fixed, b.maxrate, b.multiplier)))
    else Fixup(rate, None)
  }

  /** 0 and bitrates above 320 are kept without a warning. */
  lemma FixupKeepsUnbanded(rate: int)
    requires rate == 0 || rate > 320
    ensures CheckAndFixupBitrate(rate) == Fixup(rate, None)
  {
  }

  /** Inside the bands the stored bitrate is the least multiple of the
      band's step that is not below the request, and it does not leave the
      band. */
  lemma FixupSnapsToBand(rate: int)
    requires rate != 0 && rate <= 320
    ensures var r, b := CheckAndFixupBitrate(rate).rate, BandOf(rate);
            && LeastMultipleFrom(r, rate, b.multiplier)
            && r <= b.maxrate
            && (rate > 0 ==> BandOf(r) == b)
  {
    RoundUpLeastMultiple(rate, BandOf(rate).multiplier);
  }

  /** A warning is raised exactly for a banded bitrate off its band's grid. */
  lemma FixupWarnsOffGrid(rate: int)
    ensures CheckAndFixupBitrate(rate).warning.Some?
            <==> rate != 0 && rate <= 320 && rate % BandOf(rate).multiplier != 0
  {
    if rate != 0 && rate <= 320 {
      RoundUpLeastMultiple(rate, BandOf(rate).multiplier);
    }
  }

  /** The fix-up is idempotent: a stored bitrate passes it again unchanged
      and without a warning. */
  lemma FixupIdempotent(rate: int)
    ensures var r := CheckAndFixupBitrate(rate).rate;
            CheckAndFixupBitrate(r) == Fixup(r, None)
  {
    if rate != 0 && rate <= 320 {
      FixupSnapsToBand(rate);
      var r := CheckAndFixupBitrate(rate).rate;
      if r != 0 && r <= 320 {
        FixupWarnsOffGrid(r);
        if r < 0 {
          assert BandOf(r).multiplier == 8 && r % 8 == 0;
        }
      }
    }
  }

  /** Every bitrate from 257 to 320 becomes 320. */
  lemma FixupTopBand(rate: int)
    requires 257 <= rate <= 320
    ensures CheckAndFixupBitrate(rate).rate == 320
  {
    FixupSnapsToBand(rate);
  }

  /** lame_get_version's answer (0 MPEG-2, 1 MPEG-1, 2 MPEG-2.5) remapped to
      the caps field mpegaudioversion (lines 342-348); other values pass
      through. */
  function MpegAudioVersion(version: int): (v: int)
    ensures version in {0, 1, 2} ==> v in {1, 2, 3} && LameVersionOf(v) == version
    ensures version !in {0, 1, 2} ==> v == version
  {
    if version == 0 then 2
    else if version == 1 then 1
    else if version == 2 then 3
    else version
  }

  /** The inverse of the remap on the three known versions. */
  function LameVersionOf(mpegAudioVersion: int): (version: int)
    requires mpegAudioVersion in {1, 2, 3}
  {
    if mpegAudioVersion == 2 then 0
    else if mpegAudioVersion == 1 then 1
    else 2
  }

  /** The remap is a bijection from LAME's versions {0, 1, 2} onto the caps
      versions {1, 2, 3}, and the identity elsewhere. */
  lemma MpegAudioVersionBijective(version: int, mpegAudioVersion: int)
    ensures version in {0, 1, 2} ==>
              MpegAudioVersion(version) in {1, 2, 3} && LameVersionOf(MpegAudioVersion(version)) == version
    ensures mpegAudioVersion in {1, 2, 3} ==>
              LameVersionOf(mpegAudioVersion) in {0, 1, 2} && MpegAudioVersion(LameVersionOf(mpegAudioVersion)) == mpegAudioVersion
    ensures version !in {0, 1, 2} ==> MpegAudioVersion(version) == version
  {
  }

  /** The caps the encoder sets on its source pad (lines 350-355). */
  datatype Mp3Caps = Mp3Caps(mpegVersion: int, mpegAudioVersion: int, layer: int, channels: int, rate: int)

  /** The tail of gst_lamemp3enc_set_format (lines 333-355): a zero output
      sample rate is an error, else MPEG-1 layer 3 caps with the remapped
      version, one channel when mono is set, and the output rate. */
  function OutputCaps(outRate: int, version: int, mono: bool, numChannels: int): (c: Option<Mp3Caps>)
    ensures c.None? <==> outRate == 0
  {
    if outRate == 0 then None
    else Some(Mp3Caps(1, MpegAudioVersion(version), 3, if mono then 1 else numChannels, outRate))
  }

  /** What the caps promise: MPEG-1 layer 3 at the output rate; one channel
      exactly when mono is set or the input has one channel; and a known
      LAME version always gives a version 1, 2 or 3 stream. */
  lemma OutputCapsDescribeStream(outRate: int, version: int, mono: bool, numChannels: int)
    requires outRate != 0
    ensures var c := OutputCaps(outRate, version, mono, numChannels).value;
            && c.mpegVersion == 1 && c.layer == 3 && c.rate == outRate
            && (c.channels == 1 <==> mono || numChannels == 1)
            && (!mono ==> c.channels == numChannels)
            && (version in {0, 1, 2} ==> c.mpegAudioVersion in {1, 2, 3})
  {
  }
}
