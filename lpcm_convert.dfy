/**
  The sample-layout conversions of gst_dvdlpcmdec_chain_raw
  (gst/dvdlpcmdec/gstdvdlpcmdec.c): DVD 20-bit groups of 10 bytes expanded
  to 12 bytes of 24-bit big-endian samples, and DVD 24-bit groups of
  12 bytes reordered in place.

  A DVD group holds four samples A, B, C, D (two stereo frames).  The two
  high bytes of each sample come first, in order (bytes 0..7); the
  low-order bits of all four samples follow: for 20-bit, two bytes of
  nibbles (A|B, C|D); for 24-bit, four bytes (A, B, C, D).
 */
module LpcmConvert {
  import opened Bytes

  // ---------------------------------------------------------------------
  // 20-bit groups
  // ---------------------------------------------------------------------

  /** The low nibble of the k-th 20-bit sample of a DVD group: the high
      nibble of byte 8 + k/2 for even k, its low nibble for odd k. */
  function LowNibble20(g: seq<byte>, k: nat): (n: byte)
    requires |g| == 10 && k < 4
    ensures n < 0x10
  {
    if k % 2 == 0 then HighNibbleDown(g[8 + k / 2]) else LowNibble(g[8 + k / 2])
  }

  /** The 10-to-12 byte map of the loop at lines 485-501, exactly as written:
      output byte 8 takes the LOW nibble of input byte 9. */
  function Expand20GroupAsWritten(g: seq<byte>): (r: seq<byte>)
    requires |g| == 10
    ensures |r| == 12
  {
    [g[0], g[1], HighNibble(g[8]), g[2], g[3], LowNibbleUp(g[8]),
     g[4], g[5], LowNibble(g[9]), g[6], g[7], LowNibbleUp(g[9])]
  }

  /** The map with output byte 8 taking the HIGH nibble of input byte 9,
      as for output byte 2 and input byte 8: every output sample is the
      input sample padded with a zero nibble. */
  function Expand20Group(g: seq<byte>): (r: seq<byte>)
    requires |g| == 10
    ensures |r| == 12
  {
    [g[0], g[1], HighNibble(g[8]), g[2], g[3], LowNibbleUp(g[8]),
     g[4], g[5], HighNibble(g[9]), g[6], g[7], LowNibbleUp(g[9])]
  }

  /** Sample k of the expanded group is the 20-bit sample k of the input
      group followed by a zero nibble. */
  lemma Expand20GroupSample(g: seq<byte>, k: nat)
    requires |g| == 10 && k < 4
    ensures Expand20Group(g)[3 * k..3 * k + 3] == [g[2 * k], g[2 * k + 1], LowNibble20(g, k) * 16]
  {
  }

  /** Inverse of the expansion: drop the zero nibbles and pack the four
      low nibbles back into bytes 8 and 9. */
  function Pack20Group(r: seq<byte>): (g: seq<byte>)
    requires |r| == 12
    ensures |g| == 10
  {
    [r[0], r[1], r[3], r[4], r[6], r[7], r[9], r[10],
     HighNibble(r[2]) + HighNibbleDown(r[5]), HighNibble(r[8]) + HighNibbleDown(r[11])]
  }

  /** The expansion loses nothing: packing its output restores the group. */
  lemma Pack20GroupRoundTrip(g: seq<byte>)
    requires |g| == 10
    ensures Pack20Group(Expand20Group(g)) == g
  {
  }

  /** The group used to show the two maps apart: sample C has low nibble 0x5,
      sample D has low nibble 0xA. */
  const NibbleProbe: seq<byte> := [0x11, 0x22, 0x33, 0x44, 0x55, 0x66, 0x77, 0x88, 0xA5, 0x5A]

  /** The map as written gives sample C of NibbleProbe the low byte 0x0A
      instead of 0x50, and NibbleProbe expands exactly like a group that
      differs from it in that nibble, so the original cannot be recovered. */
  lemma Expand20GroupAsWrittenLosesNibble()
    ensures LowNibble20(NibbleProbe, 2) * 16 == 0x50
    ensures Expand20GroupAsWritten(NibbleProbe)[8] == 0x0A
    ensures Expand20Group(NibbleProbe)[8] == 0x50
    ensures NibbleProbe[9 := 0x0A] != NibbleProbe
    ensures Expand20GroupAsWritten(NibbleProbe[9 := 0x0A]) == Expand20GroupAsWritten(NibbleProbe)
  {
    assert NibbleProbe[9 := 0x0A][9] != NibbleProbe[9];
  }

  /** The map as written is the intended one except at output byte 8,
      which holds the low nibble of input byte 9 instead of its high
      nibble. */
  lemma Expand20GroupAsWrittenByte8(g: seq<byte>)
    requires |g| == 10
    ensures Expand20GroupAsWritten(g) == Expand20Group(g)[8 := LowNibble(g[9])]
  {
  }

  /** Packing a group expanded as written gives back the group with the
      high nibble of byte 9 cleared: that nibble is all the map loses. */
  lemma Pack20GroupAsWritten(g: seq<byte>)
    requires |g| == 10
    ensures Pack20Group(Expand20GroupAsWritten(g)) == g[..9] + [LowNibble(g[9])]
  {
  }

  /** All full 10-byte groups of a buffer expanded by the loop as written;
      a trailing partial group produces nothing. */
  function Expand20(s: seq<byte>): (r: seq<byte>)
    ensures |r| == 12 * (|s| / 10)
    decreases |s|
  {
    if |s| < 10 then [] else Expand20GroupAsWritten(s[..10]) + Expand20(s[10..])
  }

  /** All full 10-byte groups expanded by the intended map. */
  function Expand20Intended(s: seq<byte>): (r: seq<byte>)
    ensures |r| == 12 * (|s| / 10)
    decreases |s|
  {
    if |s| < 10 then [] else Expand20Group(s[..10]) + Expand20Intended(s[10..])
  }

  /** The input bytes with the high nibble of byte 9 of every full group
      cleared; a trailing partial group is dropped. */
  function DropHigh9(s: seq<byte>): (r: seq<byte>)
    ensures |r| == 10 * (|s| / 10)
    decreases |s|
  {
    if |s| < 10 then [] else s[..9] + [LowNibble(s[9])] + DropHigh9(s[10..])
  }

  /** Byte j of DropHigh9 is input byte j, with the high nibble cleared
      when j is byte 9 of its group. */
  lemma {:induction false} DropHigh9At(s: seq<byte>, j: nat)
    requires j < 10 * (|s| / 10)
    ensures DropHigh9(s)[j] == if j % 10 == 9 then LowNibble(s[j]) else s[j]
    decreases |s|
  {
    if j >= 10 {
      DropHigh9At(s[10..], j - 10);
      assert DropHigh9(s)[j] == DropHigh9(s[10..])[j - 10];
    }
  }

  /** Byte 12*i + k of the expansion is byte k of the expanded group i. */
  lemma {:induction false} Expand20At(s: seq<byte>, i: nat, k: nat)
    requires i < |s| / 10 && k < 12
    ensures 12 * i + k < |Expand20(s)|
    ensures Expand20(s)[12 * i + k] == ExpandedByte(s, 10 * i, k)
  {
    if i > 0 {
      var t := s[10..];
      Expand20At(t, i - 1, k);
      assert Expand20(s)[12 * i + k] == Expand20(t)[12 * (i - 1) + k];
      assert t == s[10..10 + |t|];
      ExpandedByteInSlice(s, 10, |t|, 10 * (i - 1), k);
    } else {
      assert s[..10][8] == s[8] && s[..10][9] == s[9];
    }
  }

  /** The trailing partial group does not take part in the expansion. */
  lemma {:induction false} Expand20IgnoresTail(s: seq<byte>)
    ensures Expand20(s[..10 * (|s| / 10)]) == Expand20(s)
    decreases |s|
  {
    if |s| >= 10 {
      var t := s[10..];
      Expand20IgnoresTail(t);
      assert |t| / 10 == |s| / 10 - 1;
      var p := s[..10 * (|s| / 10)];
      assert |p| >= 10 && |p| / 10 == |s| / 10;
      assert p[..10] == s[..10];
      assert p[10..] == t[..10 * (|t| / 10)];
    }
  }

  /** Inverse of the intended expansion on whole groups (see Pack20RoundTrip). */
  function Pack20(r: seq<byte>): (s: seq<byte>)
    ensures |s| == 10 * (|r| / 12)
    decreases |r|
  {
    if |r| < 12 then [] else Pack20Group(r[..12]) + Pack20(r[12..])
  }

  /** The intended whole-buffer expansion loses nothing: packing it back
      restores every full group of the input. */
  lemma {:induction false} Pack20RoundTrip(s: seq<byte>)
    ensures Pack20(Expand20Intended(s)) == s[..10 * (|s| / 10)]
    decreases |s|
  {
    if |s| >= 10 {
      var r := Expand20Intended(s);
      assert r[..12] == Expand20Group(s[..10]);
      assert r[12..] == Expand20Intended(s[10..]);
      Pack20GroupRoundTrip(s[..10]);
      Pack20RoundTrip(s[10..]);
      assert s[..10 * (|s| / 10)] == s[..10] + s[10..][..10 * (|s[10..]| / 10)];
    }
  }

  /** The expansion as written packs back to the input with the high nibble
      of byte 9 of every group cleared. */
  lemma {:induction false} Pack20AsWritten(s: seq<byte>)
    ensures Pack20(Expand20(s)) == DropHigh9(s)
    decreases |s|
  {
    if |s| >= 10 {
      var r := Expand20(s);
      assert r[..12] == Expand20GroupAsWritten(s[..10]);
      assert r[12..] == Expand20(s[10..]);
      Pack20GroupAsWritten(s[..10]);
      Pack20AsWritten(s[10..]);
      assert s[..10][..9] == s[..9];
    }
  }

  /** Two buffers that differ only in the high nibble of a byte 9 expand to
      the same bytes as written: NibbleProbe and its copy with byte 9 0x0A. */
  lemma Expand20NotInjective()
    ensures NibbleProbe[9 := 0x0A] != NibbleProbe
    ensures Expand20(NibbleProbe[9 := 0x0A]) == Expand20(NibbleProbe)
  {
    var t := NibbleProbe[9 := 0x0A];
    assert t[9] != NibbleProbe[9];
    assert t[..10] == t && NibbleProbe[..10] == NibbleProbe;
    Expand20GroupAsWrittenLosesNibble();
  }

  /** Length of the buffer the 20-bit path allocates: three bytes per
      20-bit sample, with size * 8 / 20 samples. */
  function Expanded20Length(size: nat): nat
  {
    3 * (size * 8 / 20)
  }

  /** The allocated buffer always has room for every expanded group; the two
      lengths agree when the input holds whole groups. */
  lemma Expanded20LengthFits(size: nat)
    ensures 12 * (size / 10) <= Expanded20Length(size)
    ensures size % 10 == 0 ==> 12 * (size / 10) == Expanded20Length(size)
  {
    var q, r := size / 10, size % 10;
    assert size * 8 == 20 * (4 * q) + 8 * r;
    assert size * 8 / 20 == 4 * q + (8 * r) / 20;
  }

  /** Zero bytes, the content of a freshly allocated buffer in this model. */
  function Zeros(n: nat): (z: seq<byte>)
    ensures |z| == n && forall j :: 0 <= j < n ==> z[j] == 0
  {
    if n == 0 then [] else [0] + Zeros(n - 1)
  }

  /** The 20-bit path's output: the expanded groups, then the allocated
      bytes the loop does not write. */
  function Output20(s: seq<byte>): (r: seq<byte>)
    ensures |r| == Expanded20Length(|s|)
    ensures r[..12 * (|s| / 10)] == Expand20(s)
  {
    Expanded20LengthFits(|s|);
    Expand20(s) + Zeros(Expanded20Length(|s|) - 12 * (|s| / 10))
  }

  /** Byte k of the expansion of the group at x[base..base+10], as stored
      by the loop body at lines 486-497: bytes 2, 5 and 11 carry a sample's
      low nibble shifted up, byte 8 the low nibble of input byte 9, the
      others are the two high bytes of sample k / 3. */
  function ExpandedByte(x: seq<byte>, base: nat, k: nat): (b: byte)
    requires base + 10 <= |x| && k < 12
    ensures b == Expand20GroupAsWritten(x[base..base + 10])[k]
  {
    match k
    case 0 => x[base]
    case 1 => x[base + 1]
    case 2 => HighNibble(x[base + 8])
    case 3 => x[base + 2]
    case 4 => x[base + 3]
    case 5 => LowNibbleUp(x[base + 8])
    case 6 => x[base + 4]
    case 7 => x[base + 5]
    case 8 => LowNibble(x[base + 9])
    case 9 => x[base + 6]
    case 10 => x[base + 7]
    case _ => LowNibbleUp(x[base + 9])
  }

  /** ExpandedByte reads the same bytes through a slice. */
  lemma ExpandedByteInSlice(x: seq<byte>, off: nat, len: nat, base: nat, k: nat)
    requires off + len <= |x| && base + 10 <= len && k < 12
    ensures ExpandedByte(x[off..off + len], base, k) == ExpandedByte(x, off + base, k)
  {
    var y := x[off..off + len];
    assert y[base + 8] == x[off + base + 8] && y[base + 9] == x[off + base + 9];
  }

  /** Byte 12*i + k of the 20-bit output is byte k of the expansion of input
      group i. */
  lemma Output20At(s: seq<byte>, i: nat, k: nat)
    requires i < |s| / 10 && k < 12
    ensures 12 * i + k < |Output20(s)|
    ensures Output20(s)[12 * i + k] == ExpandedByte(s, 10 * i, k)
  {
    Expand20At(s, i, k);
    assert Output20(s)[..12 * (|s| / 10)][12 * i + k] == Output20(s)[12 * i + k];
  }

  /** Output20At for a buffer that is a slice of a larger one. */
  lemma Output20AtIn(x: seq<byte>, off: nat, len: nat, i: nat, k: nat)
    requires off + len <= |x| && i < len / 10 && k < 12
    ensures 12 * i + k < |Output20(x[off..off + len])|
    ensures Output20(x[off..off + len])[12 * i + k] == ExpandedByte(x, off + 10 * i, k)
  {
    Output20At(x[off..off + len], i, k);
    ExpandedByteInSlice(x, off, len, 10 * i, k);
  }

  /** Past the expanded groups the 20-bit output holds zeros. */
  lemma Output20Zero(s: seq<byte>, j: nat)
    requires 12 * (|s| / 10) <= j < Expanded20Length(|s|)
    ensures Output20(s)[j] == 0
  {
  }

  /** The body of the loop at lines 485-501: the group at src[p..p+10]
      expanded into dest[q..q+12]; the rest of dest stays. */
  method Expand20GroupInto(src: array<byte>, p: nat, dest: array<byte>, q: nat)
    requires p + 10 <= src.Length && q + 12 <= dest.Length && src != dest
    modifies dest
    ensures forall k :: 0 <= k < 12 ==> dest[q + k] == ExpandedByte(src[..], p, k)
    ensures forall j :: 0 <= j < dest.Length && !(q <= j < q + 12) ==> dest[j] == old(dest[j])
  {
    forall k | 0 <= k < 12 {
      dest[q + k] := ExpandedByte(src[..], p, k);
    }
  }

  /** The loop at lines 485-501 on the sub-range src[off..off+len], writing
      into a newly allocated buffer of Expanded20Length(len) bytes. */
  method Expand20Into(src: array<byte>, off: nat, len: nat) returns (dest: array<byte>)
    requires off + len <= src.Length
    ensures fresh(dest)
    ensures dest[..] == Output20(src[off..off + len])
  {
    Expanded20LengthFits(len);
    ghost var x := src[..];
    ghost var s := x[off..off + len];
    ghost var out := Output20(s);
    var count := len / 10;
    dest := new byte[Expanded20Length(len)](_ => 0);
    assert |out| == dest.Length;
    var i := 0;
    while i < count
      invariant 0 <= i <= count
      invariant forall j :: 0 <= j < 12 * i ==> dest[j] == out[j]
      invariant forall j :: 12 * i <= j < dest.Length ==> dest[j] == 0
    {
      var p, q := off + 10 * i, 12 * i;
      Expand20GroupInto(src, p, dest, q);
      assert src[..] == x;
      forall j | q <= j < q + 12
        ensures dest[j] == out[j]
      {
        var k := j - q;
        assert dest[q + k] == ExpandedByte(x, p, k);
        Output20AtIn(x, off, len, i, k);
      }
      i := i + 1;
    }
    forall j | 12 * count <= j < dest.Length
      ensures dest[j] == out[j]
    {
      Output20Zero(s, j);
    }
    assert dest[..] == out;
  }

  // ---------------------------------------------------------------------
  // 24-bit groups
  // ---------------------------------------------------------------------

  /** The permutation of lines 524-534: bytes 0, 1 and 11 stay, bytes 2..10
      become old bytes 8, 2, 3, 9, 4, 5, 10, 6, 7. */
  function Reorder24Group(g: seq<byte>): (r: seq<byte>)
    requires |g| == 12
    ensures |r| == 12
  {
    [g[0], g[1], g[8], g[2], g[3], g[9], g[4], g[5], g[10], g[6], g[7], g[11]]
  }

  /** Sample k of the reordered group is the 24-bit sample k of the DVD
      group: its two high bytes at 2k, 2k+1 and its low byte at 8 + k. */
  lemma Reorder24GroupSample(g: seq<byte>, k: nat)
    requires |g| == 12 && k < 4
    ensures Reorder24Group(g)[3 * k..3 * k + 3] == [g[2 * k], g[2 * k + 1], g[8 + k]]
  {
  }

  /** The group permutation keeps every byte. */
  lemma Reorder24GroupPermutes(g: seq<byte>)
    requires |g| == 12
    ensures multiset(Reorder24Group(g)) == multiset(g)
  {
    var a, b, c, d := g[..2], g[2..4], g[4..6], g[6..8];
    assert Reorder24Group(g) == a + [g[8]] + b + [g[9]] + c + [g[10]] + d + [g[11]];
    assert g == a + b + c + d + [g[8]] + [g[9]] + [g[10]] + [g[11]];
    assert multiset(Reorder24Group(g)) == multiset(a) + multiset{g[8]} + multiset(b) + multiset{g[9]}
                                         + multiset(c) + multiset{g[10]} + multiset(d) + multiset{g[11]};
  }

  /** Inverse permutation: back to the DVD layout. */
  function Unorder24Group(r: seq<byte>): (g: seq<byte>)
    requires |r| == 12
    ensures |g| == 12
  {
    [r[0], r[1], r[3], r[4], r[6], r[7], r[9], r[10], r[2], r[5], r[8], r[11]]
  }

  /** The two group permutations are inverse to each other. */
  lemma Reorder24GroupRoundTrip(g: seq<byte>)
    requires |g| == 12
    ensures Unorder24Group(Reorder24Group(g)) == g
    ensures Reorder24Group(Unorder24Group(g)) == g
  {
  }

  /** The permutation is not its own inverse: applying it twice to the
      group 0, 1, ..., 11 does not restore it. */
  lemma Reorder24NotInvolution()
    ensures exists g: seq<byte> :: |g| == 12 && Reorder24Group(Reorder24Group(g)) != g
  {
    var g: seq<byte> := [0, 1, 2, 3, 4, 5, 6, 7, 8, 9, 10, 11];
    assert Reorder24Group(Reorder24Group(g))[2] == 10;
  }

  /** All full 12-byte groups of a buffer reordered; the trailing partial
      group is left as it is. */
  function Reorder24(s: seq<byte>): (r: seq<byte>)
    ensures |r| == |s|
    decreases |s|
  {
    if |s| < 12 then s else Reorder24Group(s[..12]) + Reorder24(s[12..])
  }

  /** Inverse of Reorder24. */
  function Unorder24(r: seq<byte>): (s: seq<byte>)
    ensures |s| == |r|
    decreases |r|
  {
    if |r| < 12 then r else Unorder24Group(r[..12]) + Unorder24(r[12..])
  }

  /** The reordering loses nothing: undoing it restores the buffer. */
  lemma {:induction false} Reorder24RoundTrip(s: seq<byte>)
    ensures Unorder24(Reorder24(s)) == s
    decreases |s|
  {
    if |s| >= 12 {
      var r := Reorder24(s);
      assert r[..12] == Reorder24Group(s[..12]);
      assert r[12..] == Reorder24(s[12..]);
      Reorder24GroupRoundTrip(s[..12]);
      Reorder24RoundTrip(s[12..]);
      assert s == s[..12] + s[12..];
    }
  }

  /** Splitting a buffer splits its bytes. */
  lemma MultisetSplit(s: seq<byte>, n: nat)
    requires n <= |s|
    ensures multiset(s) == multiset(s[..n]) + multiset(s[n..])
  {
    assert s == s[..n] + s[n..];
  }

  /** One step of Reorder24: the first group's bytes, permuted, and the
      rest. */
  lemma Reorder24Step(s: seq<byte>)
    requires |s| >= 12
    ensures multiset(Reorder24(s)) == multiset(s[..12]) + multiset(Reorder24(s[12..]))
  {
    var g := s[..12];
    Reorder24GroupPermutes(g);
    assert Reorder24(s) == Reorder24Group(g) + Reorder24(s[12..]);
  }

  /** The reordering is a permutation of the buffer's bytes. */
  lemma {:induction false} Reorder24Permutes(s: seq<byte>)
    ensures multiset(Reorder24(s)) == multiset(s)
    decreases |s|
  {
    if |s| >= 12 {
      Reorder24Step(s);
      Reorder24Permutes(s[12..]);
      MultisetSplit(s, 12);
    }
  }

  /** The position in a DVD 24-bit group that byte k of the reordered group
      is taken from.  Byte k belongs to sample k / 3: its third byte is
      that sample's low byte, the others are its two high bytes. */
  function Source24(k: nat): (j: nat)
    requires k < 12
    ensures j < 12
    ensures k % 3 == 2 ==> j == 8 + k / 3
    ensures k % 3 != 2 ==> j == 2 * (k / 3) + k % 3
  {
    match k
    case 2 => 8
    case 3 => 2
    case 4 => 3
    case 5 => 9
    case 6 => 4
    case 7 => 5
    case 8 => 10
    case 9 => 6
    case 10 => 7
    case _ => k
  }

  /** Reorder24Group moves every byte by Source24. */
  lemma Reorder24GroupAt(g: seq<byte>, k: nat)
    requires |g| == 12 && k < 12
    ensures Reorder24Group(g)[k] == g[Source24(k)]
  {
  }

  /** Byte 12*i + k of the reordered buffer is byte Source24(k) of group i. */
  lemma {:induction false} Reorder24At(s: seq<byte>, i: nat, k: nat)
    requires i < |s| / 12 && k < 12
    ensures Reorder24(s)[12 * i + k] == s[12 * i + Source24(k)]
  {
    if i > 0 {
      Reorder24At(s[12..], i - 1, k);
    } else {
      Reorder24GroupAt(s[..12], k);
    }
  }

  /** The trailing size % 12 bytes are untouched. */
  lemma {:induction false} Reorder24Tail(s: seq<byte>, j: nat)
    requires 12 * (|s| / 12) <= j < |s|
    ensures Reorder24(s)[j] == s[j]
  {
    if |s| >= 12 {
      Reorder24Tail(s[12..], j - 12);
    }
  }

  /** One loop pass on the sequence level: cur is before with group i of
      the sub-range [off, off+len) permuted by Source24, and that group of
      before is still as in orig; then that group of cur is group i of the
      reordered sub-range. */
  lemma Reorder24GroupStep(cur: seq<byte>, before: seq<byte>, orig: seq<byte>, off: nat, len: nat, i: nat)
    requires |cur| == |before| == |orig| && off + len <= |orig| && i < len / 12
    requires forall k :: 0 <= k < 12 ==> cur[off + 12 * i + k] == before[off + 12 * i + Source24(k)]
    requires forall j :: off + 12 * i <= j < off + 12 * i + 12 ==> before[j] == orig[j]
    ensures forall j :: off + 12 * i <= j < off + 12 * i + 12 ==> cur[j] == Reorder24(orig[off..off + len])[j - off]
  {
    var s := orig[off..off + len];
    var p := off + 12 * i;
    forall j | p <= j < p + 12
      ensures cur[j] == Reorder24(s)[j - off]
    {
      var k := j - p;
      Reorder24At(s, i, k);
      assert cur[p + k] == before[p + Source24(k)];
      assert s[12 * i + Source24(k)] == orig[p + Source24(k)];
    }
  }

  /** A buffer whose whole groups in [off, off+len) are those of the reordered
      sub-range and whose other bytes are as in orig is orig with the
      sub-range reordered. */
  lemma Reorder24Spliced(cur: seq<byte>, orig: seq<byte>, off: nat, len: nat)
    requires |cur| == |orig| && off + len <= |orig|
    requires forall j :: 0 <= j < |cur| && !(off <= j < off + 12 * (len / 12)) ==> cur[j] == orig[j]
    requires forall j :: off <= j < off + 12 * (len / 12) ==> cur[j] == Reorder24(orig[off..off + len])[j - off]
    ensures cur == orig[..off] + Reorder24(orig[off..off + len]) + orig[off + len..]
  {
    var s := orig[off..off + len];
    var target := orig[..off] + Reorder24(s) + orig[off + len..];
    forall j | 0 <= j < |cur|
      ensures cur[j] == target[j]
    {
      if j < off {
        assert target[j] == orig[j];
      } else if j < off + len {
        assert target[j] == Reorder24(s)[j - off];
        if j >= off + 12 * (len / 12) {
          Reorder24Tail(s, j - off);
        }
      } else {
        assert target[j] == orig[j];
      }
    }
  }

  /** One pass of the loop body at lines 522-534: bytes 2..10 of the group
      at a[p..p+12] are gathered into a 9-byte temporary (temp[m] from group
      byte Source24(m + 2)) and then copied back in one block, so no
      overwritten byte is read. */
  method Reorder24GroupInPlace(a: array<byte>, p: nat)
    requires p + 12 <= a.Length
    modifies a
    ensures forall k :: 0 <= k < 12 ==> a[p + k] == old(a[p + Source24(k)])
    ensures forall j :: 0 <= j < a.Length && !(p <= j < p + 12) ==> a[j] == old(a[j])
  {
    var temp := new byte[9];
    forall m | 0 <= m < 9 {
      temp[m] := a[p + Source24(m + 2)];
    }
    forall m | 0 <= m < 9 {
      a[p + 2 + m] := temp[m];
    }
  }

  /** The loop at lines 521-536 on the sub-range a[off..off+len], in place. */
  method Reorder24InPlace(a: array<byte>, off: nat, len: nat)
    requires off + len <= a.Length
    modifies a
    ensures a[..] == old(a[..off]) + Reorder24(old(a[off..off + len])) + old(a[off + len..])
  {
    ghost var orig := a[..];
    ghost var r := Reorder24(orig[off..off + len]);
    var count := len / 12;
    var i := 0;
    while i < count
      invariant 0 <= i <= count
      invariant forall j :: 0 <= j < a.Length && !(off <= j < off + 12 * i) ==> a[j] == orig[j]
      invariant forall j :: off <= j < off + 12 * i ==> a[j] == r[j - off]
    {
      ghost var before := a[..];
      Reorder24GroupInPlace(a, off + 12 * i);
      Reorder24GroupStep(a[..], before, orig, off, len, i);
      i := i + 1;
    }
    Reorder24Spliced(a[..], orig, off, len);
  }
}
