/** The `.bp` parameter file of the helper programs: a `zemp_bp_v1` struct stored byte for
    byte, little-endian, 3728 bytes long (3724 bytes of fields and 4 of tail padding that
    align the struct to its `u64` magic). A file is a sequence of fields, each an array of
    fixed-width unsigned words; floats are carried as their 32-bit patterns and `i16`s as
    their 16-bit patterns, since the programs only copy them. */
module ZempBp {
  import opened Base

  const ZEMP_BP_MAGIC: nat := 0x5042504D455AFECA
  const ZEMP_BP_V1_SIZE: nat := 3728

  /** One field: `count` words of `width` bytes. */
  datatype FieldShape = FieldShape(count: nat, width: nat)

  /** Field indices of `zemp_bp_v1` (helpers/comp_paper.c:291-310). */
  const MAGIC: nat := 0
  const VERSION: nat := 1
  const DECODE_MODE: nat := 2
  const BEAMFORM_MODE: nat := 3
  const RAW_DATA_DIM: nat := 4
  const DECODED_DATA_DIM: nat := 5
  const XDC_ELEMENT_PITCH: nat := 6
  const XDC_TRANSFORM: nat := 7
  const CHANNEL_MAPPING: nat := 8
  const TRANSMIT_ANGLES: nat := 9
  const FOCAL_DEPTHS: nat := 10
  const SPARSE_ELEMENTS: nat := 11
  const HADAMARD_ROWS: nat := 12
  const SPEED_OF_SOUND: nat := 13
  const CENTER_FREQUENCY: nat := 14
  const SAMPLING_FREQUENCY: nat := 15
  const TIME_OFFSET: nat := 16
  const TRANSMIT_MODE: nat := 17
  const PADDING: nat := 18

  const LAYOUT: seq<FieldShape> := [
    FieldShape(1, 8), FieldShape(1, 4), FieldShape(1, 2), FieldShape(1, 2),
    FieldShape(4, 4), FieldShape(4, 4), FieldShape(2, 4), FieldShape(16, 4),
    FieldShape(256, 2), FieldShape(256, 4), FieldShape(256, 4), FieldShape(256, 2),
    FieldShape(256, 2), FieldShape(1, 4), FieldShape(1, 4), FieldShape(1, 4),
    FieldShape(1, 4), FieldShape(1, 4), FieldShape(1, 4)
  ]

  /** The number of bytes the fields from index k on occupy. */
  function SizeFrom(layout: seq<FieldShape>, k: nat): nat
    decreases |layout| - k
  {
    if k >= |layout| then 0 else layout[k].count * layout[k].width + SizeFrom(layout, k + 1)
  }

  /** The layout adds up to `sizeof(zemp_bp_v1)`. */
  lemma LayoutIsStructSize()
    ensures SizeFrom(LAYOUT, 0) == ZEMP_BP_V1_SIZE
    ensures SizeFrom(LAYOUT, 1) == ZEMP_BP_V1_SIZE - 8
  {
    assert SizeFrom(LAYOUT, 19) == 0;
    assert SizeFrom(LAYOUT, 18) == 4;
    assert SizeFrom(LAYOUT, 17) == 8;
    assert SizeFrom(LAYOUT, 16) == 12;
    assert SizeFrom(LAYOUT, 15) == 16;
    assert SizeFrom(LAYOUT, 14) == 20;
    assert SizeFrom(LAYOUT, 13) == 24;
    assert SizeFrom(LAYOUT, 12) == 536;
    assert SizeFrom(LAYOUT, 11) == 1048;
    assert SizeFrom(LAYOUT, 10) == 2072;
    assert SizeFrom(LAYOUT, 9) == 3096;
    assert SizeFrom(LAYOUT, 8) == 3608;
    assert SizeFrom(LAYOUT, 7) == 3672;
    assert SizeFrom(LAYOUT, 6) == 3680;
    assert SizeFrom(LAYOUT, 5) == 3696;
    assert SizeFrom(LAYOUT, 4) == 3712;
    assert SizeFrom(LAYOUT, 3) == 3714;
    assert SizeFrom(LAYOUT, 2) == 3716;
    assert SizeFrom(LAYOUT, 1) == 3720;
    assert SizeFrom(LAYOUT, 0) == 3728;
  }

  /** 256^w: one past the largest word of w bytes. */
  function WordLimit(w: nat): (r: nat)
    ensures r >= 1
  {
    if w == 0 then 1 else 256 * WordLimit(w - 1)
  }

  /** The little-endian value of a byte string. */
  function LittleEndian(b: seq<byte>): (v: nat)
    ensures v < WordLimit(|b|)
    decreases |b|
  {
    if |b| == 0 then 0 else b[0] + 256 * LittleEndian(b[1..])
  }

  /** The w low bytes of v, least significant first. */
  function EncodeWord(v: nat, w: nat): (b: seq<byte>)
    ensures |b| == w
  {
    if w == 0 then [] else [v % 256] + EncodeWord(v / 256, w - 1)
  }

  /** Encoding then decoding gives a word back whenever it fits. */
  lemma {:induction false} WordRoundTrip(v: nat, w: nat)
    requires v < WordLimit(w)
    ensures LittleEndian(EncodeWord(v, w)) == v
  {
    if w > 0 {
      WordRoundTrip(v / 256, w - 1);
      assert EncodeWord(v, w)[1..] == EncodeWord(v / 256, w - 1);
    }
  }

  /** Decoding then encoding gives the bytes back. */
  lemma {:induction false} BytesRoundTrip(b: seq<byte>)
    ensures EncodeWord(LittleEndian(b), |b|) == b
    decreases |b|
  {
    if |b| > 0 {
      BytesRoundTrip(b[1..]);
      var v, rest := LittleEndian(b), LittleEndian(b[1..]);
      assert v == rest * 256 + b[0] as int;
      QuotientForm(rest, 256, b[0] as int);
      assert b == [b[0]] + b[1..];
    }
  }

  /** `count` words of `width` bytes, decoded. */
  function DecodeWords(b: seq<byte>, count: nat, width: nat): (r: seq<nat>)
    requires |b| == count * width
    ensures |r| == count
    decreases count
  {
    if count == 0 then []
    else [LittleEndian(b[..width])] + DecodeWords(b[width..], count - 1, width)
  }

  function EncodeWords(vs: seq<nat>, width: nat): (b: seq<byte>)
    ensures |b| == |vs| * width
  {
    if |vs| == 0 then [] else EncodeWord(vs[0], width) + EncodeWords(vs[1..], width)
  }

  predicate WordsFit(vs: seq<nat>, width: nat)
  {
    forall i | 0 <= i < |vs| :: vs[i] < WordLimit(width)
  }

  lemma {:induction false} WordsRoundTrip(vs: seq<nat>, width: nat)
    requires WordsFit(vs, width)
    ensures DecodeWords(EncodeWords(vs, width), |vs|, width) == vs
  {
    if |vs| > 0 {
      var b := EncodeWords(vs, width);
      assert b[..width] == EncodeWord(vs[0], width);
      assert b[width..] == EncodeWords(vs[1..], width);
      WordRoundTrip(vs[0], width);
      WordsRoundTrip(vs[1..], width);
    }
  }

  lemma {:induction false} WordsBytesRoundTrip(b: seq<byte>, count: nat, width: nat)
    requires |b| == count * width
    ensures EncodeWords(DecodeWords(b, count, width), width) == b
    decreases count
  {
    if count > 0 {
      WordsTail(b, count, width);
      WordsBytesRoundTrip(b[width..], count - 1, width);
      BytesRoundTrip(b[..width]);
      assert b == b[..width] + b[width..];
    }
  }

  /** Re-encoding decoded words is re-encoding the first word, then the rest. */
  lemma WordsTail(b: seq<byte>, count: nat, width: nat)
    requires |b| == count * width && count > 0
    ensures width <= |b| && |b[width..]| == (count - 1) * width
    ensures EncodeWords(DecodeWords(b, count, width), width) ==
      EncodeWord(LittleEndian(b[..width]), width) + EncodeWords(DecodeWords(b[width..], count - 1, width), width)
  {
    hide EncodeWord, LittleEndian;
    assert count * width == (count - 1) * width + width;
    var vs := DecodeWords(b, count, width);
    assert vs[0] == LittleEndian(b[..width]) && vs[1..] == DecodeWords(b[width..], count - 1, width);
  }

  /** The fields of a struct image from field k on, in layout order. */
  function DecodeFields(b: seq<byte>, layout: seq<FieldShape>, k: nat): (fs: seq<seq<nat>>)
    requires |b| == SizeFrom(layout, k)
    ensures Conforms(fs, layout, k)
    decreases |layout| - k
  {
    if k >= |layout| then []
    else
      var n := layout[k].count * layout[k].width;
      var f := DecodeWords(b[..n], layout[k].count, layout[k].width);
      assert WordsFit(f, layout[k].width) by { DecodedWordsFit(b[..n], layout[k].count, layout[k].width); }
      [f] + DecodeFields(b[n..], layout, k + 1)
  }

  lemma {:induction false} DecodedWordsFit(b: seq<byte>, count: nat, width: nat)
    requires |b| == count * width
    ensures WordsFit(DecodeWords(b, count, width), width)
    decreases count
  {
    if count > 0 {
      DecodedWordsFit(b[width..], count - 1, width);
    }
  }

  /** Field values shaped by the layout from field k on: the right number of words, each of
      the right width. */
  predicate Conforms(fs: seq<seq<nat>>, layout: seq<FieldShape>, k: nat)
  {
    |fs| + k == (if k <= |layout| then |layout| else k)
    && forall i | 0 <= i < |fs| :: |fs[i]| == layout[k + i].count && WordsFit(fs[i], layout[k + i].width)
  }

  /** The bytes of the fields `fs`, which start at field k. */
  function EncodeFields(fs: seq<seq<nat>>, layout: seq<FieldShape>, k: nat): (b: seq<byte>)
    requires Conforms(fs, layout, k)
    ensures |b| == SizeFrom(layout, k)
    decreases |layout| - k
  {
    if k >= |layout| then []
    else EncodeWords(fs[0], layout[k].width) + EncodeFields(fs[1..], layout, k + 1)
  }

  lemma {:induction false} FieldsRoundTrip(fs: seq<seq<nat>>, layout: seq<FieldShape>, k: nat)
    requires Conforms(fs, layout, k)
    ensures DecodeFields(EncodeFields(fs, layout, k), layout, k) == fs
    decreases |layout| - k
  {
    if k < |layout| {
      var b := EncodeFields(fs, layout, k);
      var n := layout[k].count * layout[k].width;
      assert b[..n] == EncodeWords(fs[0], layout[k].width);
      assert b[n..] == EncodeFields(fs[1..], layout, k + 1);
      WordsRoundTrip(fs[0], layout[k].width);
      FieldsRoundTrip(fs[1..], layout, k + 1);
    }
  }

  lemma {:induction false} FieldsBytesRoundTrip(b: seq<byte>, layout: seq<FieldShape>, k: nat)
    requires |b| == SizeFrom(layout, k)
    ensures EncodeFields(DecodeFields(b, layout, k), layout, k) == b
    decreases |layout| - k
  {
    if k < |layout| {
      var n := layout[k].count * layout[k].width;
      WordsBytesRoundTrip(b[..n], layout[k].count, layout[k].width);
      FieldsBytesRoundTrip(b[n..], layout, k + 1);
      assert b == b[..n] + b[n..];
    }
  }

  /** The header test: the exact struct size, the magic in the first 8 bytes and version 1 in
      the next 4. */
  predicate IsV1(raw: seq<byte>)
  {
    |raw| == ZEMP_BP_V1_SIZE && LittleEndian(raw[..8]) == ZEMP_BP_MAGIC && LittleEndian(raw[8..12]) == 1
  }

  /** `read_zemp_bp_v1` (helpers/comp_paper.c:517-527, helpers/send_ornot.c:283-293) applied
      to the bytes of the file: the struct's fields, or `None` for a null result. */
  function ReadZempBpV1(raw: seq<byte>): (r: Option<seq<seq<nat>>>)
    ensures r.Some? <==> IsV1(raw)
    ensures r.Some? ==>
              && Conforms(r.value, LAYOUT, 0)
              && r.value[MAGIC] == [ZEMP_BP_MAGIC] && r.value[VERSION] == [1]
  {
    if |raw| == ZEMP_BP_V1_SIZE && LittleEndian(raw[..8]) == ZEMP_BP_MAGIC then
      if LittleEndian(raw[8..12]) == 1 then
        LayoutIsStructSize();
        var fs := DecodeFields(raw, LAYOUT, 0);
        assert fs[MAGIC] == [LittleEndian(raw[..8])] && fs[VERSION] == [LittleEndian(raw[8..12])] by {
          FirstFields(raw);
        }
        Some(fs)
      else None
    else None
  }

  lemma FirstFields(raw: seq<byte>)
    requires |raw| == ZEMP_BP_V1_SIZE
    ensures SizeFrom(LAYOUT, 0) == |raw|
    ensures var fs := DecodeFields(raw, LAYOUT, 0);
            fs[MAGIC] == [LittleEndian(raw[..8])] && fs[VERSION] == [LittleEndian(raw[8..12])]
  {
    LayoutIsStructSize();
    assert LAYOUT[0] == FieldShape(1, 8) && LAYOUT[1] == FieldShape(1, 4);
    HeaderFields(raw, LAYOUT);
  }

  /** The magic and version words of any layout that starts like `zemp_bp_v1`. */
  lemma HeaderFields(raw: seq<byte>, layout: seq<FieldShape>)
    requires |layout| >= 2 && layout[0] == FieldShape(1, 8) && layout[1] == FieldShape(1, 4)
    requires |raw| == SizeFrom(layout, 0)
    ensures 12 <= |raw|
    ensures DecodeFields(raw, layout, 0)[0] == [LittleEndian(raw[..8])]
    ensures DecodeFields(raw, layout, 0)[1] == [LittleEndian(raw[8..12])]
  {
    SingleWordHead(raw, layout, 0, 8);
    DecodeFieldsHead(raw, layout, 0);
    SingleWordHead(raw[8..], layout, 1, 4);
    assert raw[8..][..4] == raw[8..12];
  }

  /** A one-word field at the head decodes to that word. */
  lemma SingleWordHead(b: seq<byte>, layout: seq<FieldShape>, k: nat, w: nat)
    requires k < |layout| && layout[k] == FieldShape(1, w) && |b| == SizeFrom(layout, k)
    ensures w <= |b| && DecodeFields(b, layout, k)[0] == [LittleEndian(b[..w])]
  {
    var n := layout[k].count * layout[k].width;
    assert n == w;
    DecodeFieldsHead(b, layout, k);
    var head := b[..w];
    assert DecodeFields(b, layout, k)[0] == DecodeWords(head, 1, w);
    DecodeOne(head, w);
  }

  lemma DecodeFieldsHead(b: seq<byte>, layout: seq<FieldShape>, k: nat)
    requires k < |layout| && |b| == SizeFrom(layout, k)
    ensures var n := layout[k].count * layout[k].width;
            && DecodeFields(b, layout, k)[0] == DecodeWords(b[..n], layout[k].count, layout[k].width)
            && DecodeFields(b, layout, k)[1..] == DecodeFields(b[n..], layout, k + 1)
  {
  }

  lemma DecodeOne(b: seq<byte>, w: nat)
    requires |b| == w
    ensures DecodeWords(b, 1, w) == [LittleEndian(b)]
  {
    assert b[..w] == b;
  }

  /** A struct written with the v1 magic and version reads back as exactly its fields. */
  lemma WriteThenRead(fs: seq<seq<nat>>)
    requires Conforms(fs, LAYOUT, 0) && fs[MAGIC] == [ZEMP_BP_MAGIC] && fs[VERSION] == [1]
    ensures SizeFrom(LAYOUT, 0) == ZEMP_BP_V1_SIZE
    ensures ReadZempBpV1(EncodeFields(fs, LAYOUT, 0)) == Some(fs)
  {
    LayoutIsStructSize();
    var raw := EncodeFields(fs, LAYOUT, 0);
    FieldsRoundTrip(fs, LAYOUT, 0);
    FirstFields(raw);
  }

  /** A file that reads is exactly the bytes of the fields read from it. */
  lemma ReadThenWrite(raw: seq<byte>)
    requires ReadZempBpV1(raw).Some?
    ensures EncodeFields(ReadZempBpV1(raw).value, LAYOUT, 0) == raw
  {
    LayoutIsStructSize();
    FieldsBytesRoundTrip(raw, LAYOUT, 0);
  }

  /** The signed value of a 16-bit pattern. */
  function I16(w: nat): int
  {
    if w >= 0x8000 then w - 0x10000 else w
  }

  /** The parts of `BeamformerParameters` the fill writes; `uforces` has room for 256
      channels and starts as the zero-initialised array of the callers. */
  datatype Parameters = Parameters(
    channelMapping: seq<nat>, focalDepths: seq<nat>, transmitAngles: seq<nat>,
    xdcTransform: seq<nat>, decDataDim: seq<nat>, xdcElementPitch: seq<nat>,
    rfRawDim: seq<nat>, uforcesChannels: seq<nat>, transmitMode: nat, decode: nat,
    dasShaderId: nat, timeOffset: nat, samplingFrequency: nat, centerFrequency: nat,
    speedOfSound: nat)

  /** The uforces channels after the fill, starting from `prior`: with a first sparse element
      of -1, channel i at every position below the decoded transmit count that lies inside
      the 256-entry array and `prior` elsewhere; otherwise the sparse elements. */
  function FilledUforces(fs: seq<seq<nat>>, prior: seq<nat>): (u: seq<nat>)
    requires Conforms(fs, LAYOUT, 0) && |prior| == 256
    ensures |u| == 256
  {
    if I16(fs[SPARSE_ELEMENTS][0]) == -1 then
      seq(256, i requires 0 <= i < 256 => if i < fs[DECODED_DATA_DIM][2] then i else prior[i])
    else fs[SPARSE_ELEMENTS]
  }

  /** The parameters after the fill, as one value: the reference the loop is checked against. */
  function Filled(fs: seq<seq<nat>>, out: Parameters): (p: Parameters)
    requires Conforms(fs, LAYOUT, 0) && |out.uforcesChannels| == 256
    ensures |p.uforcesChannels| == 256
  {
    Parameters(fs[CHANNEL_MAPPING], fs[FOCAL_DEPTHS], fs[TRANSMIT_ANGLES], fs[XDC_TRANSFORM],
               fs[DECODED_DATA_DIM], fs[XDC_ELEMENT_PITCH], fs[RAW_DATA_DIM],
               FilledUforces(fs, out.uforcesChannels),
               fs[TRANSMIT_MODE][0], fs[DECODE_MODE][0], fs[BEAMFORM_MODE][0],
               fs[TIME_OFFSET][0], fs[SAMPLING_FREQUENCY][0], fs[CENTER_FREQUENCY][0],
               fs[SPEED_OF_SOUND][0])
  }

  /** `fill_beamformer_parameters_from_zemp_bp_v1` (helpers/send_ornot.c:295-320,
      helpers/comp_paper.c:530-553): every array and scalar copied; the uforces channels are
      0, 1, ... up to the decoded transmit count when the first sparse element is -1, and the
      sparse elements otherwise. With a count above 256 the counting loop runs past the
      256-entry array: `overrun` reports that, and only the writes inside the array are
      modelled. */
  method FillBeamformerParameters(fs: seq<seq<nat>>, out: Parameters) returns (r: Parameters, overrun: bool)
    requires Conforms(fs, LAYOUT, 0) && |out.uforcesChannels| == 256
    ensures r.channelMapping == fs[CHANNEL_MAPPING] && r.focalDepths == fs[FOCAL_DEPTHS]
    ensures r.transmitAngles == fs[TRANSMIT_ANGLES] && r.xdcTransform == fs[XDC_TRANSFORM]
    ensures r.decDataDim == fs[DECODED_DATA_DIM] && r.rfRawDim == fs[RAW_DATA_DIM]
    ensures r.xdcElementPitch == fs[XDC_ELEMENT_PITCH]
    ensures r.transmitMode == fs[TRANSMIT_MODE][0] && r.decode == fs[DECODE_MODE][0]
    ensures r.dasShaderId == fs[BEAMFORM_MODE][0] && r.timeOffset == fs[TIME_OFFSET][0]
    ensures r.samplingFrequency == fs[SAMPLING_FREQUENCY][0]
    ensures r.centerFrequency == fs[CENTER_FREQUENCY][0] && r.speedOfSound == fs[SPEED_OF_SOUND][0]
    ensures |r.uforcesChannels| == 256
    ensures overrun <==> I16(fs[SPARSE_ELEMENTS][0]) == -1 && fs[DECODED_DATA_DIM][2] > 256
    ensures I16(fs[SPARSE_ELEMENTS][0]) != -1 ==> r.uforcesChannels == fs[SPARSE_ELEMENTS]
    ensures I16(fs[SPARSE_ELEMENTS][0]) == -1 ==>
              && (forall i | 0 <= i < 256 && i < fs[DECODED_DATA_DIM][2] :: r.uforcesChannels[i] == i)
              && (forall i | fs[DECODED_DATA_DIM][2] <= i < 256 :: r.uforcesChannels[i] == out.uforcesChannels[i])
    ensures r == Filled(fs, out)
  {
    var uforces := out.uforcesChannels;
    overrun := false;
    if I16(fs[SPARSE_ELEMENTS][0]) == -1 {
      var n := fs[DECODED_DATA_DIM][2];
      var i := 0;
      while i < n
        invariant 0 <= i <= n && |uforces| == 256
        invariant overrun <==> i > 256
        invariant forall k | 0 <= k < 256 && k < i :: uforces[k] == k
        invariant forall k | i <= k < 256 :: uforces[k] == out.uforcesChannels[k]
      {
        if i < 256 {
          uforces := uforces[i := i];
        } else {
          overrun := true;
        }
        i := i + 1;
      }
    } else {
      uforces := fs[SPARSE_ELEMENTS];
    }
    r := Parameters(fs[CHANNEL_MAPPING], fs[FOCAL_DEPTHS], fs[TRANSMIT_ANGLES], fs[XDC_TRANSFORM],
                    fs[DECODED_DATA_DIM], fs[XDC_ELEMENT_PITCH], fs[RAW_DATA_DIM], uforces,
                    fs[TRANSMIT_MODE][0], fs[DECODE_MODE][0], fs[BEAMFORM_MODE][0],
                    fs[TIME_OFFSET][0], fs[SAMPLING_FREQUENCY][0], fs[CENTER_FREQUENCY][0],
                    fs[SPEED_OF_SOUND][0]);
  }

  /** Filling twice from the same file is filling once. */
  lemma FillIdempotent(fs: seq<seq<nat>>, out: Parameters)
    requires Conforms(fs, LAYOUT, 0) && |out.uforcesChannels| == 256
    ensures Filled(fs, Filled(fs, out)) == Filled(fs, out)
  {
    var once := Filled(fs, out);
    assert FilledUforces(fs, once.uforcesChannels) == once.uforcesChannels;
  }

  /** The file alone decides the filled parameters exactly when no uforces entry of the
      prior array survives: the sparse elements are copied, or the count covers all 256. */
  lemma FillDeterminedByFile(fs: seq<seq<nat>>)
    requires Conforms(fs, LAYOUT, 0)
    ensures (forall a: Parameters, b: Parameters
               | |a.uforcesChannels| == 256 && |b.uforcesChannels| == 256 :: Filled(fs, a) == Filled(fs, b))
            <==> (I16(fs[SPARSE_ELEMENTS][0]) != -1 || fs[DECODED_DATA_DIM][2] >= 256)
  {
    if I16(fs[SPARSE_ELEMENTS][0]) == -1 && fs[DECODED_DATA_DIM][2] < 256 {
      var zero := seq(256, i => 0);
      var a := Parameters([], [], [], [], [], [], [], zero, 0, 0, 0, 0, 0, 0, 0);
      var b := a.(uforcesChannels := zero[255 := 1]);
      assert Filled(fs, a).uforcesChannels[255] == 0 != 1 == Filled(fs, b).uforcesChannels[255];
    } else {
      forall a: Parameters, b: Parameters | |a.uforcesChannels| == 256 && |b.uforcesChannels| == 256
        ensures Filled(fs, a) == Filled(fs, b)
      {
        assert FilledUforces(fs, a.uforcesChannels) == FilledUforces(fs, b.uforcesChannels);
      }
    }
  }
}
