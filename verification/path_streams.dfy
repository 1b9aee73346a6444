/** The path builders of the helper programs: `stream_ensure_termination`, zero-padded decimal
    formatting, the `_NN.zst` file suffix and the output base name. comp_paper.c and
    throughput.c carry identical copies of the first three. Their `stream_append(s, p, n)`
    comes from another revision of the utilities and is `stream_append_s8` here. */
module PathStreams {
  import opened Base
  import opened Streams
  import Strings

  predicate EndsWith(w: seq<byte>, b: byte) { |w| > 0 && w[|w| - 1] == b }

  /** `stream_ensure_termination` (helpers/comp_paper.c:405-416, helpers/throughput.c:192-203):
      append `b` unless the written bytes already end with it. */
  function EnsureTermination(s: Stream, b: byte): (r: Stream)
    requires Valid(s)
    ensures Valid(r) && |r.data| == |s.data|
    ensures r.errors <==> s.errors || (!EndsWith(Written(s), b) && s.widx == |s.data|)
    ensures !r.errors ==> EndsWith(Written(r), b)
    ensures !r.errors ==> Written(r) == if EndsWith(Written(s), b) then Written(s) else Written(s) + [b]
    ensures s.errors ==> r == s
  {
    var found := !s.errors && s.widx > 0 && s.data[s.widx - 1] == b;
    if found then s
    else
      var errors := s.errors || |s.data| - 1 < s.widx;
      if errors then s.(errors := true)
      else
        var r := Stream(s.data[s.widx := b], s.widx + 1, false);
        assert Written(r) == Written(s) + [b];
        r
  }

  /** A second termination changes nothing. */
  lemma EnsureTerminationIdempotent(s: Stream, b: byte)
    requires Valid(s)
    ensures EnsureTermination(EnsureTermination(s, b), b) == EnsureTermination(s, b)
  {
  }

  /** The decimal digits of n left-padded with '0' to at least min(min_width, 64) characters. */
  function ZeroPadded(n: nat, minWidth: nat): (d: seq<byte>)
    ensures |d| == if |Digits(n)| < Min(minWidth, 64) then Min(minWidth, 64) else |Digits(n)|
    ensures d[|d| - |Digits(n)|..] == Digits(n)
    ensures forall i | 0 <= i < |d| - |Digits(n)| :: d[i] == '0' as byte
  {
    var digits := Digits(n);
    var width := Min(minWidth, 64);
    var pad := if |digits| < width then width - |digits| else 0;
    seq(pad, _ => '0' as byte) + digits
  }

  function Min(a: nat, b: nat): nat { if a < b then a else b }

  /** Leading zeros do not change the value of a digit string. */
  lemma {:induction false} LeadingZerosValue(pad: nat, d: seq<byte>)
    requires AllDigits(d)
    ensures AllDigits(seq(pad, _ => '0' as byte) + d)
    ensures DecimalValue(seq(pad, _ => '0' as byte) + d) == DecimalValue(d)
    decreases |d|
  {
    var z := seq(pad, _ => '0' as byte) + d;
    assert AllDigits(z) by {
      forall i | 0 <= i < |z| ensures IsDigit(z[i]) {
        if i >= pad { assert z[i] == d[i - pad]; }
      }
    }
    if |d| == 0 {
      ZerosValue(pad);
      assert z == seq(pad, _ => '0' as byte);
    } else {
      var init := d[..|d| - 1];
      LeadingZerosValue(pad, init);
      assert z[..|z| - 1] == seq(pad, _ => '0' as byte) + init;
    }
  }

  lemma {:induction false} ZerosValue(pad: nat)
    ensures AllDigits(seq(pad, _ => '0' as byte))
    ensures DecimalValue(seq(pad, _ => '0' as byte)) == 0
  {
    if pad > 0 {
      ZerosValue(pad - 1);
      assert seq(pad, _ => '0' as byte)[..pad - 1] == seq(pad - 1, _ => '0' as byte);
    }
  }

  /** The padded text still reads back as n. */
  lemma ZeroPaddedValue(n: nat, minWidth: nat)
    ensures AllDigits(ZeroPadded(n, minWidth)) && DecimalValue(ZeroPadded(n, minWidth)) == n
  {
    var digits := Digits(n);
    var width := Min(minWidth, 64);
    var pad := if |digits| < width then width - |digits| else 0;
    assert ZeroPadded(n, minWidth) == seq(pad, _ => '0' as byte) + digits;
    LeadingZerosValue(pad, digits);
    DigitsRoundTrip(n);
  }

  /** The two loops of `stream_push_u64_width` (helpers/comp_paper.c:418-431): the digits least
      significant first, then '0' while the text is narrower than min(min_width, 64). */
  method WidthDigits(n: nat, minWidth: nat) returns (d: seq<byte>)
    requires n < U64_LIMIT
    ensures d == ZeroPadded(n, minWidth)
  {
    var width := Min(minWidth, 64);
    d := U64Digits(n);
    ghost var digits, pad := d, 0;
    while |d| > 0 && |d| < width
      invariant d == seq(pad, _ => '0' as byte) + digits
      invariant pad > 0 ==> |d| <= width
      decreases width - |d|
    {
      PadOneMore(pad, digits);
      d := ['0' as byte] + d;
      pad := pad + 1;
    }
  }

  /** One more leading '0'. */
  lemma PadOneMore(pad: nat, t: seq<byte>)
    ensures ['0' as byte] + (seq(pad, _ => '0' as byte) + t) == seq(pad + 1, _ => '0' as byte) + t
  {
    assert ['0' as byte] + seq(pad, _ => '0' as byte) == seq(pad + 1, _ => '0' as byte);
  }

  /** `stream_push_u64_width` (helpers/comp_paper.c:418-431), `stream_append_u64_width`
      (helpers/throughput.c:205-218). */
  method PushU64Width(s: Stream, n: nat, minWidth: nat) returns (r: Stream)
    requires Valid(s) && n < U64_LIMIT
    ensures AppendsWithinCap(s, ZeroPadded(n, minWidth), r)
  {
    var d := WidthDigits(n, minWidth);
    r := AppendS8(s, d);
  }

  const ZST_SUFFIX: seq<byte> := ['.' as byte, 'z' as byte, 's' as byte, 't' as byte]

  /** The four pieces of a frame file's name suffix: "_", the index padded to two digits,
      ".zst" and a NUL. */
  function FileEndPieces(index: nat): seq<seq<byte>>
  {
    [['_' as byte], ZeroPadded(index, 2), ZST_SUFFIX, [0]]
  }

  /** `stream_push_file_end_at_index` (helpers/comp_paper.c:433-440) and the path step of
      `decompress_data_at_work_index` (helpers/throughput.c:338-341): the four pieces appended
      one after another, so a stream that runs out of room keeps the pieces that fit whole
      (`AppendArrayPartial`). The final `stream_ensure_termination` always appends, since the
      text before it ends in 't'. */
  method PushFileEndAtIndex(s: Stream, index: nat) returns (r: Stream)
    requires Valid(s) && IsU32(index)
    ensures Valid(r) && |r.data| == |s.data|
    ensures r.errors <==> s.errors || s.widx + 1 + |ZeroPadded(index, 2)| + 4 + 1 > |s.data|
    ensures !r.errors ==> Written(r) == Written(s) + ['_' as byte] + ZeroPadded(index, 2) + ZST_SUFFIX + [0]
    ensures r == AppendS8Array(s, FileEndPieces(index))
  {
    var s1 := AppendByte(s, '_' as byte);
    var s2 := PushU64Width(s1, index, 2);
    var s3 := AppendS8(s2, ZST_SUFFIX);
    assert !s3.errors ==> EndsWith(Written(s3), 't' as byte);
    r := EnsureTermination(s3, 0);
    AppendByteIsAppendS8(s, '_' as byte);
    AppendsDetermined(s1, ZeroPadded(index, 2), s2);
    AppendByteIsAppendS8(s3, 0);
    assert r == AppendS8(s3, [0]);
    var pieces: seq<seq<byte>> := FileEndPieces(index);
    var last: seq<seq<byte>> := pieces[3..];
    assert AppendS8Array(s3, last) == AppendS8(s3, [0]) by {
      assert last[1..] == [];
    }
    assert pieces[2..][1..] == last && pieces[2..][0] == ZST_SUFFIX;
    assert AppendS8Array(s2, pieces[2..]) == AppendS8Array(s3, last);
    assert pieces[1..][1..] == pieces[2..] && pieces[1..][0] == ZeroPadded(index, 2);
    assert AppendS8Array(s1, pieces[1..]) == AppendS8Array(s2, pieces[2..]);
    assert AppendS8Array(s, pieces) == AppendS8Array(s1, pieces[1..]);
  }

  /** `output_base_name_from_argv` (helpers/send_ornot.c:227-245): append the input name with
      its last '.' and everything after it removed. With no '.' the scan ends at length -1,
      which `stream_append_s8` cannot copy, so a '.' is required. */
  method OutputBaseName(s: Stream, input: seq<byte>) returns (r: Stream)
    requires Valid(s) && '.' as byte in input
    ensures var k := Strings.LastIndexOf(input, '.' as byte);
            0 <= k && '.' as byte !in input[k + 1..] && AppendsWithinCap(s, input[..k], r)
  {
    var len := Strings.ScanBackwards(input, '.' as byte);
    r := AppendS8(s, input[..len]);
  }
}
