/** Byte strings (`s8`): the scans and cuts of util.c and the helpers' `s8_equal`, `s8_split`
    and `s8_trim_left`. A string is its byte sequence; a pointer past its end with length -1
    (what `s8_split` produces when the separator is absent) is `None`. */
module Strings {
  import opened Base

  /** The index of the last `b` in `s`, or -1 when there is none: the reference for the
      backwards scans below. */
  function LastIndexOf(s: seq<byte>, b: byte): (r: int)
    ensures -1 <= r < |s|
    ensures r >= 0 ==> s[r] == b
    ensures forall j | r < j < |s| :: s[j] != b
    decreases |s|
  {
    if |s| == 0 then -1
    else if s[|s| - 1] == b then |s| - 1
    else
      var r := LastIndexOf(s[..|s| - 1], b);
      assert s == s[..|s| - 1] + [s[|s| - 1]];
      r
  }

  /** `s8_scan_backwards` (util.c:280-287): count down from the end while the byte before the
      cursor is not `b`, then step back once more. */
  method ScanBackwards(s: seq<byte>, b: byte) returns (r: int)
    ensures r == LastIndexOf(s, b)
  {
    var result := |s|;
    while result > 0 && s[result - 1] != b
      invariant 0 <= result <= |s|
      invariant LastIndexOf(s, b) == LastIndexOf(s[..result], b)
    {
      LastIndexOfDropLast(s[..result], b);
      assert s[..result][..result - 1] == s[..result - 1];
      result := result - 1;
    }
    if result > 0 {
      LastIndexOfLastByte(s[..result], b);
    }
    r := result - 1;
  }

  lemma LastIndexOfDropLast(s: seq<byte>, b: byte)
    requires |s| > 0 && s[|s| - 1] != b
    ensures LastIndexOf(s, b) == LastIndexOf(s[..|s| - 1], b)
  {
  }

  lemma LastIndexOfLastByte(s: seq<byte>, b: byte)
    requires |s| > 0 && s[|s| - 1] == b
    ensures LastIndexOf(s, b) == |s| - 1
  {
  }

  /** `s8_cut_head` (util.c:289-298): drop the first `cut` bytes; a cut of 0 or less keeps `s`.
      The source does not check `cut` against the length; a longer cut would leave a negative
      length and a pointer past the end, so the bound is stated as the caller's obligation. */
  function CutHead(s: seq<byte>, cut: int): (r: seq<byte>)
    requires cut <= |s|
    ensures cut <= 0 ==> r == s
    ensures cut > 0 ==> |r| == |s| - cut && s == s[..cut] + r
  {
    if cut > 0 then s[cut..] else s
  }

  /** `s8_equal` (helpers/send_ornot.c:325-335, helpers/throughput.c:287-297): lengths first,
      then byte by byte from the front while all agree. */
  method Equal(a: seq<byte>, b: seq<byte>) returns (r: bool)
    ensures r <==> a == b
  {
    r := |a| == |b|;
    var i := 0;
    while r && i < |a|
      invariant 0 <= i <= |a|
      invariant r ==> |a| == |b| && a[..i] == b[..i]
      invariant !r ==> a != b
    {
      r := a[i] == b[i];
      i := i + 1;
    }
    if r {
      assert a == a[..i] && b == b[..i];
    }
  }

  /** The two halves `s8_split` stores: `right` is `None` when the separator is absent (its
      length is then -1). */
  datatype Halves = Halves(left: seq<byte>, right: Option<seq<byte>>)

  /** The index of the first `b` in `s`, or |s| when there is none. */
  function FirstIndexOf(s: seq<byte>, b: byte): (k: nat)
    ensures k <= |s|
    ensures forall j | 0 <= j < k :: s[j] != b
    ensures k < |s| ==> s[k] == b
    decreases |s|
  {
    if |s| == 0 || s[0] == b then 0
    else
      var k := 1 + FirstIndexOf(s[1..], b);
      assert forall j | 1 <= j < k :: s[j] == s[1..][j - 1];
      k
  }

  /** The cut `s8_split` makes: before and after the first `b`. */
  function Halve(s: seq<byte>, b: byte): (h: Halves)
    ensures forall j | 0 <= j < |h.left| :: h.left[j] != b
    ensures h.right.Some? ==> |h.left| < |s| && s[|h.left|] == b
    ensures h.right.None? ==> h.left == s
  {
    var k := FirstIndexOf(s, b);
    if k < |s| then
      Halves(s[..k], Some(s[k + 1..]))
    else
      Halves(s, None)
  }

  /** Nothing is lost by the cut: the halves and the separator make up the input. */
  lemma HalveRejoins(s: seq<byte>, b: byte)
    requires b in s
    ensures Halve(s, b).right.Some? && s == Halve(s, b).left + [b] + Halve(s, b).right.value
  {
    var k := FirstIndexOf(s, b);
    assert s == s[..k] + [b] + s[k + 1..];
  }

  /** `s8_split` (helpers/send_ornot.c:337-349): scan forward to the first `b`; the left half
      is what precedes it and the right half what follows it. */
  method Split(s: seq<byte>, b: byte) returns (h: Halves)
    ensures h == Halve(s, b)
  {
    var index := 0;
    while index < |s| && s[index] != b
      invariant 0 <= index <= |s| && b !in s[..index]
    {
      assert s[..index + 1] == s[..index] + [s[index]];
      index := index + 1;
    }
    assert index == FirstIndexOf(s, b) by {
      var k := FirstIndexOf(s, b);
      NotInPrefix(s, b, index);
      NotInPrefix(s, b, k);
    }
    if index < |s| {
      h := Halves(s[..index], Some(s[index + 1..]));
    } else {
      h := Halves(s, None);
    }
  }

  lemma NotInPrefix(s: seq<byte>, b: byte, n: nat)
    requires n <= |s| && b !in s[..n]
    ensures forall j | 0 <= j < n :: s[j] != b
  {
    forall j | 0 <= j < n
      ensures s[j] != b
    {
      assert s[..n][j] == s[j];
    }
  }

  /** `s8_trim_left` (helpers/send_ornot.c:351-357): drop leading spaces. */
  function TrimLeft(s: seq<byte>): (r: seq<byte>)
    ensures |r| <= |s|
    ensures r == [] || r[0] != ' ' as byte
    ensures forall i | 0 <= i < |s| - |r| :: s[i] == ' ' as byte
    decreases |s|
  {
    if |s| > 0 && s[0] == ' ' as byte then
      var r := TrimLeft(s[1..]);
      assert forall i | 1 <= i < |s| - |r| :: s[i] == s[1..][i - 1];
      r
    else s
  }

  /** What is left after trimming is the tail of the input. */
  lemma {:induction false} TrimLeftIsSuffix(s: seq<byte>)
    ensures TrimLeft(s) == s[|s| - |TrimLeft(s)|..]
    decreases |s|
  {
    if |s| > 0 && s[0] == ' ' as byte {
      TrimLeftIsSuffix(s[1..]);
      assert s[1..][|s| - 1 - |TrimLeft(s)|..] == s[|s| - |TrimLeft(s)|..];
    }
  }

  /** Trimming twice is trimming once. */
  lemma TrimLeftIdempotent(s: seq<byte>)
    ensures TrimLeft(TrimLeft(s)) == TrimLeft(s)
  {
    var r := TrimLeft(s);
    assert r == [] || r[0] != ' ' as byte;
  }

  /** Cutting at the first b of left + [b] + right, with no b in left, gives back the halves. */
  lemma HalveAt(left: seq<byte>, right: seq<byte>, b: byte)
    requires b !in left
    ensures Halve(left + [b] + right, b) == Halves(left, Some(right))
  {
    var s := left + [b] + right;
    var k := FirstIndexOf(s, b);
    NotInPrefix(s, b, k);
    assert s[|left|] == b;
    assert forall j | 0 <= j < |left| :: s[j] == left[j];
    assert k == |left|;
    assert s[..k] == left && s[k + 1..] == right;
  }

  /** `s8_trim_left` removes exactly the run of spaces the string starts with. */
  lemma {:induction false} TrimLeftRemovesLeadingRun(pad: nat, t: seq<byte>)
    requires t == [] || t[0] != ' ' as byte
    ensures TrimLeft(seq(pad, _ => ' ' as byte) + t) == t
    decreases pad
  {
    if pad > 0 {
      var s := seq(pad, _ => ' ' as byte) + t;
      assert s[1..] == seq(pad - 1, _ => ' ' as byte) + t;
      TrimLeftRemovesLeadingRun(pad - 1, t);
    }
  }
}
