/** The bounded output streams of util.c: appends that write only while capacity allows, a
    sticky error flag, and decimal formatting of integers. */
module Streams {
  import opened Base
  import opened Memory
  import Arenas

  /** A stream: `data` is the whole buffer (its length is the capacity `cap`), `widx` bytes of
      it are written, and `errors` once set stays set. */
  datatype Stream = Stream(data: seq<byte>, widx: nat, errors: bool)

  predicate Valid(s: Stream) { s.widx <= |s.data| }

  /** `stream_to_s8` (util.c:116-121): the bytes written so far. */
  function Written(s: Stream): (w: seq<byte>)
    requires Valid(s)
    ensures |w| == s.widx && w <= s.data
  {
    s.data[..s.widx]
  }

  /** What every append promises: capacity unchanged, an error freezes the stream, and without
      one exactly `str` lands after the old contents and no other byte changes. */
  predicate AppendsWithinCap(s: Stream, str: seq<byte>, r: Stream)
    requires Valid(s)
  {
    && Valid(r) && |r.data| == |s.data|
    && (r.errors <==> s.errors || s.widx + |str| > |s.data|)
    && (r.errors ==> r.data == s.data && r.widx == s.widx)
    && (!r.errors ==> Written(r) == Written(s) + str && r.data[r.widx..] == s.data[r.widx..])
  }

  /** `stream_append_byte` (util.c:123-129). */
  function AppendByte(s: Stream, b: byte): (r: Stream)
    requires Valid(s)
    ensures AppendsWithinCap(s, [b], r)
  {
    var errors := s.errors || s.widx + 1 > |s.data|;
    if errors then s.(errors := true)
    else Stream(s.data[s.widx := b], s.widx + 1, false)
  }

  /** `stream_append_s8` (util.c:131-139): the copy is `mem_copy` into the free tail. */
  function AppendS8(s: Stream, str: seq<byte>): (r: Stream)
    requires Valid(s)
    ensures AppendsWithinCap(s, str, r)
  {
    var errors := s.errors || |s.data| - s.widx < |str|;
    if errors then s.(errors := true)
    else
      var r := Stream(Overwrite(s.data, s.widx, str), s.widx + |str|, false);
      assert Written(r) == Written(s) + str;
      r
  }

  /** Once a stream has failed, appends change nothing at all. */
  lemma ErrorsSticky(s: Stream, b: byte, str: seq<byte>)
    requires Valid(s) && s.errors
    ensures AppendByte(s, b) == s && AppendS8(s, str) == s
  {
  }

  /** The strings of an array laid end to end. */
  function Concat(strs: seq<seq<byte>>): (r: seq<byte>)
    decreases |strs|
  {
    if |strs| == 0 then [] else strs[0] + Concat(strs[1..])
  }

  /** `stream_append_s8_array` (util.c:141-149): the strings appended one after another. */
  function AppendS8Array(s: Stream, strs: seq<seq<byte>>): (r: Stream)
    requires Valid(s)
    ensures Valid(r) && |r.data| == |s.data|
    decreases |strs|
  {
    if |strs| == 0 then s else AppendS8Array(AppendS8(s, strs[0]), strs[1..])
  }

  /** Appending an array of strings is appending their concatenation: both fail on the same
      streams, and when neither fails they write the same bytes. */
  lemma {:induction false} AppendArrayIsAppendConcat(s: Stream, strs: seq<seq<byte>>)
    requires Valid(s)
    ensures AppendS8Array(s, strs).errors == AppendS8(s, Concat(strs)).errors
    ensures !AppendS8Array(s, strs).errors ==> Written(AppendS8Array(s, strs)) == Written(s) + Concat(strs)
    decreases |strs|
  {
    hide AppendS8;
    if |strs| > 0 {
      var s1 := AppendS8(s, strs[0]);
      AppendArrayIsAppendConcat(s1, strs[1..]);
      if !s1.errors {
        assert Written(s1) + Concat(strs[1..]) == Written(s) + Concat(strs);
      }
    }
  }

  /** A failed stream stays as it is through any array of appends. */
  lemma {:induction false} ArrayErrorsSticky(s: Stream, strs: seq<seq<byte>>)
    requires Valid(s) && s.errors
    ensures AppendS8Array(s, strs) == s
    decreases |strs|
  {
    if |strs| > 0 {
      ArrayErrorsSticky(AppendS8(s, strs[0]), strs[1..]);
    }
  }

  /** How many of the leading strings fit, one after another, into `room` bytes. */
  function FittingCount(room: int, strs: seq<seq<byte>>): (k: nat)
    ensures k <= |strs|
    decreases |strs|
  {
    if |strs| == 0 || room < |strs[0]| then 0 else 1 + FittingCount(room - |strs[0]|, strs[1..])
  }

  /** An array append from a sound stream writes the leading strings that fit whole, in
      order, and fails exactly when it reaches one that does not; nothing past the written
      bytes changes. */
  lemma {:induction false} AppendArrayPartial(s: Stream, strs: seq<seq<byte>>)
    requires Valid(s) && !s.errors
    ensures var r, k := AppendS8Array(s, strs), FittingCount(|s.data| - s.widx, strs);
            && (r.errors <==> k < |strs|)
            && Written(r) == Written(s) + Concat(strs[..k])
            && r.data[r.widx..] == s.data[r.widx..]
    decreases |strs|
  {
    if |strs| == 0 {
      assert strs[..0] == [];
    } else {
      var s1, rest := AppendS8(s, strs[0]), strs[1..];
      var r := AppendS8Array(s, strs);
      assert r == AppendS8Array(s1, rest);
      if s1.errors {
        ArrayErrorsSticky(s1, rest);
        assert strs[..0] == [];
      } else {
        AppendArrayPartial(s1, rest);
        var k' := FittingCount(|s1.data| - s1.widx, rest);
        assert FittingCount(|s.data| - s.widx, strs) == 1 + k';
        assert strs[..1 + k'][1..] == rest[..k'];
        assert Concat(strs[..1 + k']) == strs[0] + Concat(rest[..k']);
        assert Written(r) == Written(s) + Concat(strs[..1 + k']);
        assert r.widx >= s1.widx;
        assert s1.data[s1.widx..] == s.data[s1.widx..];
        assert s1.data[r.widx..] == s1.data[s1.widx..][r.widx - s1.widx..];
        assert s.data[r.widx..] == s.data[s1.widx..][r.widx - s1.widx..];
      }
    }
  }

  /** The append promise leaves one possible stream: the one `stream_append_s8` produces. */
  lemma AppendsDetermined(s: Stream, str: seq<byte>, r: Stream)
    requires Valid(s) && AppendsWithinCap(s, str, r)
    ensures r == AppendS8(s, str)
  {
    if !r.errors {
      assert r.data == r.data[..r.widx] + r.data[r.widx..];
      assert r.data == Overwrite(s.data, s.widx, str);
    }
  }

  /** Appending one byte is appending the one-byte string. */
  lemma AppendByteIsAppendS8(s: Stream, b: byte)
    requires Valid(s)
    ensures AppendByte(s, b) == AppendS8(s, [b])
  {
    if s.widx + 1 <= |s.data| {
      assert s.data[s.widx := b] == Overwrite(s.data, s.widx, [b]);
    }
  }

  predicate IsDigit(c: byte) { '0' as byte <= c <= '9' as byte }

  predicate AllDigits(d: seq<byte>) { forall i | 0 <= i < |d| :: IsDigit(d[i]) }

  /** The base-10 digits of n, most significant first, without leading zeros ("0" for 0). */
  function Digits(n: nat): (d: seq<byte>)
    ensures 1 <= |d| && AllDigits(d)
  {
    if n < 10 then ['0' as byte + n] else Digits(n / 10) + ['0' as byte + n % 10]
  }

  /** The number a string of decimal digits denotes. */
  function DecimalValue(d: seq<byte>): (v: nat)
    requires AllDigits(d)
    decreases |d|
  {
    if |d| == 0 then 0 else 10 * DecimalValue(d[..|d| - 1]) + (d[|d| - 1] - '0' as byte)
  }

  /** Reading the digits back gives the number. */
  lemma {:induction false} DigitsRoundTrip(n: nat)
    ensures DecimalValue(Digits(n)) == n
  {
    if n >= 10 {
      DigitsRoundTrip(n / 10);
      var d := Digits(n);
      assert d[..|d| - 1] == Digits(n / 10);
    }
  }

  /** The digits are minimal: the first one is '0' only for the number 0 itself. */
  lemma {:induction false} DigitsNoLeadingZero(n: nat)
    ensures Digits(n)[0] == '0' as byte <==> n == 0
  {
    if n >= 10 {
      DigitsNoLeadingZero(n / 10);
    }
  }

  /** A `u64` has at most 20 decimal digits, so util.c's 64-byte scratch buffer is enough. */
  lemma DigitsLength(n: nat)
    ensures n < U64_LIMIT ==> |Digits(n)| <= 20
  {
    DigitsBelowPower(n, 20);
  }

  function Pow10(k: nat): (r: nat)
    ensures r >= 1
  {
    if k == 0 then 1 else 10 * Pow10(k - 1)
  }

  /** A number below 10^k has at most k digits. */
  lemma {:induction false} DigitsBelowPower(n: nat, k: nat)
    ensures n < Pow10(k) && k >= 1 ==> |Digits(n)| <= k
    ensures k == 20 ==> Pow10(k) == 100_000_000_000_000_000_000
  {
    if k == 20 {
      assert Pow10(20) == 100_000_000_000_000_000_000 by {
        Pow10Unfold();
      }
    }
    if n >= 10 && k >= 2 && n < Pow10(k) {
      DigitsBelowPower(n / 10, k - 1);
    }
  }

  lemma Pow10Unfold()
    ensures Pow10(20) == 100_000_000_000_000_000_000
  {
    assert Pow10(4) == 10000;
    assert Pow10(8) == 100_000_000;
    assert Pow10(12) == 1_000_000_000_000;
    assert Pow10(16) == 10_000_000_000_000_000;
  }

  /** The digit loop of `stream_append_u64` (util.c:151-159): digits are produced least
      significant first into the top of a scratch buffer, one per `do ... while (n /= 10)`. */
  method U64Digits(n: nat) returns (d: seq<byte>)
    requires n < U64_LIMIT
    ensures d == Digits(n)
    ensures DecimalValue(d) == n && |d| <= 20
  {
    var m := n;
    d := ['0' as byte + m % 10];
    m := m / 10;
    while m != 0
      invariant m == 0 ==> d == Digits(n)
      invariant m != 0 ==> Digits(n) == Digits(m) + d
      decreases m
    {
      d := ['0' as byte + m % 10] + d;
      m := m / 10;
    }
    DigitsRoundTrip(n);
    DigitsLength(n);
  }

  /** `stream_append_u64` (util.c:151-159). */
  method AppendU64(s: Stream, n: nat) returns (r: Stream)
    requires Valid(s) && n < U64_LIMIT
    ensures AppendsWithinCap(s, Digits(n), r)
  {
    var d := U64Digits(n);
    r := AppendS8(s, d);
  }

  /** The text `stream_append_i64` writes for n: a '-' for negative n, then the digits of |n|. */
  function SignedDecimal(n: int): (t: seq<byte>)
  {
    if n < 0 then ['-' as byte] + Digits(-n) else Digits(n)
  }

  /** `stream_append_i64` (util.c:161-169). For INT64_MIN, `n *= -1` is a signed overflow,
      which C leaves undefined; the model takes the two's-complement result, INT64_MIN again,
      whose conversion to `u64` is 2^63, so the digits of 2^63 follow the '-'. The '-' is a
      separate append: when it fits and the digits do not, the stream fails with the '-'
      already written. */
  method AppendI64(s: Stream, n: int) returns (r: Stream)
    requires Valid(s) && -I64_LIMIT <= n < I64_LIMIT
    ensures Valid(r) && |r.data| == |s.data|
    ensures r.errors <==> s.errors || s.widx + |SignedDecimal(n)| > |s.data|
    ensures !r.errors ==> Written(r) == Written(s) + SignedDecimal(n)
    ensures r.errors ==>
              if !s.errors && n < 0 && s.widx < |s.data|
              then r.widx == s.widx + 1 && r.data == s.data[s.widx := '-' as byte]
              else r.widx == s.widx && r.data == s.data
    ensures s.errors ==> r == s
  {
    hide AppendByte, AppendS8, Digits;
    if n < 0 {
      var s1 := AppendByte(s, '-' as byte);
      assert !s1.errors ==> s1.widx == s.widx + 1;
      assert |SignedDecimal(n)| == 1 + |Digits(-n)|;
      r := AppendU64(s1, -n);
      if !r.errors {
        assert Written(r) == Written(s) + ['-' as byte] + Digits(-n);
      }
    } else {
      r := AppendU64(s, n);
    }
  }

  /** The text of `stream_append_i64` read back: sign and digits give n again. */
  lemma SignedDecimalRoundTrip(n: int)
    ensures var t := SignedDecimal(n);
            if n < 0 then t[0] == '-' as byte && DecimalValue(t[1..]) == -n
            else AllDigits(t) && DecimalValue(t) == n
  {
    if n < 0 {
      DigitsRoundTrip(-n);
      assert SignedDecimal(n)[1..] == Digits(-n);
    } else {
      DigitsRoundTrip(n);
    }
  }

  /** `arena_stream` (util.c:98-106): the whole free part of the arena becomes the stream, and
      the arena is left empty. */
  function ArenaStream(mem: seq<byte>, a: Arenas.Arena): (r: (Stream, Arenas.Arena))
    requires Arenas.Valid(a) && a.end <= |mem|
    ensures Valid(r.0) && r.0.widx == 0 && !r.0.errors && |r.0.data| == a.end - a.beg
    ensures r.1.beg == r.1.end == a.end
  {
    (Stream(mem[a.beg..a.end], 0, false), Arenas.Arena(a.end, a.end))
  }
}
