/** The byte-buffer primitives of util.c: `mem_clear`, `mem_copy` and `mem_move`. Memory is a
    byte sequence indexed by address, and a pointer is an address into it. */
module Memory {
  import opened Base

  /** `mem` with `data` written at address `at` and every other byte kept. Every fill and
      copy below is measured against this reference. */
  function Overwrite(mem: seq<byte>, at: nat, data: seq<byte>): (r: seq<byte>)
    requires at + |data| <= |mem|
    ensures |r| == |mem|
    ensures forall k | 0 <= k < at :: r[k] == mem[k]
    ensures forall k | at <= k < at + |data| :: r[k] == data[k - at]
    ensures forall k | at + |data| <= k < |mem| :: r[k] == mem[k]
  {
    mem[..at] + data + mem[at + |data|..]
  }

  /** `len` copies of the byte `c`. */
  function Fill(c: byte, len: nat): (r: seq<byte>)
    ensures |r| == len && forall k | 0 <= k < len :: r[k] == c
  {
    seq(len, _ => c)
  }

  /** A sequence that agrees with `Overwrite(mem, at, data)` at every index is that sequence. */
  lemma OverwriteExt(r: seq<byte>, mem: seq<byte>, at: nat, data: seq<byte>)
    requires at + |data| <= |mem| && |r| == |mem|
    requires forall k | 0 <= k < |r| :: r[k] == if at <= k < at + |data| then data[k - at] else mem[k]
    ensures r == Overwrite(mem, at, data)
  {
    var o := Overwrite(mem, at, data);
    forall k | 0 <= k < |r|
      ensures r[k] == o[k]
    {
      if k < at {
      } else if k < at + |data| {
      } else {
      }
    }
  }

  /** `mem_clear` (util.c:18-24): bytes p .. p + len - 1 set to `c`, written from the top down. */
  method MemClear(mem: seq<byte>, p: nat, c: byte, len: nat) returns (r: seq<byte>)
    requires p + len <= |mem|
    ensures r == Overwrite(mem, p, Fill(c, len))
  {
    r := mem;
    var n := len;
    while n > 0
      invariant 0 <= n <= len && |r| == |mem|
      invariant forall k | 0 <= k < |r| :: r[k] == if p + n <= k < p + len then c else mem[k]
    {
      n := n - 1;
      r := r[p + n := c];
    }
    OverwriteExt(r, mem, p, Fill(c, len));
  }

  /** `mem_copy` (util.c:26-32), with util.c's argument order (source first): a forward byte copy
      of n bytes from `src` to `dest`. The parameters are `restrict`; a forward copy is also
      exact when the destination lies below the source, which is how `mem_move` uses it. */
  method MemCopy(mem: seq<byte>, src: nat, dest: nat, n: nat) returns (r: seq<byte>)
    requires src + n <= |mem| && dest + n <= |mem|
    requires dest <= src || src + n <= dest
    ensures r == Overwrite(mem, dest, mem[src..src + n])
  {
    r := mem;
    var i := 0;
    while i < n
      invariant 0 <= i <= n && |r| == |mem|
      invariant forall k | dest <= k < dest + i :: r[k] == mem[src + (k - dest)]
      invariant forall k | 0 <= k < |r| && !(dest <= k < dest + i) :: r[k] == mem[k]
    {
      assert r[src + i] == mem[src + i];
      r := r[dest + i := r[src + i]];
      i := i + 1;
    }
    OverwriteExt(r, mem, dest, mem[src..src + n]);
  }

  /** `mem_move` (util.c:34-39), source first: forward copy when the destination is below the
      source, otherwise a copy from the top down. The destination ends up holding the ORIGINAL
      source bytes even when the two ranges overlap. */
  method MemMove(mem: seq<byte>, src: nat, dest: nat, n: nat) returns (r: seq<byte>)
    requires src + n <= |mem| && dest + n <= |mem|
    ensures r == Overwrite(mem, dest, mem[src..src + n])
  {
    if dest < src {
      r := MemCopy(mem, src, dest, n);
    } else {
      r := mem;
      var m := n;
      while m > 0
        invariant 0 <= m <= n && |r| == |mem|
        invariant forall k | dest + m <= k < dest + n :: r[k] == mem[src + (k - dest)]
        invariant forall k | 0 <= k < |r| && !(dest + m <= k < dest + n) :: r[k] == mem[k]
      {
        m := m - 1;
        assert r[src + m] == mem[src + m];
        r := r[dest + m := r[src + m]];
      }
      OverwriteExt(r, mem, dest, mem[src..src + n]);
    }
  }

  /** Moving a range onto itself changes nothing. */
  lemma OverwriteSelf(mem: seq<byte>, at: nat, n: nat)
    requires at + n <= |mem|
    ensures Overwrite(mem, at, mem[at..at + n]) == mem
  {
    var o := Overwrite(mem, at, mem[at..at + n]);
    assert forall k | 0 <= k < |mem| :: o[k] == mem[k];
  }

  /** A move and the reverse move restore the memory when the two ranges do not overlap. */
  lemma MoveBackRestores(mem: seq<byte>, src: nat, dest: nat, n: nat)
    requires src + n <= |mem| && dest + n <= |mem|
    requires src + n <= dest || dest + n <= src
    ensures var moved := Overwrite(mem, dest, mem[src..src + n]);
            Overwrite(moved, src, moved[dest..dest + n]) == Overwrite(mem, dest, mem[src..src + n])
  {
    var moved := Overwrite(mem, dest, mem[src..src + n]);
    var back := Overwrite(moved, src, moved[dest..dest + n]);
    forall k | 0 <= k < |mem|
      ensures back[k] == moved[k]
    {
      if src <= k < src + n {
        assert back[k] == moved[dest + (k - src)] == mem[src + (k - src)];
      }
    }
  }
}
