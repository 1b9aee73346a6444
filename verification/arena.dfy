/** The bump allocator of util.c: `arena_commit`, `alloc_`, `sub_arena` and the temporary-arena
    save point. An arena is the free address range [beg, end); an arena whose `beg` is 0 is the
    special zero arena that hands out nothing. */
module Arenas {
  import opened Base
  import opened Memory

  datatype Arena = Arena(beg: nat, end: nat)

  predicate Valid(a: Arena) { a.beg <= a.end }

  /** `a2` is `a` after some allocations: the same end, a start that only moved up. */
  predicate Grown(a: Arena, a2: Arena) { a2.end == a.end && a.beg <= a2.beg <= a2.end }

  /** The bytes needed to round `beg` up to a multiple of the power of two `align`. util.c writes
      this as `-(uintptr_t)beg & (align - 1)`; for a power of two at most 2^63 the mask is the
      remainder modulo `align`. */
  function Padding(beg: nat, align: nat): (pad: nat)
    requires IsPowerOfTwo(align)
    ensures pad < align && (beg + pad) % align == 0
    ensures beg % align == 0 ==> pad == 0
  {
    PowerOfTwoNotMultipleOfThree(align);
    var rem := beg % align;
    if rem == 0 then 0
    else
      RoundUpMultiple(beg, align);
      align - rem
  }

  /** Rounding up to the next multiple of m lands on a multiple of m. */
  lemma RoundUpMultiple(beg: nat, m: nat)
    requires m > 0 && beg % m != 0
    ensures (beg + (m - beg % m)) % m == 0
  {
    var q := beg / m;
    assert beg == q * m + beg % m;
    assert beg + (m - beg % m) == (q + 1) * m;
    MulDivExact(q + 1, m);
  }

  /** `arena_commit` (util.c:42-47): claim `size` bytes at the start of the arena. The ASSERT
      that the arena holds that many bytes is the `None` result. */
  function ArenaCommit(a: Arena, size: nat): (r: Option<Arena>)
    requires Valid(a)
    ensures r.Some? <==> size <= a.end - a.beg
    ensures r.Some? ==> Grown(a, r.value) && r.value.beg - a.beg == size
  {
    if a.end - a.beg >= size then Some(Arena(a.beg + size, a.end)) else None
  }

  datatype AllocResult =
    | ZeroArena                                        // the special 0 arena: a null pointer
    | OutOfMemory                                      // the "arena OOM" ASSERT
    | Allocated(arena: Arena, p: nat, mem: seq<byte>)  // a zeroed block at p

  /** `alloc_` (util.c:49-66): `count` items of `len` bytes aligned to `align`, cleared to 0. */
  function Alloc(mem: seq<byte>, a: Arena, len: nat, align: nat, count: nat): (r: AllocResult)
    requires Valid(a) && a.end <= |mem| && len > 0 && IsPowerOfTwo(align)
    ensures r.ZeroArena? <==> a.beg == 0
    ensures r.OutOfMemory? <==> a.beg != 0 && a.beg + Padding(a.beg, align) + count * len > a.end
    ensures r.Allocated? ==>
      && r.p % align == 0 && a.beg <= r.p < a.beg + align
      && Grown(a, r.arena) && r.arena.beg == r.p + count * len
      && |r.mem| == |mem|
      && (forall k | r.p <= k < r.arena.beg :: r.mem[k] == 0)
      && (forall k | 0 <= k < |mem| && !(r.p <= k < r.arena.beg) :: r.mem[k] == mem[k])
  {
    if a.beg == 0 then ZeroArena
    else
      var padding := Padding(a.beg, align);
      var available := a.end - a.beg - padding;
      DivisionBound(count, available, len);
      if available < 0 || count > available / len then OutOfMemory
      else
        var p := a.beg + padding;
        Allocated(Arena(p + count * len, a.end), p, Overwrite(mem, p, Fill(0, count * len)))
  }

  /** `count > available / len` is exactly "count items of len bytes do not fit in available". */
  lemma DivisionBound(count: nat, available: int, len: nat)
    requires len > 0
    ensures available >= 0 ==> (count > available / len <==> count * len > available)
  {
    if available >= 0 {
      var q := available / len;
      assert available == q * len + available % len;
      if count > q {
        var d: nat := count - q - 1;
        assert count * len == q * len + len + d * len;
      } else {
        var d: nat := q - count;
        assert q * len == count * len + d * len;
      }
    }
  }

  datatype SubArenaResult = CommitFailed | Carved(parent: Arena, child: Arena)

  /** `sub_arena` (util.c:68-79): an aligned arena of `len` bytes carved from the start of `a`. */
  function SubArena(a: Arena, len: nat, align: nat): (r: SubArenaResult)
    requires Valid(a) && IsPowerOfTwo(align)
    ensures r.Carved? <==> a.beg + Padding(a.beg, align) + len <= a.end
    ensures r.Carved? ==>
      && r.child.beg % align == 0 && a.beg <= r.child.beg
      && r.child.end - r.child.beg == len
      && Grown(a, r.parent) && r.parent.beg == r.child.end
  {
    var padding := Padding(a.beg, align);
    var child := Arena(a.beg + padding, a.beg + padding + len);
    match ArenaCommit(a, len + padding)
    case None => CommitFailed
    case Some(parent) => Carved(parent, child)
  }

  /** A save point of `begin_temp_arena` (util.c:81-86). */
  datatype TempArena = TempArena(oldBeg: nat)

  function BeginTempArena(a: Arena): (t: TempArena)
    ensures t.oldBeg == a.beg
  {
    TempArena(a.beg)
  }

  /** `end_temp_arena` (util.c:88-96): rewind to the save point; `None` is the failing ASSERT
      that the arena did not move below it. */
  function EndTempArena(a: Arena, t: TempArena): (r: Option<Arena>)
    ensures r.Some? <==> a.beg >= t.oldBeg
    ensures r.Some? ==> r.value.beg == t.oldBeg && r.value.end == a.end
  {
    if a.beg >= t.oldBeg then Some(Arena(t.oldBeg, a.end)) else None
  }

  /** One allocation made between the save point and its release. */
  datatype Request =
    | AllocRequest(len: nat, align: nat, count: nat)
    | CommitRequest(size: nat)
    | SubArenaRequest(subLen: nat, subAlign: nat)

  predicate WellFormed(q: Request)
  {
    match q
    case AllocRequest(len, align, _) => len > 0 && IsPowerOfTwo(align)
    case CommitRequest(_) => true
    case SubArenaRequest(_, align) => IsPowerOfTwo(align)
  }

  /** The arena after one request, or `None` when it fails (a null block or a failed ASSERT). */
  function Step(mem: seq<byte>, a: Arena, q: Request): (r: Option<(Arena, seq<byte>)>)
    requires Valid(a) && a.end <= |mem| && WellFormed(q)
    ensures r.Some? ==> Grown(a, r.value.0) && |r.value.1| == |mem|
  {
    match q
    case AllocRequest(len, align, count) =>
      (match Alloc(mem, a, len, align, count)
       case Allocated(a2, _, mem2) => Some((a2, mem2))
       case _ => None)
    case CommitRequest(size) =>
      (match ArenaCommit(a, size)
       case Some(a2) => Some((a2, mem))
       case None => None)
    case SubArenaRequest(len, align) =>
      (match SubArena(a, len, align)
       case Carved(parent, _) => Some((parent, mem))
       case CommitFailed => None)
  }

  /** The arena after a run of requests that all succeed. */
  function Run(mem: seq<byte>, a: Arena, qs: seq<Request>): (r: Option<(Arena, seq<byte>)>)
    requires Valid(a) && a.end <= |mem| && forall i | 0 <= i < |qs| :: WellFormed(qs[i])
    decreases |qs|
  {
    if |qs| == 0 then Some((a, mem))
    else
      match Step(mem, a, qs[0])
      case None => None
      case Some((a2, mem2)) => Run(mem2, a2, qs[1..])
  }

  /** Any run of allocations only moves the start of the arena up and keeps its end. */
  lemma {:induction false} RunGrows(mem: seq<byte>, a: Arena, qs: seq<Request>)
    requires Valid(a) && a.end <= |mem| && forall i | 0 <= i < |qs| :: WellFormed(qs[i])
    ensures Run(mem, a, qs).Some? ==> Grown(a, Run(mem, a, qs).value.0)
    decreases |qs|
  {
    if |qs| > 0 {
      match Step(mem, a, qs[0])
      case None =>
      case Some((a2, mem2)) =>
        assert forall i | 0 <= i < |qs[1..]| :: WellFormed(qs[1..][i]) by {
          forall i | 0 <= i < |qs[1..]| ensures WellFormed(qs[1..][i]) {
            assert qs[1..][i] == qs[i + 1];
          }
        }
        RunGrows(mem2, a2, qs[1..]);
    }
  }

  /** The temporary-arena discipline: whatever succeeds between `begin_temp_arena` and
      `end_temp_arena`, the release passes its ASSERT and gives back the arena as it was. */
  lemma TempArenaRestores(mem: seq<byte>, a: Arena, qs: seq<Request>)
    requires Valid(a) && a.end <= |mem| && forall i | 0 <= i < |qs| :: WellFormed(qs[i])
    requires Run(mem, a, qs).Some?
    ensures EndTempArena(Run(mem, a, qs).value.0, BeginTempArena(a)) == Some(a)
  {
    RunGrows(mem, a, qs);
  }

  /** Two successive allocations return disjoint blocks, the second above the first. */
  lemma AllocationsDisjoint(mem: seq<byte>, a: Arena, len1: nat, align1: nat, count1: nat,
                            len2: nat, align2: nat, count2: nat)
    requires Valid(a) && a.end <= |mem| && len1 > 0 && len2 > 0
    requires IsPowerOfTwo(align1) && IsPowerOfTwo(align2)
    requires Alloc(mem, a, len1, align1, count1).Allocated?
    ensures var first := Alloc(mem, a, len1, align1, count1);
            var second := Alloc(first.mem, first.arena, len2, align2, count2);
            second.Allocated? ==> first.p + count1 * len1 <= second.p
  {
  }
}
