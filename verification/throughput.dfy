/** The discrete logic of helpers/throughput.c, which re-uploads one frame of a study to a
    running beamformer to measure its throughput: the argument parser, the check of `main` on
    what is left, the output-point fallback and stage list of `execute_work_item`, and the
    32-entry ring of frame times. `atoi` is not modelled: the frame switch keeps the text of
    its argument. */
module Throughput {
  import opened Base
  import opened HelperArgs

  const LOOP_FLAG: seq<byte> := [45, 45, 108, 111, 111, 112]  // "--loop"
  const CUDA_FLAG: seq<byte> := [45, 45, 99, 117, 100, 97]  // "--cuda"
  const FRAME_FLAG: seq<byte> := [45, 45, 102, 114, 97, 109, 101]  // "--frame"

  /** The switches of `Options` (helpers/throughput.c:38-45). `frame` is the text `atoi` would
      read; `None` leaves `frame_number` at 0. */
  datatype Options = Options(loop: bool, cuda: bool, frame: Option<seq<byte>>)

  const NO_OPTIONS := Options(false, false, None)

  /** `usage` ends the program; otherwise the options and the index of the first remaining
      argument (`remaining` is argv from there on). */
  datatype ParsedArgs = Usage | Parsed(options: Options, next: nat)

  /** `parse_argv` (helpers/throughput.c:299-333). */
  function ParseArgv(argv: seq<seq<byte>>): (r: ParsedArgs)
    requires |argv| >= 1
    ensures r.Parsed? ==> 1 <= r.next <= |argv|
    ensures r.Parsed? && r.next < |argv| ==> !IsSwitch(argv[r.next])
    ensures r.Usage? ==> exists i | 1 <= i < |argv| :: IsSwitch(argv[i]) && !IsFlag(argv[i])
  {
    ParseFrom(argv, 1, NO_OPTIONS)
  }

  predicate IsFlag(a: seq<byte>)
  {
    a == LOOP_FLAG || a == CUDA_FLAG || a == FRAME_FLAG
  }

  /** What `parse_argv` makes of one argument. */
  datatype ArgKind = LoopArg | CudaArg | FrameArg | UnknownSwitch | Operand

  function Classify(a: seq<byte>): (k: ArgKind)
    ensures k == Operand <==> !IsSwitch(a)
    ensures k == UnknownSwitch <==> IsSwitch(a) && !IsFlag(a)
  {
    if a == LOOP_FLAG then LoopArg
    else if a == CUDA_FLAG then CudaArg
    else if a == FRAME_FLAG then FrameArg
    else if IsSwitch(a) then UnknownSwitch
    else Operand
  }

  /** What one pass of the loop of `parse_argv` does at argument i. */
  datatype Step = Continue(next: nat, options: Options) | Stop(result: ParsedArgs)

  /** A "--frame" with nothing after it is consumed and leaves the frame number alone. */
  function ParseOne(argv: seq<seq<byte>>, i: nat, o: Options): (s: Step)
    requires 1 <= i < |argv|
    ensures s.Continue? ==> i < s.next <= |argv|
    ensures s.Continue? && i + 1 == |argv| ==> s.options.frame == o.frame
    ensures s.Stop? && s.result.Parsed? ==>
              s.result.next == i && !IsSwitch(argv[i]) && s.result.options == o
    ensures s.Stop? && s.result.Usage? ==> Classify(argv[i]) == UnknownSwitch
  {
    match Classify(argv[i])
    case LoopArg => Continue(i + 1, o.(loop := true))
    case CudaArg => Continue(i + 1, o.(cuda := true))
    case FrameArg =>
      if i + 1 < |argv| then Continue(i + 2, o.(frame := Some(argv[i + 1])))
      else Continue(i + 1, o)
    case UnknownSwitch => Stop(Usage)
    case Operand => Stop(Parsed(o, i))
  }

  /** The loop of `parse_argv` from argument i on, with the options set so far. */
  function ParseFrom(argv: seq<seq<byte>>, i: nat, o: Options): (r: ParsedArgs)
    requires 1 <= i <= |argv|
    ensures r.Parsed? ==> i <= r.next <= |argv|
    ensures r.Parsed? && r.next < |argv| ==> !IsSwitch(argv[r.next])
    ensures r.Usage? ==> exists k | i <= k < |argv| :: Classify(argv[k]) == UnknownSwitch
    decreases |argv| - i
  {
    if i == |argv| then Parsed(o, i)
    else
      match ParseOne(argv, i, o)
      case Continue(j, o') => ParseFrom(argv, j, o')
      case Stop(r) => r
  }

  /** One command-line switch, as a user writes it. */
  datatype Flag = Loop | Cuda | Frame(number: seq<byte>)

  function FlagArguments(f: Flag): (args: seq<seq<byte>>)
    ensures 1 <= |args| <= 2 && IsFlag(args[0])
  {
    match f
    case Loop => [LOOP_FLAG]
    case Cuda => [CUDA_FLAG]
    case Frame(n) => [FRAME_FLAG, n]
  }

  function Render(flags: seq<Flag>): seq<seq<byte>>
    decreases |flags|
  {
    if |flags| == 0 then [] else FlagArguments(flags[0]) + Render(flags[1..])
  }

  function ApplyFlag(o: Options, f: Flag): Options
  {
    match f
    case Loop => o.(loop := true)
    case Cuda => o.(cuda := true)
    case Frame(n) => o.(frame := Some(n))
  }

  /** The options the switches ask for, later ones taking precedence. */
  function Apply(o: Options, flags: seq<Flag>): Options
    decreases |flags|
  {
    if |flags| == 0 then o else Apply(ApplyFlag(o, flags[0]), flags[1..])
  }

  /** Parsing a rendered command line recovers the switches and stops at the base path. */
  lemma ParseRendered(argv0: seq<byte>, flags: seq<Flag>, rest: seq<seq<byte>>)
    requires |rest| == 0 || !IsSwitch(rest[0])
    ensures ParseArgv([argv0] + Render(flags) + rest)
            == Parsed(Apply(NO_OPTIONS, flags), 1 + |Render(flags)|)
  {
    var argv := [argv0] + Render(flags) + rest;
    ArgsAtJoin([argv0], Render(flags), rest);
    if |rest| > 0 {
      assert argv[1 + |Render(flags)|] == rest[0];
    }
    ParseFromRendered(argv, 1, flags, NO_OPTIONS);
  }

  /** Rendered switches at argument i, followed by the end or a non-switch, parse back. */
  lemma {:induction false} ParseFromRendered(argv: seq<seq<byte>>, i: nat, flags: seq<Flag>, o: Options)
    requires 1 <= i && ArgsAt(argv, i, Render(flags))
    requires i + |Render(flags)| == |argv| || !IsSwitch(argv[i + |Render(flags)|])
    ensures ParseFrom(argv, i, o) == Parsed(Apply(o, flags), i + |Render(flags)|)
    decreases |flags|
  {
    if |flags| == 0 {
      assert flags == [];
      ParseStops(argv, i, o);
    } else {
      var f, rest := flags[0], flags[1..];
      var j, o' := i + |FlagArguments(f)|, ApplyFlag(o, f);
      RenderedTail(argv, i, flags);
      ParseFromRendered(argv, j, rest, o');
      ParseStep(argv, i, o, f);
      AppliedTail(o, flags, i);
    }
  }

  /** The first switch of a rendered list is at i and the others follow it. */
  lemma RenderedTail(argv: seq<seq<byte>>, i: nat, flags: seq<Flag>)
    requires |flags| > 0 && ArgsAt(argv, i, Render(flags))
    ensures var j := i + |FlagArguments(flags[0])|;
            && ArgsAt(argv, i, FlagArguments(flags[0])) && ArgsAt(argv, j, Render(flags[1..]))
            && j + |Render(flags[1..])| == i + |Render(flags)|
  {
    hide FlagArguments, IsFlag;
    assert Render(flags) == FlagArguments(flags[0]) + Render(flags[1..]);
    ArgsAtSplit(argv, i, FlagArguments(flags[0]), Render(flags[1..]));
  }

  /** Applying the first switch and then the others is applying them all. */
  lemma AppliedTail(o: Options, flags: seq<Flag>, i: nat)
    requires |flags| > 0
    ensures Parsed(Apply(ApplyFlag(o, flags[0]), flags[1..]), i + |FlagArguments(flags[0])| + |Render(flags[1..])|)
            == Parsed(Apply(o, flags), i + |Render(flags)|)
  {
    hide ApplyFlag, FlagArguments;
    assert Render(flags) == FlagArguments(flags[0]) + Render(flags[1..]);
  }

  /** Parsing stops at the end and at an argument that is not a switch. */
  lemma ParseStops(argv: seq<seq<byte>>, i: nat, o: Options)
    requires 1 <= i <= |argv| && (i == |argv| || !IsSwitch(argv[i]))
    ensures ParseFrom(argv, i, o) == Parsed(Apply(o, []), i + |Render([])|)
  {
    if i < |argv| {
      assert Classify(argv[i]) == Operand;
    }
  }

  /** One rendered switch is parsed back as that switch. */
  lemma ParseStep(argv: seq<seq<byte>>, i: nat, o: Options, f: Flag)
    requires 1 <= i && ArgsAt(argv, i, FlagArguments(f))
    ensures ParseFrom(argv, i, o) == ParseFrom(argv, i + |FlagArguments(f)|, ApplyFlag(o, f))
  {
    assert argv[i + 0] == FlagArguments(f)[0];
    match f
    case Frame(n) =>
      assert argv[i + 1] == FlagArguments(f)[1] == n;
    case _ =>
  }

  /** What `main` goes on with: the options, the base path and the study. The study is
      `None` where the source turns the null pointer that ends argv into a string. */
  datatype Launch = UsageExit | Start(options: Options, basePath: seq<byte>, study: Option<seq<byte>>)

  /** `main` as written (helpers/throughput.c:463-476): `BETWEEN(remaining_count, 1, 2)`
      accepts a single remaining argument, and `remaining[1]` is then the null pointer after
      the last argument. */
  function LaunchAsWritten(argv: seq<seq<byte>>): (r: Launch)
    requires |argv| >= 1
    ensures r.Start? <==> ParseArgv(argv).Parsed? && 1 <= |argv| - ParseArgv(argv).next <= 2
    ensures r.Start? ==> r.basePath == argv[ParseArgv(argv).next]
    ensures r.Start? ==> (r.study.None? <==> ParseArgv(argv).next + 1 == |argv|)
  {
    var p := ParseArgv(argv);
    if p.Usage? || !(1 <= |argv| - p.next <= 2) then UsageExit
    else Start(p.options, argv[p.next], if p.next + 1 < |argv| then Some(argv[p.next + 1]) else None)
  }

  /** "throughput base": one remaining argument passes the check and the study is read from
      the null pointer that ends argv. */
  lemma LaunchReadsMissingStudy()
    ensures var argv: seq<seq<byte>> := [[116], [98]];
            LaunchAsWritten(argv) == Start(NO_OPTIONS, [98], None)
  {
    var argv: seq<seq<byte>> := [[116], [98]];
    assert !IsSwitch(argv[1]);
    assert ParseArgv(argv) == Parsed(NO_OPTIONS, 1);
  }

  /** `main` as the usage line "base_path study" intends: exactly two remaining arguments. */
  function LaunchFrom(argv: seq<seq<byte>>): (r: Launch)
    requires |argv| >= 1
    ensures r.Start? <==> ParseArgv(argv).Parsed? && ParseArgv(argv).next + 2 == |argv|
    ensures r.Start? ==>
              var p := ParseArgv(argv);
              && r.options == p.options && r.basePath == argv[p.next]
              && r.study == Some(argv[p.next + 1])
  {
    var p := ParseArgv(argv);
    if p.Usage? || |argv| - p.next != 2 then UsageExit
    else Start(p.options, argv[p.next], Some(argv[p.next + 1]))
  }

  /** The corrected `main` starts exactly where the written one starts with a real study. */
  lemma LaunchAgrees(argv: seq<seq<byte>>)
    requires |argv| >= 1
    ensures LaunchFrom(argv).Start? <==> LaunchAsWritten(argv).Start? && LaunchAsWritten(argv).study.Some?
    ensures LaunchFrom(argv).Start? ==> LaunchFrom(argv) == LaunchAsWritten(argv)
  {
  }

  /** The output grid of `execute_work_item` (helpers/throughput.c:386-390): the settings'
      points unless their x, y and z are all 0, then `g_output_points`; one frame either way. */
  function OutputPoints(settings: seq<nat>): (p: seq<nat>)
    requires |settings| == 4
    ensures |p| == 4 && p[3] == 1
    ensures settings[..3] != [0, 0, 0] ==> p[..3] == settings[..3]
    ensures settings[..3] == [0, 0, 0] ==> p == DEFAULT_OUTPUT_POINTS
  {
    var grid := if settings[0] != 0 || settings[1] != 0 || settings[2] != 0 then settings
                else DEFAULT_OUTPUT_POINTS;
    grid[3 := 1]
  }

  /** Choosing the output points again from the chosen ones keeps them: the grid is never all
      zero. */
  lemma OutputPointsSettle(settings: seq<nat>)
    requires |settings| == 4
    ensures var p := OutputPoints(settings);
            p[..3] != [0, 0, 0] && OutputPoints(p) == p
  {
    var p := OutputPoints(settings);
    assert p[..3] != [0, 0, 0] by {
      if settings[..3] == [0, 0, 0] {
        assert p[..3][0] == 512;
      } else {
        assert p[..3] == settings[..3];
      }
    }
    var q := OutputPoints(p);
    assert q[..3] == p[..3];
    assert q == q[..3] + [q[3]] && p == p[..3] + [p[3]];
  }

  /** The stage list of `execute_work_item` (helpers/throughput.c:408-412). */
  function Stages(cuda: bool): (s: seq<Shader>)
    ensures |s| == 2 && s[1] == Das
    ensures CudaDecode in s <==> cuda
    ensures Decode in s <==> !cuda
  {
    [if cuda then CudaDecode else Decode, Das]
  }

  /** `x & (2^n - 1)`: the value of the low n bits of x, taken one bit at a time. */
  function LowBits(x: nat, n: nat): nat
  {
    if n == 0 then 0 else x % 2 + 2 * LowBits(x / 2, n - 1)
  }

  /** Keeping the low n bits is the remainder by 2^n. */
  lemma {:induction false} LowBitsIsMod(x: nat, n: nat)
    ensures LowBits(x, n) == x % Pow2(n)
  {
    if n > 0 {
      LowBitsIsMod(x / 2, n - 1);
      HalvingMod(x, Pow2(n - 1));
    }
  }

  /** The remainder by 2m is the low bit plus twice the remainder of the halved value by m. */
  lemma HalvingMod(x: nat, m: nat)
    requires m > 0
    ensures x % (2 * m) == 2 * ((x / 2) % m) + x % 2
  {
    var q, r := (x / 2) / m, (x / 2) % m;
    assert x / 2 == q * m + r;
    assert x == 2 * (x / 2) + x % 2;
    assert 2 * (q * m + r) == q * (2 * m) + 2 * r;
    QuotientForm(q, 2 * m, 2 * r + x % 2);
  }

  /** The entry of the 32-entry `times` array written for a frame (helpers/throughput.c:422,
      helpers/throughput.c:439): `frame & 31` on the `u32` counter. */
  function RingSlot(frame: nat): (slot: nat)
    requires IsU32(frame)
    ensures slot < 32
    ensures slot == frame % 32
  {
    LowBitsIsMod(frame, 5);
    assert Pow2(5) == 32;
    LowBits(frame, 5)
  }

  /** The counter after one more sent frame (`frame++` on a `u32`). */
  function NextFrame(frame: nat): (r: nat)
    requires IsU32(frame)
    ensures IsU32(r)
  {
    WrapU32(frame + 1)
  }

  /** k frames later the slot has moved k places round the ring, across the `u32`
      wrap-around too, because 32 divides 2^32. */
  lemma RingAdvance(frame: nat, k: nat)
    requires IsU32(frame)
    ensures RingSlot(WrapU32(frame + k)) == (RingSlot(frame) + k) % 32
  {
    var w := WrapU32(frame + k);
    var q := (frame + k) / U32_LIMIT;
    assert frame + k == q * U32_LIMIT + w;
    var a, s := w / 32, w % 32;
    var b, t := frame / 32, frame % 32;
    assert w == a * 32 + s && frame == b * 32 + t;
    var c := q * 0x800_0000 + a - b;
    assert t + k == c * 32 + s;
    QuotientForm(c, 32, s);
  }

  /** The last 32 frames occupy 32 different slots, so the 32-frame average covers each of
      them once. */
  lemma RingWindowDistinct(frame: nat, j: nat, k: nat)
    requires IsU32(frame) && j < k < 32
    ensures RingSlot(WrapU32(frame + j)) != RingSlot(WrapU32(frame + k))
  {
    RingAdvance(frame, j);
    RingAdvance(frame, k);
    var s0 := RingSlot(frame);
    SlotOfSum(s0, j);
    SlotOfSum(s0, k);
  }

  /** A slot moved forward by less than a full turn: the sum, or the sum less 32. */
  lemma SlotOfSum(s: nat, j: nat)
    requires s < 32 && j < 32
    ensures (s + j) % 32 == if s + j < 32 then s + j else s + j - 32
  {
    if s + j < 32 {
      QuotientForm(0, 32, s + j);
    } else {
      QuotientForm(1, 32, s + j - 32);
    }
  }
}
