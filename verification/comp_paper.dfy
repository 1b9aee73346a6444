/** The discrete logic of helpers/comp_paper.c, the batch driver that beamforms saved studies:
    its argument parser, the initial gains of the FFT filter, the sequential channel schedule
    of the FFT stage (THREAD_COUNT is 0, helpers/comp_paper.c:17), the channel offset of
    `send_frame`, the output points, the frame scan and the compute-stage list. The file system
    enters as the set of frame numbers whose files exist. */
module CompPaper {
  import opened Base
  import opened HelperArgs

  /** The switches `parse_argv` fills in a `WorkContext`. `outputPrefix` is `None` when
      "--export" is the last argument: the source then reads the terminating null pointer of
      argv as the prefix. */
  datatype Options = Options(analytic: bool, lowPass: bool, matchedFilter: bool,
                             swapPlane: bool, exportData: bool, outputPrefix: Option<seq<byte>>)

  const ANALYTIC_FLAG: seq<byte> := [45, 45, 97, 110, 97, 108, 121, 116, 105, 99]  // "--analytic"
  const LOW_PASS_FLAG: seq<byte> := [45, 45, 108, 111, 119, 45, 112, 97, 115, 115]  // "--low-pass"
  const MATCHED_FILTER_FLAG: seq<byte> := [45, 45, 109, 97, 116, 99, 104, 101, 100, 45, 102, 105, 108, 116, 101, 114]  // "--matched-filter"
  const SWAP_PLANE_FLAG: seq<byte> := [45, 45, 115, 119, 97, 112, 45, 112, 108, 97, 110, 101]  // "--swap-plane"
  const EXPORT_FLAG: seq<byte> := [45, 45, 101, 120, 112, 111, 114, 116]  // "--export"

  const NO_OPTIONS := Options(false, false, false, false, false, None)

  /** `usage` ends the program; otherwise the options and the index of the first argument
      left over. */
  datatype ParsedArgs = Usage | Parsed(options: Options, next: nat)

  /** `parse_argv` (helpers/comp_paper.c:583-619). */
  function ParseArgv(argv: seq<seq<byte>>): (r: ParsedArgs)
    requires |argv| >= 1
    ensures r.Parsed? ==> 1 <= r.next <= |argv| + 1
    ensures r.Parsed? && r.next < |argv| ==> !IsSwitch(argv[r.next])
    ensures r.Parsed? && r.next == |argv| + 1 ==>
              r.options.exportData && r.options.outputPrefix.None? && argv[|argv| - 1] == EXPORT_FLAG
    ensures r.Usage? ==> exists i | 1 <= i < |argv| :: IsSwitch(argv[i]) && !IsFlag(argv[i])
  {
    ParseFrom(argv, 1, NO_OPTIONS)
  }

  predicate IsFlag(a: seq<byte>)
  {
    a == ANALYTIC_FLAG || a == LOW_PASS_FLAG || a == MATCHED_FILTER_FLAG || a == SWAP_PLANE_FLAG ||
    a == EXPORT_FLAG
  }

  /** What `parse_argv` makes of one argument: a known switch, an unknown one, or the first
      operand. */
  datatype ArgKind = AnalyticArg | LowPassArg | MatchedFilterArg | SwapPlaneArg | ExportArg
                   | UnknownSwitch | Operand

  function Classify(a: seq<byte>): (k: ArgKind)
    ensures k == Operand <==> !IsSwitch(a)
    ensures k == UnknownSwitch <==> IsSwitch(a) && !IsFlag(a)
  {
    if a == ANALYTIC_FLAG then AnalyticArg
    else if a == LOW_PASS_FLAG then LowPassArg
    else if a == MATCHED_FILTER_FLAG then MatchedFilterArg
    else if a == SWAP_PLANE_FLAG then SwapPlaneArg
    else if a == EXPORT_FLAG then ExportArg
    else if IsSwitch(a) then UnknownSwitch
    else Operand
  }

  /** What one pass of the loop of `parse_argv` does at argument i: go on at a later argument
      with new options, or end the parse. */
  datatype Step = Continue(next: nat, options: Options) | Stop(result: ParsedArgs)

  function ParseOne(argv: seq<seq<byte>>, i: nat, o: Options): (s: Step)
    requires 1 <= i < |argv|
    ensures s.Continue? ==> i < s.next <= |argv|
    ensures s.Stop? && s.result.Parsed? ==>
              || (s.result.next == i && !IsSwitch(argv[i]) && s.result.options == o)
              || (s.result.next == |argv| + 1 && Classify(argv[i]) == ExportArg
                  && s.result.options.exportData && s.result.options.outputPrefix.None?)
    ensures s.Stop? && s.result.Usage? ==> Classify(argv[i]) == UnknownSwitch
  {
    match Classify(argv[i])
    case AnalyticArg => Continue(i + 1, o.(analytic := true))
    case LowPassArg => Continue(i + 1, o.(lowPass := true))
    case MatchedFilterArg => Continue(i + 1, o.(matchedFilter := true))
    case SwapPlaneArg => Continue(i + 1, o.(swapPlane := true))
    case ExportArg =>
      if i + 1 < |argv| then Continue(i + 2, o.(exportData := true, outputPrefix := Some(argv[i + 1])))
      else Stop(Parsed(o.(exportData := true, outputPrefix := None), i + 2))
    case UnknownSwitch => Stop(Usage)
    case Operand => Stop(Parsed(o, i))
  }

  /** The loop of `parse_argv` from argument i on, with the options set so far. */
  function ParseFrom(argv: seq<seq<byte>>, i: nat, o: Options): (r: ParsedArgs)
    requires 1 <= i <= |argv|
    ensures r.Parsed? ==> i <= r.next <= |argv| + 1
    ensures r.Parsed? && r.next < |argv| ==> !IsSwitch(argv[r.next])
    ensures r.Parsed? && r.next == |argv| + 1 ==>
              r.options.exportData && r.options.outputPrefix.None? && Classify(argv[|argv| - 1]) == ExportArg
    ensures r.Usage? ==> exists k | i <= k < |argv| :: Classify(argv[k]) == UnknownSwitch
    decreases |argv| - i
  {
    if i == |argv| then Parsed(o, i)
    else
      match ParseOne(argv, i, o)
      case Continue(j, o') => ParseFrom(argv, j, o')
      case Stop(r) => r
  }

  /** One command-line switch, as a user writes it. */
  datatype Flag = Analytic | LowPass | MatchedFilter | SwapPlane | Export(path: seq<byte>)

  function FlagArguments(f: Flag): (args: seq<seq<byte>>)
    ensures 1 <= |args| <= 2 && IsFlag(args[0])
  {
    match f
    case Analytic => [ANALYTIC_FLAG]
    case LowPass => [LOW_PASS_FLAG]
    case MatchedFilter => [MATCHED_FILTER_FLAG]
    case SwapPlane => [SWAP_PLANE_FLAG]
    case Export(p) => [EXPORT_FLAG, p]
  }

  function Render(flags: seq<Flag>): (argv: seq<seq<byte>>)
    decreases |flags|
  {
    if |flags| == 0 then [] else FlagArguments(flags[0]) + Render(flags[1..])
  }

  function ApplyFlag(o: Options, f: Flag): Options
  {
    match f
    case Analytic => o.(analytic := true)
    case LowPass => o.(lowPass := true)
    case MatchedFilter => o.(matchedFilter := true)
    case SwapPlane => o.(swapPlane := true)
    case Export(p) => o.(exportData := true, outputPrefix := Some(p))
  }

  /** The options the switches ask for, later ones taking precedence. */
  function Apply(o: Options, flags: seq<Flag>): Options
    decreases |flags|
  {
    if |flags| == 0 then o else Apply(ApplyFlag(o, flags[0]), flags[1..])
  }

  /** Parsing a rendered command line recovers the switches and stops at the base path: the
      parser reads back what a user writes. */
  lemma ParseRendered(argv0: seq<byte>, flags: seq<Flag>, rest: seq<seq<byte>>)
    requires |rest| == 0 || !IsSwitch(rest[0])
    ensures ParseArgv([argv0] + Render(flags) + rest)
            == Parsed(Apply(NO_OPTIONS, flags), 1 + |Render(flags)|)
  {
    var argv := [argv0] + Render(flags) + rest;
    ArgsAtJoin([argv0], Render(flags), rest);
    if |rest| > 0 {
      assert argv[1 + |Render(flags)|] == rest[0];
    }
    ParseFromRendered(argv, 1, flags, NO_OPTIONS);
  }

  /** Rendered switches at argument i, followed by the end or a non-switch, parse back. */
  lemma {:induction false} ParseFromRendered(argv: seq<seq<byte>>, i: nat, flags: seq<Flag>, o: Options)
    requires 1 <= i && ArgsAt(argv, i, Render(flags))
    requires i + |Render(flags)| == |argv| || !IsSwitch(argv[i + |Render(flags)|])
    ensures ParseFrom(argv, i, o) == Parsed(Apply(o, flags), i + |Render(flags)|)
    decreases |flags|
  {
    if |flags| == 0 {
      assert flags == [];
      ParseStops(argv, i, o);
    } else {
      var f, rest := flags[0], flags[1..];
      var j, o' := i + |FlagArguments(f)|, ApplyFlag(o, f);
      RenderedTail(argv, i, flags);
      ParseFromRendered(argv, j, rest, o');
      ParseStep(argv, i, o, f);
      AppliedTail(o, flags, i);
    }
  }

  /** The first switch of a rendered list is at i and the others follow it. */
  lemma RenderedTail(argv: seq<seq<byte>>, i: nat, flags: seq<Flag>)
    requires |flags| > 0 && ArgsAt(argv, i, Render(flags))
    ensures var j := i + |FlagArguments(flags[0])|;
            && ArgsAt(argv, i, FlagArguments(flags[0])) && ArgsAt(argv, j, Render(flags[1..]))
            && j + |Render(flags[1..])| == i + |Render(flags)|
  {
    hide FlagArguments, IsFlag;
    assert Render(flags) == FlagArguments(flags[0]) + Render(flags[1..]);
    ArgsAtSplit(argv, i, FlagArguments(flags[0]), Render(flags[1..]));
  }

  /** Applying the first switch and then the others is applying them all. */
  lemma AppliedTail(o: Options, flags: seq<Flag>, i: nat)
    requires |flags| > 0
    ensures Parsed(Apply(ApplyFlag(o, flags[0]), flags[1..]), i + |FlagArguments(flags[0])| + |Render(flags[1..])|)
            == Parsed(Apply(o, flags), i + |Render(flags)|)
  {
    hide ApplyFlag, FlagArguments;
    assert Render(flags) == FlagArguments(flags[0]) + Render(flags[1..]);
  }

  /** Parsing stops at the end and at an argument that is not a switch. */
  lemma ParseStops(argv: seq<seq<byte>>, i: nat, o: Options)
    requires 1 <= i <= |argv| && (i == |argv| || !IsSwitch(argv[i]))
    ensures ParseFrom(argv, i, o) == Parsed(Apply(o, []), i + |Render([])|)
  {
    if i < |argv| {
      assert Classify(argv[i]) == Operand;
    }
  }

  /** One rendered switch is parsed back as that switch. */
  lemma ParseStep(argv: seq<seq<byte>>, i: nat, o: Options, f: Flag)
    requires 1 <= i && ArgsAt(argv, i, FlagArguments(f))
    ensures ParseFrom(argv, i, o) == ParseFrom(argv, i + |FlagArguments(f)|, ApplyFlag(o, f))
  {
    hide IsFlag;
    assert argv[i + 0] == FlagArguments(f)[0];
    match f
    case Export(p) =>
      assert argv[i + 1] == FlagArguments(f)[1] == p;
    case _ =>
  }

  /** The first loop of `fftw_create_filter` (helpers/comp_paper.c:693-703): the real parts of
      the `samples / 2` filter bins, 1 at both ends and 1 + analytic in between. With fewer than
      two samples the `u32` length minus one wraps and the writes leave the array, so at least
      one bin is required. */
  method InitialGains(samples: nat, analytic: bool) returns (gains: seq<int>)
    requires samples / 2 >= 1
    ensures |gains| == samples / 2
    ensures gains[0] == 1 && gains[|gains| - 1] == 1
    ensures forall i | 0 < i < |gains| - 1 :: gains[i] == if analytic then 2 else 1
  {
    var length := samples / 2;
    var a := new int[length];
    a[0] := 1;
    var i := 1;
    while i < length - 1
      invariant 1 <= i && (length >= 2 ==> i <= length - 1)
      invariant a[0] == 1
      invariant forall k | 0 < k < i && k < length :: a[k] == if analytic then 2 else 1
    {
      a[i] := 1 + (if analytic then 1 else 0);
      i := i + 1;
    }
    a[length - 1] := 1;
    gains := a[..];
  }

  /** The low-pass kernel's centre tap, `(order - 1) / 2` in C's truncating division
      (helpers/comp_paper.c:719-720): the middle of the `order` taps, and 0 for order 0, where
      a flooring division would give -1. */
  function LowPassMidpoint(order: int): (m: int)
    ensures order >= 1 ==> 0 <= m < order && 0 <= (order - 1 - m) - m <= 1
    ensures order == 0 ==> m == 0
  {
    TruncDiv(order - 1, 2)
  }

  /** One channel's work in `fft_thread`: the channel, and the offsets of the `transmits`
      blocks of `samples / 2` bins the filter multiplies into its spectrum. */
  datatype Visit = Visit(channel: nat, blocks: seq<nat>)

  /** `run_fft_work` and `fft_thread` with no worker threads (helpers/comp_paper.c:800-841,
      helpers/comp_paper.c:843-877): the shared counter starts at 0 and the main thread takes
      channels until it reaches `channels`; each is shifted by the offset in `u32`, and with a
      filter each transmit's block sits at channel * stride + transmit * samples, both
      products in `u32`. The ASSERT on the filter length is a precondition. */
  method FftSchedule(samples: nat, channels: nat, transmits: nat, stride: nat, offset: nat,
                     filterLength: nat) returns (visits: seq<Visit>)
    requires IsU32(samples) && IsU32(channels) && IsU32(transmits) && IsU32(stride) && IsU32(offset)
    requires filterLength != 0 ==> filterLength == samples / 2
    ensures |visits| == channels
    ensures forall i | 0 <= i < channels :: visits[i].channel == WrapU32(offset + i)
    ensures forall i | 0 <= i < channels :: filterLength == 0 ==> visits[i].blocks == []
    ensures forall i | 0 <= i < channels :: filterLength != 0 ==> |visits[i].blocks| == transmits
    ensures forall i, t | 0 <= i < channels && 0 <= t < |visits[i].blocks| ::
              visits[i].blocks[t] == WrapU32(visits[i].channel * stride) + WrapU32(t * samples)
  {
    var channelIndex := 0;
    visits := [];
    while true
      invariant channelIndex <= channels && |visits| == channelIndex
      invariant forall i | 0 <= i < channelIndex :: visits[i].channel == WrapU32(offset + i)
      invariant forall i | 0 <= i < channelIndex :: filterLength == 0 ==> visits[i].blocks == []
      invariant forall i | 0 <= i < channelIndex :: filterLength != 0 ==> |visits[i].blocks| == transmits
      invariant forall i, t | 0 <= i < channelIndex && 0 <= t < |visits[i].blocks| ::
                  visits[i].blocks[t] == WrapU32(visits[i].channel * stride) + WrapU32(t * samples)
      decreases channels - channelIndex
    {
      var channel := channelIndex;
      channelIndex := channelIndex + 1;
      if channel >= channels {
        channelIndex := channel;
        break;
      }
      channel := WrapU32(channel + offset);
      var blocks := [];
      if filterLength != 0 {
        var baseOff := WrapU32(channel * stride);
        var transmit := 0;
        while transmit < transmits
          invariant transmit <= transmits && |blocks| == transmit
          invariant forall t | 0 <= t < transmit :: blocks[t] == baseOff + WrapU32(t * samples)
        {
          blocks := blocks + [baseOff + WrapU32(transmit * samples)];
          transmit := transmit + 1;
        }
      }
      visits := visits + [Visit(channel, blocks)];
    }
  }

  /** The channels a schedule visits. */
  function Channels(visits: seq<Visit>): set<nat>
  {
    set i | 0 <= i < |visits| :: visits[i].channel
  }

  /** Without wrap-around the schedule visits offset, offset + 1, ..., offset + channels - 1:
      each of them exactly once, in increasing order. */
  lemma ScheduleVisitsRangeOnce(visits: seq<Visit>, channels: nat, offset: nat)
    requires offset + channels <= U32_LIMIT && |visits| == channels
    requires forall i | 0 <= i < channels :: visits[i].channel == WrapU32(offset + i)
    ensures forall i, j | 0 <= i < j < channels :: visits[i].channel < visits[j].channel
    ensures forall c: nat :: c in Channels(visits) <==> offset <= c < offset + channels
  {
    forall c: nat | offset <= c < offset + channels
      ensures c in Channels(visits)
    {
      assert visits[c - offset].channel == c;
    }
  }

  /** The channel offset of `send_frame` (helpers/comp_paper.c:887-890): with transmit-mode bit
      0 clear and a decoded channel count different from the raw one, the decoded count;
      otherwise 0. */
  function ChannelOffset(transmitMode: nat, rawChannels: nat, decodedChannels: nat): (offset: nat)
    ensures offset == 0 || offset == decodedChannels
    ensures transmitMode % 2 == 0 && rawChannels != decodedChannels ==> offset == decodedChannels
    ensures transmitMode % 2 == 1 || rawChannels == decodedChannels ==> offset == 0
  {
    if transmitMode % 2 == 0 && rawChannels != decodedChannels then decodedChannels else 0
  }

  /** What `send_frame` hands `run_fft_work` (helpers/comp_paper.c:887-892), followed through
      the schedule: with transmit-mode bit 0 clear and differing raw and decoded channel
      counts the FFT covers the second block of decoded channels, decoded .. 2 * decoded - 1,
      and otherwise the first, 0 .. decoded - 1; each such channel is visited once, in order. */
  lemma SendFrameChannels(transmitMode: nat, rawChannels: nat, decodedChannels: nat, visits: seq<Visit>)
    requires 2 * decodedChannels <= U32_LIMIT && |visits| == decodedChannels
    requires forall i | 0 <= i < decodedChannels ::
               visits[i].channel == WrapU32(ChannelOffset(transmitMode, rawChannels, decodedChannels) + i)
    ensures forall i, j | 0 <= i < j < decodedChannels :: visits[i].channel < visits[j].channel
    ensures forall c: nat :: c in Channels(visits) <==>
              if transmitMode % 2 == 0 && rawChannels != decodedChannels
              then decodedChannels <= c < 2 * decodedChannels
              else c < decodedChannels
  {
    ScheduleVisitsRangeOnce(visits, decodedChannels, ChannelOffset(transmitMode, rawChannels, decodedChannels));
  }

  const LAST_SAVED_FRAME_NUMBER: nat := 8

  /** The frame numbers 0..8 whose `_NN.zst` files exist, in increasing order: the scan of
      `execute_work_item` (helpers/comp_paper.c:997-1004). */
  function ValidFrames(onDisk: set<nat>, from: nat): (r: seq<nat>)
    ensures forall i | 0 <= i < |r| :: r[i] in onDisk && from <= r[i] <= LAST_SAVED_FRAME_NUMBER
    ensures forall i, j | 0 <= i < j < |r| :: r[i] < r[j]
    ensures forall f | from <= f <= LAST_SAVED_FRAME_NUMBER && f in onDisk :: f in r
    decreases LAST_SAVED_FRAME_NUMBER + 1 - from
  {
    if from > LAST_SAVED_FRAME_NUMBER then []
    else if from in onDisk then [from] + ValidFrames(onDisk, from + 1)
    else ValidFrames(onDisk, from + 1)
  }

  /** The output points of `execute_work_item` (helpers/comp_paper.c:934-937,
      helpers/comp_paper.c:1006): the settings' grid unless its x, y and z are all 0, then the
      default; the frame count is the smaller of the frames found and the frames asked for. */
  function OutputPoints(settings: seq<nat>, validFrames: nat, frameCount: nat): (p: seq<nat>)
    requires |settings| == 4
    ensures |p| == 4
    ensures settings[..3] != [0, 0, 0] ==> p[..3] == settings[..3]
    ensures settings[..3] == [0, 0, 0] ==> p[..3] == DEFAULT_OUTPUT_POINTS[..3]
    ensures p[3] <= validFrames && p[3] <= frameCount
    ensures p[3] == validFrames || p[3] == frameCount
  {
    var grid := if settings[0] != 0 || settings[1] != 0 || settings[2] != 0 then settings
                else DEFAULT_OUTPUT_POINTS;
    grid[3 := if validFrames < frameCount then validFrames else frameCount]
  }

  /** The chosen output points are a fixed point of the choice: the grid is never all zero, so
      choosing again keeps it, and the frame count is already the smaller one. */
  lemma OutputPointsSettle(settings: seq<nat>, validFrames: nat, frameCount: nat)
    requires |settings| == 4
    ensures var p := OutputPoints(settings, validFrames, frameCount);
            p[..3] != [0, 0, 0] && OutputPoints(p, validFrames, frameCount) == p
  {
    var p := OutputPoints(settings, validFrames, frameCount);
    assert p[..3] != [0, 0, 0] by {
      if settings[..3] == [0, 0, 0] {
        assert p[..3][0] == 512;
      } else {
        assert p[..3] == settings[..3];
      }
    }
    var q := OutputPoints(p, validFrames, frameCount);
    assert q[..3] == p[..3];
    assert q == q[..3] + [q[3]] && p == p[..3] + [p[3]];
  }

  /** The stage list of `execute_work_item` (helpers/comp_paper.c:1010-1015): any FFT
      preprocessing needs the complex decode; the frames are summed when there is more than
      one. */
  function Stages(analytic: bool, lowPass: bool, matchedFilter: bool, frames: nat): (s: seq<Shader>)
    ensures |s| == (if frames > 1 then 3 else 2)
    ensures s[0] == (if analytic || lowPass || matchedFilter then DecodeFloatComplex else Decode)
    ensures s[1] == Das
    ensures Sum in s <==> frames > 1
  {
    var decode := if analytic || lowPass || matchedFilter then DecodeFloatComplex else Decode;
    [decode, Das] + (if frames > 1 then [Sum] else [])
  }

  /** The frame numbers whose files the single-frame branch of `execute_work_item` reads
      (helpers/comp_paper.c:1034-1041), as written: the first count - 1 found frames, then the
      frame numbered count - 1 in `u32` arithmetic, which is not the count-th found frame. */
  function FramesReadAsWritten(valid: seq<nat>, count: nat): (r: seq<nat>)
    requires count <= |valid|
    ensures |r| == (if count == 0 then 1 else count)
    ensures r[|r| - 1] == WrapU32(count - 1)
  {
    (if count == 0 then [] else valid[..count - 1]) + [WrapU32(count - 1)]
  }

  /** With frames 0 and 2 on disk and two frames asked for, the last read is of frame 1, whose
      file does not exist; with no frame on disk the read is of frame 4294967295. */
  lemma LastFrameReadIsMissing()
    ensures var valid := ValidFrames({0, 2}, 0);
            var count := OutputPoints([0, 0, 0, 0], |valid|, 2)[3];
            valid == [0, 2] && count == 2
            && FramesReadAsWritten(valid, count) == [0, 1] && 1 !in {0, 2}
    ensures FramesReadAsWritten([], OutputPoints([0, 0, 0, 0], 0, 2)[3]) == [U32_LIMIT - 1]
  {
    FramesZeroAndTwo();
    var p := OutputPoints([0, 0, 0, 0], 2, 2);
    assert p[3] == 2;
    assert FramesReadAsWritten([0, 2], 2) == [0, 1];
    assert OutputPoints([0, 0, 0, 0], 0, 2)[3] == 0;
  }

  lemma FramesZeroAndTwo()
    ensures ValidFrames({0, 2}, 0) == [0, 2]
  {
    var onDisk: set<nat> := {0, 2};
    NoFramesAboveTwo();
    assert ValidFrames(onDisk, 2) == [2];
    assert ValidFrames(onDisk, 1) == [2];
  }

  lemma NoFramesAboveTwo()
    ensures ValidFrames({0, 2}, 3) == []
  {
    var onDisk: set<nat> := {0, 2};
    assert ValidFrames(onDisk, 9) == [];
    assert ValidFrames(onDisk, 8) == [];
    assert ValidFrames(onDisk, 7) == [];
    assert ValidFrames(onDisk, 6) == [];
    assert ValidFrames(onDisk, 5) == [];
    assert ValidFrames(onDisk, 4) == [];
  }

  /** The frames evidently meant: the first `count` frames found, and nothing to read (`None`)
      when no frame was found. */
  function FramesRead(valid: seq<nat>, count: nat): (r: Option<seq<nat>>)
    requires count <= |valid|
    ensures r.None? <==> count == 0
    ensures r.Some? ==> |r.value| == count && r.value == valid[..count]
  {
    if count == 0 then None else Some(valid[..count])
  }

  /** Every frame the corrected reader opens exists, and they come in increasing order; the
      last one is the count-th frame found. */
  lemma FramesReadExist(onDisk: set<nat>, settings: seq<nat>, frameCount: nat)
    requires |settings| == 4
    ensures var valid := ValidFrames(onDisk, 0);
            var count := OutputPoints(settings, |valid|, frameCount)[3];
            var r := FramesRead(valid, count);
            && (r.Some? ==> forall i | 0 <= i < |r.value| :: r.value[i] in onDisk)
            && (r.Some? ==> forall i, j | 0 <= i < j < |r.value| :: r.value[i] < r.value[j])
            && (r.Some? ==> r.value[count - 1] == valid[count - 1])
  {
  }
}
