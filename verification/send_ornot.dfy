/** The discrete logic of helpers/send_ornot.c, which sends one study to a running beamformer:
    the tokens `parse_v2` cuts from a "{min, max}" argument, the argument parser, the check of
    `main` on what is left and the compute-stage list. `strtod` is not modelled: a non-empty
    token stands for the number `strtod` reads from it. */
module SendOrNot {
  import opened Base
  import opened HelperArgs
  import Strings

  const HILBERT_FLAG: seq<byte> := [45, 45, 104, 105, 108, 98, 101, 114, 116]  // "--hilbert"
  const FLOAT_FLAG: seq<byte> := [45, 45, 102, 108, 111, 97, 116]  // "--float"
  const AXIAL_FLAG: seq<byte> := [45, 45, 97, 120, 105, 97, 108]  // "--axial"
  const LATERAL_FLAG: seq<byte> := [45, 45, 108, 97, 116, 101, 114, 97, 108]  // "--lateral"

  const SPACE: byte := ' ' as byte
  const COMMA: byte := ',' as byte
  const OPEN_BRACE: byte := '{' as byte

  /** One component of a `v2`: a value, or the number `strtod` reads from a token. */
  datatype Coordinate = Value(v: real) | Decimal(text: seq<byte>)

  datatype V2 = V2(x: Coordinate, y: Coordinate)

  /** `s` without its first byte when that byte is c. */
  function DropFirst(s: seq<byte>, c: byte): (r: seq<byte>)
    ensures r == s || (|s| > 0 && s[0] == c && r == s[1..])
    ensures |s| > 0 && s[0] == c ==> r == s[1..]
  {
    if |s| > 0 && s[0] == c then s[1..] else s
  }

  /** `s` without its last byte when that byte is c. */
  function DropLast(s: seq<byte>, c: byte): (r: seq<byte>)
    ensures r == s || (|s| > 0 && s[|s| - 1] == c && r == s[..|s| - 1])
    ensures |s| > 0 && s[|s| - 1] == c ==> r == s[..|s| - 1]
  {
    if |s| > 0 && s[|s| - 1] == c then s[..|s| - 1] else s
  }

  /** The text of the first component (helpers/send_ornot.c:370-373): one leading '{'
      dropped, leading spaces trimmed, one trailing ',' dropped. */
  function XToken(left: seq<byte>): seq<byte>
  {
    DropLast(Strings.TrimLeft(DropFirst(left, OPEN_BRACE)), COMMA)
  }

  /** The text of the second component (helpers/send_ornot.c:380-385): leading spaces
      trimmed; a leading ',' dropped and spaces trimmed again; one trailing ',' dropped. A
      missing right half (length -1) gives nothing. */
  function YToken(right: Option<seq<byte>>): seq<byte>
  {
    if right.None? then []
    else
      var t := Strings.TrimLeft(right.value);
      var t2 := if |t| > 0 && t[0] == COMMA then Strings.TrimLeft(t[1..]) else t;
      DropLast(t2, COMMA)
  }

  /** `strtod` is only called on a non-empty token; otherwise the component stays 0. */
  function Coord(token: seq<byte>): (c: Coordinate)
    ensures c.Value? <==> |token| == 0
  {
    if |token| > 0 then Decimal(token) else Value(0.0)
  }

  /** `parse_v2` (helpers/send_ornot.c:359-394) on the argument after the switch; `None` when
      there is none (argc is 0). The argument is cut at its first space. */
  function ParseV2(arg: Option<seq<byte>>): V2
  {
    if arg.None? then V2(Value(0.0), Value(0.0))
    else
      var h := Strings.Halve(arg.value, SPACE);
      V2(Coord(XToken(h.left)), Coord(YToken(h.right)))
  }

  /** What `parse_v2` leaves to `strtod`: no argument gives {0, 0}, an argument without a space
      has no second component, the first token holds no space and the second does not start
      with one. */
  lemma ParseV2Tokens(arg: Option<seq<byte>>)
    ensures arg.None? ==> ParseV2(arg) == V2(Value(0.0), Value(0.0))
    ensures arg.Some? && SPACE !in arg.value ==> ParseV2(arg).y == Value(0.0)
    ensures ParseV2(arg).x.Decimal? ==> |ParseV2(arg).x.text| > 0 && SPACE !in ParseV2(arg).x.text
    ensures ParseV2(arg).y.Decimal? ==> |ParseV2(arg).y.text| > 0 && ParseV2(arg).y.text[0] != SPACE
  {
    if arg.Some? {
      var h := Strings.Halve(arg.value, SPACE);
      XTokenHasNoSpace(h.left);
      YTokenStartsUntrimmed(h.right);
    }
  }

  /** A half with no space gives a token with no space. */
  lemma XTokenHasNoSpace(left: seq<byte>)
    requires SPACE !in left
    ensures SPACE !in XToken(left)
  {
    var d := DropFirst(left, OPEN_BRACE);
    assert SPACE !in d;
    var t := Strings.TrimLeft(d);
    Strings.TrimLeftIsSuffix(d);
    assert SPACE !in t;
  }

  /** The second token never starts with a space. */
  lemma YTokenStartsUntrimmed(right: Option<seq<byte>>)
    ensures |YToken(right)| > 0 ==> YToken(right)[0] != SPACE
  {
    if right.Some? {
      var t := Strings.TrimLeft(right.value);
      var t2 := if |t| > 0 && t[0] == COMMA then Strings.TrimLeft(t[1..]) else t;
      assert |t2| > 0 ==> t2[0] != SPACE;
      var y := DropLast(t2, COMMA);
      assert |y| > 0 ==> y[0] == t2[0];
    }
  }

  /** A user's "{a, b}" reads back as a and b: the closing brace stays on b, where `strtod`
      stops before it. */
  lemma ParseV2Braces(a: seq<byte>, b: seq<byte>)
    requires SPACE !in a && SPACE !in b && (b == [] || b[0] != COMMA)
    ensures ParseV2(Some([OPEN_BRACE] + a + [COMMA, SPACE] + b + ['}' as byte]))
            == V2(Coord(a), Coord(b + ['}' as byte]))
  {
    var left := [OPEN_BRACE] + a + [COMMA];
    var right := b + ['}' as byte];
    assert [OPEN_BRACE] + a + [COMMA, SPACE] + b + ['}' as byte] == left + [SPACE] + right;
    assert SPACE !in left;
    Strings.HalveAt(left, right, SPACE);
    XTokenOfBraced(a);
    YTokenOfPlain(right);
  }

  /** The left half "{a," gives the token a. */
  lemma XTokenOfBraced(a: seq<byte>)
    requires SPACE !in a
    ensures XToken([OPEN_BRACE] + a + [COMMA]) == a
  {
    var left := [OPEN_BRACE] + a + [COMMA];
    assert left[1..] == a + [COMMA];
    var t := a + [COMMA];
    assert t[0] != SPACE by {
      if |a| > 0 {
        assert t[0] == a[0];
      }
    }
    assert Strings.TrimLeft(t) == t;
    assert t[..|t| - 1] == a;
  }

  /** A right half that starts with neither a space nor a comma and does not end with a comma
      is its own token. */
  lemma YTokenOfPlain(right: seq<byte>)
    requires |right| > 0 && right[0] != SPACE && right[0] != COMMA && right[|right| - 1] != COMMA
    ensures YToken(Some(right)) == right
  {
    assert Strings.TrimLeft(right) == right;
  }

  datatype SendOptions = SendOptions(hilbert: bool, floatInput: bool, axial: V2, lateral: V2)

  /** The defaults of `parse_argv` (helpers/send_ornot.c:410-413): axial {0, 100e-3} and
      lateral {-25e-3, 25e-3}. */
  const DEFAULT_OPTIONS := SendOptions(false, false, V2(Value(0.0), Value(0.1)),
                                       V2(Value(-0.025), Value(0.025)))

  /** `usage` ends the program; otherwise the options and the index of the first remaining
      argument, which is |argv| + 1 (a remaining count of -1) after a trailing "--axial" or
      "--lateral". */
  datatype ParsedArgs = Usage | Parsed(options: SendOptions, next: nat)

  datatype ArgKind = HilbertArg | FloatArg | AxialArg | LateralArg | UnknownSwitch | Operand

  function Classify(a: seq<byte>): (k: ArgKind)
    ensures k == Operand <==> !IsSwitch(a)
    ensures k == UnknownSwitch <==>
              IsSwitch(a) && a != HILBERT_FLAG && a != FLOAT_FLAG && a != AXIAL_FLAG && a != LATERAL_FLAG
  {
    if a == HILBERT_FLAG then HilbertArg
    else if a == FLOAT_FLAG then FloatArg
    else if a == AXIAL_FLAG then AxialArg
    else if a == LATERAL_FLAG then LateralArg
    else if IsSwitch(a) then UnknownSwitch
    else Operand
  }

  /** Each switch is recognised as itself. */
  lemma ClassifySwitches()
    ensures Classify(HILBERT_FLAG) == HilbertArg && Classify(FLOAT_FLAG) == FloatArg
    ensures Classify(AXIAL_FLAG) == AxialArg && Classify(LATERAL_FLAG) == LateralArg
  {
    assert FLOAT_FLAG[2] != HILBERT_FLAG[2] && AXIAL_FLAG[2] != FLOAT_FLAG[2];
    assert LATERAL_FLAG[2] != HILBERT_FLAG[2];
  }

  /** `parse_argv` (helpers/send_ornot.c:408-448). */
  function ParseArgv(argv: seq<seq<byte>>): (r: ParsedArgs)
    requires |argv| >= 1
    ensures r.Parsed? ==> 1 <= r.next <= |argv| + 1
    ensures r.Parsed? && r.next < |argv| ==> !IsSwitch(argv[r.next])
    ensures r.Parsed? && r.next == |argv| + 1 ==>
              argv[|argv| - 1] == AXIAL_FLAG || argv[|argv| - 1] == LATERAL_FLAG
    ensures r.Usage? ==> exists i | 1 <= i < |argv| :: Classify(argv[i]) == UnknownSwitch
  {
    ParseFrom(argv, 1, DEFAULT_OPTIONS)
  }

  /** What one pass of the loop of `parse_argv` does at argument i: go on at a later argument
      with new options, or end the parse. */
  datatype Step = Continue(next: nat, options: SendOptions) | Stop(result: ParsedArgs)

  function ParseOne(argv: seq<seq<byte>>, i: nat, o: SendOptions): (s: Step)
    requires 1 <= i < |argv|
    ensures s.Continue? ==> i < s.next <= |argv|
    ensures s.Stop? && s.result.Parsed? ==>
              || (s.result.next == i && !IsSwitch(argv[i]))
              || (s.result.next == |argv| + 1 && (argv[i] == AXIAL_FLAG || argv[i] == LATERAL_FLAG))
    ensures s.Stop? && s.result.Usage? ==> Classify(argv[i]) == UnknownSwitch
  {
    match Classify(argv[i])
    case HilbertArg => Continue(i + 1, o.(hilbert := true))
    case FloatArg => Continue(i + 1, o.(floatInput := true))
    case AxialArg =>
      if i + 1 < |argv| then Continue(i + 2, o.(axial := ParseV2(Some(argv[i + 1]))))
      else Stop(Parsed(o.(axial := ParseV2(None)), i + 2))
    case LateralArg =>
      if i + 1 < |argv| then Continue(i + 2, o.(lateral := ParseV2(Some(argv[i + 1]))))
      else Stop(Parsed(o.(lateral := ParseV2(None)), i + 2))
    case UnknownSwitch => Stop(Usage)
    case Operand => Stop(Parsed(o, i))
  }

  /** The loop of `parse_argv` from argument i on. */
  function ParseFrom(argv: seq<seq<byte>>, i: nat, o: SendOptions): (r: ParsedArgs)
    requires 1 <= i <= |argv|
    ensures r.Parsed? ==> i <= r.next <= |argv| + 1
    ensures r.Parsed? && r.next < |argv| ==> !IsSwitch(argv[r.next])
    ensures r.Parsed? && r.next == |argv| + 1 ==>
              argv[|argv| - 1] == AXIAL_FLAG || argv[|argv| - 1] == LATERAL_FLAG
    ensures r.Usage? ==> exists k | i <= k < |argv| :: Classify(argv[k]) == UnknownSwitch
    decreases |argv| - i
  {
    if i == |argv| then Parsed(o, i)
    else
      match ParseOne(argv, i, o)
      case Continue(j, o') => ParseFrom(argv, j, o')
      case Stop(r) => r
  }

  /** One command-line switch, as a user writes it. */
  datatype Flag = Hilbert | FloatInput | Axial(extent: seq<byte>) | Lateral(extent: seq<byte>)

  function FlagArguments(f: Flag): (args: seq<seq<byte>>)
    ensures 1 <= |args| <= 2 && IsSwitch(args[0])
  {
    match f
    case Hilbert => [HILBERT_FLAG]
    case FloatInput => [FLOAT_FLAG]
    case Axial(e) => [AXIAL_FLAG, e]
    case Lateral(e) => [LATERAL_FLAG, e]
  }

  function Render(flags: seq<Flag>): seq<seq<byte>>
    decreases |flags|
  {
    if |flags| == 0 then [] else FlagArguments(flags[0]) + Render(flags[1..])
  }

  function ApplyFlag(o: SendOptions, f: Flag): SendOptions
  {
    match f
    case Hilbert => o.(hilbert := true)
    case FloatInput => o.(floatInput := true)
    case Axial(e) => o.(axial := ParseV2(Some(e)))
    case Lateral(e) => o.(lateral := ParseV2(Some(e)))
  }

  /** The options the switches ask for, later ones taking precedence. */
  function Apply(o: SendOptions, flags: seq<Flag>): SendOptions
    decreases |flags|
  {
    if |flags| == 0 then o else Apply(ApplyFlag(o, flags[0]), flags[1..])
  }

  /** Parsing a rendered command line recovers the switches, each extent read by `parse_v2`,
      and stops at the first operand. */
  lemma ParseRendered(argv0: seq<byte>, flags: seq<Flag>, rest: seq<seq<byte>>)
    requires |rest| == 0 || !IsSwitch(rest[0])
    ensures ParseArgv([argv0] + Render(flags) + rest)
            == Parsed(Apply(DEFAULT_OPTIONS, flags), 1 + |Render(flags)|)
  {
    hide ParseV2;
    var argv := [argv0] + Render(flags) + rest;
    ArgsAtJoin([argv0], Render(flags), rest);
    if |rest| > 0 {
      assert argv[1 + |Render(flags)|] == rest[0];
    }
    ParseFromRendered(argv, 1, flags, DEFAULT_OPTIONS);
  }

  lemma {:induction false} ParseFromRendered(argv: seq<seq<byte>>, i: nat, flags: seq<Flag>, o: SendOptions)
    requires 1 <= i && ArgsAt(argv, i, Render(flags))
    requires i + |Render(flags)| == |argv| || !IsSwitch(argv[i + |Render(flags)|])
    ensures ParseFrom(argv, i, o) == Parsed(Apply(o, flags), i + |Render(flags)|)
    decreases |flags|
  {
    hide ParseV2;
    if |flags| == 0 {
      assert flags == [];
      ParseStops(argv, i, o);
    } else {
      var f, rest := flags[0], flags[1..];
      var j, o' := i + |FlagArguments(f)|, ApplyFlag(o, f);
      RenderedTail(argv, i, flags);
      ParseFromRendered(argv, j, rest, o');
      ParseStep(argv, i, o, f);
      AppliedTail(o, flags, i);
    }
  }

  /** The first switch of a rendered list is at i and the others follow it. */
  lemma RenderedTail(argv: seq<seq<byte>>, i: nat, flags: seq<Flag>)
    requires |flags| > 0 && ArgsAt(argv, i, Render(flags))
    ensures var j := i + |FlagArguments(flags[0])|;
            && ArgsAt(argv, i, FlagArguments(flags[0])) && ArgsAt(argv, j, Render(flags[1..]))
            && j + |Render(flags[1..])| == i + |Render(flags)|
  {
    hide FlagArguments;
    assert Render(flags) == FlagArguments(flags[0]) + Render(flags[1..]);
    ArgsAtSplit(argv, i, FlagArguments(flags[0]), Render(flags[1..]));
  }

  /** Applying the first switch and then the others is applying them all. */
  lemma AppliedTail(o: SendOptions, flags: seq<Flag>, i: nat)
    requires |flags| > 0
    ensures Parsed(Apply(ApplyFlag(o, flags[0]), flags[1..]), i + |FlagArguments(flags[0])| + |Render(flags[1..])|)
            == Parsed(Apply(o, flags), i + |Render(flags)|)
  {
    hide ApplyFlag, ParseV2, FlagArguments;
    assert Render(flags) == FlagArguments(flags[0]) + Render(flags[1..]);
  }

  lemma ParseStops(argv: seq<seq<byte>>, i: nat, o: SendOptions)
    requires 1 <= i <= |argv| && (i == |argv| || !IsSwitch(argv[i]))
    ensures ParseFrom(argv, i, o) == Parsed(Apply(o, []), i + |Render([])|)
  {
  }

  lemma ParseStep(argv: seq<seq<byte>>, i: nat, o: SendOptions, f: Flag)
    requires 1 <= i && ArgsAt(argv, i, FlagArguments(f))
    ensures ParseFrom(argv, i, o) == ParseFrom(argv, i + |FlagArguments(f)|, ApplyFlag(o, f))
  {
    hide ParseV2;
    ParseOneFlag(argv, i, o, f);
    ParseFromContinues(argv, i, o, i + |FlagArguments(f)|, ApplyFlag(o, f));
  }

  /** The loop goes on wherever one pass says so. */
  lemma ParseFromContinues(argv: seq<seq<byte>>, i: nat, o: SendOptions, j: nat, o': SendOptions)
    requires 1 <= i < |argv| && i < j <= |argv| && ParseOne(argv, i, o) == Continue(j, o')
    ensures ParseFrom(argv, i, o) == ParseFrom(argv, j, o')
  {
  }

  /** One pass over a rendered switch consumes its arguments and applies it. */
  lemma ParseOneFlag(argv: seq<seq<byte>>, i: nat, o: SendOptions, f: Flag)
    requires 1 <= i && ArgsAt(argv, i, FlagArguments(f))
    ensures ParseOne(argv, i, o) == Continue(i + |FlagArguments(f)|, ApplyFlag(o, f))
  {
    hide ParseV2;
    assert argv[i + 0] == FlagArguments(f)[0];
    ClassifySwitches();
    match f
    case Hilbert =>
    case FloatInput =>
    case Axial(e) =>
      assert argv[i + 1] == FlagArguments(f)[1] == e;
    case Lateral(e) =>
      assert argv[i + 1] == FlagArguments(f)[1] == e;
  }

  /** What `main` goes on with: the options, the base name and the data directory. */
  datatype Launch = UsageExit | Start(options: SendOptions, baseName: seq<byte>, dataDirectory: seq<byte>,
                                      stages: seq<Shader>)

  /** `main` up to the pipeline (helpers/send_ornot.c:451-491): fewer than three remaining
      arguments (basename, data_directory, data_file) is a usage error; otherwise the first
      two name the study. */
  function LaunchFrom(argv: seq<seq<byte>>): (r: Launch)
    requires |argv| >= 1
    ensures r.Start? <==> ParseArgv(argv).Parsed? && ParseArgv(argv).next + 3 <= |argv|
    ensures r.Start? ==>
              var p := ParseArgv(argv);
              && r.options == p.options
              && r.baseName == argv[p.next] && r.dataDirectory == argv[p.next + 1]
              && r.stages == Stages(p.options.floatInput, p.options.hilbert)
  {
    var p := ParseArgv(argv);
    if p.Usage? || |argv| - p.next < 3 then UsageExit
    else Start(p.options, argv[p.next], argv[p.next + 1], Stages(p.options.floatInput, p.options.hilbert))
  }

  /** The stage list of `main` (helpers/send_ornot.c:483-491): the float or integer decode,
      the CUDA Hilbert transform when asked for, and beamforming last. */
  function Stages(floatInput: bool, hilbert: bool): (s: seq<Shader>)
    ensures |s| == (if hilbert then 3 else 2)
    ensures s[0] == (if floatInput then DecodeFloat else Decode)
    ensures s[|s| - 1] == Das
    ensures CudaHilbert in s <==> hilbert
  {
    [if floatInput then DecodeFloat else Decode] + (if hilbert then [CudaHilbert] else []) + [Das]
  }
}
