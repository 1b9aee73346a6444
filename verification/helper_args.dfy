/** What the three helper programs share: command-line arguments as the bytes `c_str_to_s8`
    sees, the switch test of their parsers, the compute-shader stages they request and their
    default output grid. */
module HelperArgs {
  import opened Base

  /** An argument the parsers treat as a switch: it starts with '-'. */
  predicate IsSwitch(a: seq<byte>) { |a| > 0 && a[0] == '-' as byte }

  /** The compute stages the helpers put in a pipeline. */
  datatype Shader = Decode | DecodeFloat | DecodeFloatComplex | CudaDecode | CudaHilbert | Das | Sum

  /** `g_output_points` of every helper (helpers/comp_paper.c:26, helpers/send_ornot.c:25,
      helpers/throughput.c:15). */
  const DEFAULT_OUTPUT_POINTS: seq<nat> := [512, 1, 1024, 1]

  /** The arguments from index i on begin with args. */
  predicate ArgsAt(argv: seq<seq<byte>>, i: nat, args: seq<seq<byte>>)
  {
    i + |args| <= |argv| && forall k | 0 <= k < |args| :: argv[i + k] == args[k]
  }

  /** Arguments a + b at index i are a at i, then b right after it. */
  lemma ArgsAtSplit(argv: seq<seq<byte>>, i: nat, a: seq<seq<byte>>, b: seq<seq<byte>>)
    requires ArgsAt(argv, i, a + b)
    ensures ArgsAt(argv, i, a) && ArgsAt(argv, i + |a|, b)
  {
    forall k | 0 <= k < |a|
      ensures argv[i + k] == a[k]
    {
      assert argv[i + k] == (a + b)[k];
    }
    forall k | 0 <= k < |b|
      ensures argv[i + |a| + k] == b[k]
    {
      assert argv[i + (|a| + k)] == (a + b)[|a| + k];
    }
  }

  /** The command line pre + args + post holds args right after pre. */
  lemma ArgsAtJoin(pre: seq<seq<byte>>, args: seq<seq<byte>>, post: seq<seq<byte>>)
    ensures ArgsAt(pre + args + post, |pre|, args)
  {
    forall k | 0 <= k < |args|
      ensures (pre + args + post)[|pre| + k] == args[k]
    {
    }
  }
}
