/** The accelerator-flag vector of the benchmark's main function: sixteen
    entries, one per accelerator circuit, each asking OCA_Activate to disable,
    enable or leave unchanged the circuit's OpenCV function. Every benchmark
    block disables its circuits, activates, enables them, activates again and
    finally sets them back to "no change". */
module Acceleration {

  /** The three requests OPENCVA_FUNC_DISABLE, OPENCVA_FUNC_ENABLE and
      OPENCVA_FUNC_NOCHANGE. */
  datatype Mode = Disable | Enable | NoChange

  /** The numeric request the driver receives. */
  function Code(m: Mode): (c: nat)
    ensures c == 0 <==> m == Disable
    ensures c == 1 <==> m == Enable
    ensures c == 2 <==> m == NoChange
  {
    match m
    case Disable => 0
    case Enable => 1
    case NoChange => 2
  }

  /** Number of entries of the flag vector. */
  const FuncNum: nat := 16

  /** An index into the flag vector; every circuit number is one. */
  type Unit = u: nat | u < FuncNum

  const Resize: Unit := 0
  const CvtYuv2Bgr: Unit := 2
  const CvtNv2Bgr: Unit := 2
  const Gaussian: Unit := 4
  const Dilate: Unit := 5
  const Erode: Unit := 6
  const Filter2D: Unit := 7
  const Sobel: Unit := 8
  const AThreshold: Unit := 9
  const TemplateMatch: Unit := 10
  const Affine: Unit := 11
  const PyrDown: Unit := 12
  const PyrUp: Unit := 13
  const Perspective: Unit := 14

  /** The vector with every entry "no change". */
  function Neutral(): (v: seq<Mode>)
    ensures |v| == FuncNum && forall i :: 0 <= i < |v| ==> v[i] == NoChange
  {
    seq(FuncNum, _ => NoChange)
  }

  /** The entries of units set to m one after another, as a block's
      statements `OCA_f[unit] = m;` do. */
  function Assign(v: seq<Mode>, units: seq<Unit>, m: Mode): (r: seq<Mode>)
    requires |v| == FuncNum
    ensures |r| == FuncNum
    ensures forall i :: 0 <= i < FuncNum ==> r[i] == (if i in units then m else v[i])
    decreases |units|
  {
    if units == [] then v else Assign(v[units[0] := m], units[1..], m)
  }

  /** Setting one more entry after a run of assignments. */
  lemma AssignSnoc(v: seq<Mode>, units: seq<Unit>, u: Unit, m: Mode)
    requires |v| == FuncNum
    ensures Assign(v, units + [u], m) == Assign(v, units, m)[u := m]
  {
    var a, b := Assign(v, units + [u], m), Assign(v, units, m)[u := m];
    forall i | 0 <= i < FuncNum ensures a[i] == b[i] {
      assert i in units + [u] <==> i in units || i == u;
    }
  }

  /** Assigning the same entries twice keeps only the second request. */
  lemma AssignTwice(v: seq<Mode>, units: seq<Unit>, m: Mode, m': Mode)
    requires |v| == FuncNum
    ensures Assign(Assign(v, units, m), units, m') == Assign(v, units, m')
  {
    var a, b := Assign(Assign(v, units, m), units, m'), Assign(v, units, m');
    forall i | 0 <= i < FuncNum ensures a[i] == b[i] {
    }
  }

  /** The vector a block activates with: units at m, everything else at
      "no change". */
  function Snapshot(units: seq<Unit>, m: Mode): seq<Mode>
  {
    Assign(Neutral(), units, m)
  }

  /** Resetting a superset of the entries a block set brings the vector back
      to all "no change"; when a reset misses an entry, that entry keeps its
      request. */
  lemma {:induction false} RestoreNeutral(units: seq<Unit>, resets: seq<Unit>, m: Mode)
    requires m != NoChange
    ensures (forall u :: u in units ==> u in resets)
      <==> Assign(Snapshot(units, m), resets, NoChange) == Neutral()
  {
    var r := Assign(Snapshot(units, m), resets, NoChange);
    if forall u :: u in units ==> u in resets {
      forall i | 0 <= i < FuncNum ensures r[i] == NoChange {
      }
    } else {
      var u :| u in units && u !in resets;
      assert r[u] != Neutral()[u];
    }
  }

  /** The vectors OCA_Activate receives during a run of blocks: each block
      activates first with its units disabled, then with them enabled. */
  function Trace(blocks: seq<seq<Unit>>): (log: seq<seq<Mode>>)
    ensures |log| == 2 * |blocks| && forall k :: 0 <= k < |log| ==> |log[k]| == FuncNum
  {
    if blocks == [] then []
    else [Snapshot(blocks[0], Disable), Snapshot(blocks[0], Enable)] + Trace(blocks[1..])
  }

  /** Activation k of a run of blocks is the first (k even) or second (k odd)
      activation of block k / 2. */
  lemma {:induction false} TraceAt(blocks: seq<seq<Unit>>, k: nat)
    requires k < 2 * |blocks|
    ensures Trace(blocks)[k] == Snapshot(blocks[k / 2], if k % 2 == 0 then Disable else Enable)
  {
    if k >= 2 {
      TraceAt(blocks[1..], k - 2);
      assert blocks[1..][(k - 2) / 2] == blocks[k / 2];
    }
  }

  lemma {:induction false} TraceSnoc(blocks: seq<seq<Unit>>, units: seq<Unit>)
    ensures Trace(blocks + [units]) == Trace(blocks) + [Snapshot(units, Disable), Snapshot(units, Enable)]
  {
    var a, b := Trace(blocks + [units]), Trace(blocks) + [Snapshot(units, Disable), Snapshot(units, Enable)];
    forall k | 0 <= k < |a| ensures a[k] == b[k] {
      TraceAt(blocks + [units], k);
      if k < 2 * |blocks| {
        TraceAt(blocks, k);
        assert (blocks + [units])[k / 2] == blocks[k / 2];
      }
    }
  }

  /** At every activation of a run of blocks, the current block's units hold
      DISABLE (first call) or ENABLE (second call), and every other entry
      holds NOCHANGE. */
  lemma ActivationDiscipline(blocks: seq<seq<Unit>>, k: nat, i: nat)
    requires k < 2 * |blocks| && i < FuncNum
    ensures var log := Trace(blocks);
      && (i in blocks[k / 2] && k % 2 == 0 ==> log[k][i] == Disable)
      && (i in blocks[k / 2] && k % 2 == 1 ==> log[k][i] == Enable)
      && (i !in blocks[k / 2] ==> log[k][i] == NoChange)
  {
    TraceAt(blocks, k);
  }

  /** The sixteen blocks of the benchmark in program order, each as the units
      it disables and enables: the dummy filter2D warm-up, then [1] resize
      through [15] pyrUp; the morphology block [7] uses two circuits. */
  const Blocks: seq<seq<Unit>> := [
    [Filter2D], [Resize], [CvtYuv2Bgr], [CvtNv2Bgr], [Gaussian], [Dilate], [Erode],
    [Erode, Dilate], [Filter2D], [Sobel], [AThreshold], [TemplateMatch], [Affine],
    [Perspective], [PyrDown], [PyrUp]]

  /** Block [3] resets CVT_YUV2BGR after setting CVT_NV2BGR; the two circuit
      numbers coincide, so the reset still covers the entry that was set. */
  lemma TwoPlaneResetCovers()
    ensures CvtNv2Bgr == CvtYuv2Bgr
    ensures Assign(Snapshot([CvtNv2Bgr], Enable), [CvtYuv2Bgr], NoChange) == Neutral()
  {
    RestoreNeutral([CvtNv2Bgr], [CvtYuv2Bgr], Enable);
  }

  /** The flag vector OCA_f together with the vectors handed to OCA_Activate
      so far. */
  class Accelerator {
    var flags: array<Mode>
    ghost var log: seq<seq<Mode>>

    ghost predicate Valid()
      reads this
    {
      flags.Length == FuncNum
    }

    /** The declaration of OCA_f and the loop that fills it with
        OPENCVA_FUNC_NOCHANGE. */
    constructor ()
      ensures Valid() && fresh(flags) && flags[..] == Neutral() && log == []
    {
      var f := new Mode[FuncNum];
      for i := 0 to FuncNum
        invariant forall j :: 0 <= j < i ==> f[j] == NoChange
      {
        f[i] := NoChange;
      }
      flags, log := f, [];
    }

    /** The statements `OCA_f[unit] = m;` of one block, one per unit. */
    method SetUnits(units: seq<Unit>, m: Mode)
      requires Valid()
      modifies flags
      ensures flags[..] == Assign(old(flags[..]), units, m)
    {
      ghost var v := flags[..];
      for i := 0 to |units|
        invariant flags[..] == Assign(v, units[..i], m)
      {
        AssignSnoc(v, units[..i], units[i], m);
        flags[units[i]] := m;
        assert units[..i + 1] == units[..i] + [units[i]];
      }
      assert units[..|units|] == units;
    }

    /** OCA_Activate(&OCA_f[0]): the driver is recorded by the vector it
        receives. */
    method Activate()
      requires Valid()
      modifies this
      ensures flags == old(flags) && log == old(log) + [flags[..]]
    {
      log := log + [flags[..]];
    }

    /** One benchmark block: disable the block's units and activate, run the
        OpenCV call on the CPU, enable them and activate, run it again on the
        accelerator, then reset the entries named by resets. */
    method RunBlock(units: seq<Unit>, resets: seq<Unit>)
      requires Valid()
      modifies this, flags
      ensures flags == old(flags)
      ensures log == old(log) + [Assign(old(flags[..]), units, Disable), Assign(old(flags[..]), units, Enable)]
      ensures flags[..] == Assign(Assign(old(flags[..]), units, Enable), resets, NoChange)
    {
      ghost var v := flags[..];
      SetUnits(units, Disable);
      Activate();
      SetUnits(units, Enable);
      AssignTwice(v, units, Disable, Enable);
      Activate();
      SetUnits(resets, NoChange);
    }
  }

  /** The entries each block sets back to NOCHANGE at its end: its own
      units, except that block [3] names CVT_YUV2BGR. */
  const Resets: seq<seq<Unit>> := [
    [Filter2D], [Resize], [CvtYuv2Bgr], [CvtYuv2Bgr], [Gaussian], [Dilate], [Erode],
    [Erode, Dilate], [Filter2D], [Sobel], [AThreshold], [TemplateMatch], [Affine],
    [Perspective], [PyrDown], [PyrUp]]

  /** Every block's reset covers the units it set. */
  lemma ResetsCover(b: nat)
    requires b < |Blocks|
    ensures b < |Resets| && forall u :: u in Blocks[b] ==> u in Resets[b]
  {
    assert |Resets| == |Blocks|;
    if b != 3 {
      assert Resets[b] == Blocks[b];
    }
  }

  /** The vectors handed to OCA_Activate by the first n blocks of the
      benchmark, block after block. */
  function Log(n: nat): seq<seq<Mode>>
    requires n <= |Blocks|
  {
    if n == 0 then [] else Log(n - 1) + [Snapshot(Blocks[n - 1], Disable), Snapshot(Blocks[n - 1], Enable)]
  }

  /** The log of the first n blocks is the trace of the first n entries of
      Blocks. */
  lemma {:induction false} LogIsTrace(n: nat)
    requires n <= |Blocks|
    ensures Log(n) == Trace(Blocks[..n])
  {
    if n > 0 {
      LogIsTrace(n - 1);
      TraceSnoc(Blocks[..n - 1], Blocks[n - 1]);
      assert Blocks[..n] == Blocks[..n - 1] + [Blocks[n - 1]];
    }
  }

  /** After all sixteen blocks the log is the trace of Blocks. */
  lemma BenchmarkLog()
    ensures |Blocks| == 16 && Log(16) == Trace(Blocks)
  {
    LogIsTrace(16);
    assert Blocks[..16] == Blocks;
  }

  /** Block b of the benchmark, run from the all-"no change" vector: its two
      activations extend the log by one block, and the vector is all
      "no change" again. */
  method BenchmarkBlock(acc: Accelerator, b: nat)
    requires b < 16 && acc.Valid() && acc.flags[..] == Neutral() && acc.log == Log(b)
    modifies acc, acc.flags
    ensures acc.flags == old(acc.flags) && acc.Valid()
    ensures acc.flags[..] == Neutral() && acc.log == Log(b + 1)
  {
    assert |Blocks| == 16;
    ResetsCover(b);
    acc.RunBlock(Blocks[b], Resets[b]);
    RestoreNeutral(Blocks[b], Resets[b], Enable);
  }

  /** The flag discipline of the whole benchmark, block by block in program
      order: the sequence of vectors handed to OCA_Activate is the trace of
      Blocks, and the vector ends all "no change". It starts from the
      freshly initialised vector. */
  method Benchmark(acc: Accelerator)
    requires acc.Valid() && acc.flags[..] == Neutral() && acc.log == []
    modifies acc, acc.flags
    ensures acc.Valid() && acc.flags[..] == Neutral() && acc.log == Trace(Blocks)
  {
    BenchmarkBlock(acc, 0);  // dummy filter2D
    BenchmarkBlock(acc, 1);  // [1] resize
    BenchmarkBlock(acc, 2);  // [2] cvtColor
    BenchmarkBlock(acc, 3);  // [3] cvtColorTwoPlane
    BenchmarkBlock(acc, 4);  // [4] GaussianBlur
    BenchmarkBlock(acc, 5);  // [5] dilate
    BenchmarkBlock(acc, 6);  // [6] erode
    BenchmarkBlock(acc, 7);  // [7] morphologyEx
    BenchmarkBlock(acc, 8);  // [8] filter2D
    BenchmarkBlock(acc, 9);  // [9] Sobel
    BenchmarkBlock(acc, 10);  // [10] adaptiveThreshold
    BenchmarkBlock(acc, 11);  // [11] matchTemplate
    BenchmarkBlock(acc, 12);  // [12] warpAffine
    BenchmarkBlock(acc, 13);  // [13] warpPerspective
    BenchmarkBlock(acc, 14);  // [14] pyrDown
    BenchmarkBlock(acc, 15);  // [15] pyrUp
    BenchmarkLog();
  }

  /** Every activation of the benchmark: the block's own circuits are
      disabled at its first call and enabled at its second, all other
      entries are "no change"; the morphology block [7] disables and enables
      ERODE and DILATE together. */
  lemma BenchmarkDiscipline(k: nat, i: nat)
    requires k < 2 * |Blocks| && i < FuncNum
    ensures var log := Trace(Blocks);
      && (i in Blocks[k / 2] ==> log[k][i] == if k % 2 == 0 then Disable else Enable)
      && (i !in Blocks[k / 2] ==> log[k][i] == NoChange)
  {
    ActivationDiscipline(Blocks, k, i);
  }

  /** The morphology block [7] is the eighth block; its two activations
      carry ERODE and DILATE disabled, then enabled, and nothing else. */
  lemma MorphologyActivations()
    ensures var log := Trace(Blocks);
      && log[14][Erode] == Disable && log[14][Dilate] == Disable
      && log[15][Erode] == Enable && log[15][Dilate] == Enable
      && forall i :: 0 <= i < FuncNum && i != Erode && i != Dilate ==> log[14][i] == NoChange && log[15][i] == NoChange
  {
    TraceAt(Blocks, 14);
    TraceAt(Blocks, 15);
    assert Blocks[7] == [Erode, Dilate];
  }

  /** The numbers the driver reads at each of the benchmark's activations:
      entry i of activation k is 0 (disable) or 1 (enable), by the parity of
      k, when i is a circuit of block k/2, and 2 (no change) otherwise. */
  lemma BenchmarkCodes(k: nat, i: nat)
    requires k < 2 * |Blocks| && i < FuncNum
    ensures Code(Trace(Blocks)[k][i]) == if i in Blocks[k / 2] then k % 2 else 2
  {
    ActivationDiscipline(Blocks, k, i);
  }
}
