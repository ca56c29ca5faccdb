/** Forcing the branches behind opaque-looking predicates: it need not preserve
    meaning, but it only takes runs away. */
module Branches {
  import opened Words
  import opened Image
  import opened Decoder
  import opened Journal
  import opened Passes
  import opened DeadCode
  import opened Redecode
  import opened Regions
  import opened Effects

  /** The setting: a function and its image after the opaque-predicate pass. */
  ghost predicate Forced(mc: Machine, x64: bool, file: seq<byte>, file': seq<byte>, fn: u64, w: seq<Insn>) {
    IsX86(mc.decode, x64) && Reshaped(mc, file, file', fn, w, OpaqueShapes(w))
  }

  /** A branch the pass rewrites. */
  predicate IsForced(w: seq<Insn>, k: nat)
    requires k < |w|
  {
    OpaqueShapes(w)[k] != Same
  }

  /** The address of the jump that a near branch became, one byte behind it. */
  ghost predicate Moved(w: seq<Insn>, va: u64) {
    exists k :: 0 <= k < |w| && MovedFrom(w, va, k)
  }

  ghost predicate MovedFrom(w: seq<Insn>, va: u64, k: nat)
    requires k < |w|
  {
    OpaqueShapes(w)[k] == NearJmp && va == Add64(w[k].va, 1)
  }

  /** A run without the addresses of moved jumps. */
  ghost function Collapse(w: seq<Insn>, p: seq<u64>): seq<u64> {
    if p == [] then []
    else Collapse(w, p[..|p| - 1]) + if Moved(w, p[|p| - 1]) then [] else [p[|p| - 1]]
  }

  /** Wherever the run comes to a forced branch it takes it. */
  ghost predicate TakesForced(w: seq<Insn>, p: seq<u64>) {
    forall i, k | 0 <= i < |p| - 1 && 0 <= k < |w| && IsForced(w, k) && p[i] == w[k].va ::
      w[k].relTarget == Some(p[i + 1])
  }

  lemma ForcedMeans(mc: Machine, x64: bool, file: seq<byte>, file': seq<byte>, fn: u64, w: seq<Insn>)
    requires Forced(mc, x64, file, file', fn, w)
    ensures ReadsPrefix(mc.decode) && Reshaped(mc, file, file', fn, w, OpaqueShapes(w)) && Setting(mc, file, fn, w)
  {
    hide ReadsPrefix, WritesDecode, FindsDecode, DropsPrefix, Machine.Laid, Linear, HasShape, IsRead;
  }

  lemma ShapeOf(mc: Machine, x64: bool, file: seq<byte>, file': seq<byte>, fn: u64, w: seq<Insn>, k: nat)
    requires Forced(mc, x64, file, file', fn, w) && k < |w|
    ensures OpaqueShapes(w)[k] in {Same, ShortJmp, NearJmp}
    ensures IsForced(w, k) ==> w[k].flow == Jcc
    ensures OpaqueShapes(w)[k] == NearJmp ==> w[k].length == 6 && w[k].bytes[0] == 0x0F
    ensures w[k].va == Add64(fn, Disp(w, k)) && 1 <= w[k].length <= 15
  {
    hide Add64, Disp, Machine.DecodeAt, IsX86, IsRead, IsSelfTest;
    assert mc.InsnAt(file, fn, w, k);
    assert OpaqueShapes(w)[k] == OpaqueShape(w, k);
    assert HasShape(file', mc.layout(fn).value + Disp(w, k), w[k], OpaqueShapes(w)[k]);
  }

  /** Starts, and addresses outside the function, are no moved jumps. */
  lemma NotMoved(mc: Machine, x64: bool, file: seq<byte>, file': seq<byte>, fn: u64, w: seq<Insn>, va: u64)
    requires Forced(mc, x64, file, file', fn, w) && (InSpan(fn, w, va) ==> IsStart(w, va))
    ensures !Moved(w, va)
  {
    hide Add64, Disp, Reshaped, IsX86, OpaqueShapes;
    if k :| 0 <= k < |w| && MovedFrom(w, va, k) {
      ShapeOf(mc, x64, file, file', fn, w, k);
      Add64Assoc(fn, Disp(w, k), 1);
      DispMonotone(w, k, |w|);
      forall i | 0 <= i < |w| ensures w[i].length <= 15 { ShapeOf(mc, x64, file, file', fn, w, i); }
      ForcedCap(mc, x64, file, file', fn, w);
      DispBound(w, |w|);
      assert InSpan(fn, w, va);
      var a :| 0 <= a < |w| && w[a].va == va;
      ShapeOf(mc, x64, file, file', fn, w, a);
      DispMonotone(w, a, |w|);
      SamePlace(fn, Disp(w, a), Disp(w, k) + 1);
      if a <= k { DispMonotone(w, a, k); } else { DispMonotone(w, k, a); }
      assert false;
    }
  }

  lemma ForcedCap(mc: Machine, x64: bool, file: seq<byte>, file': seq<byte>, fn: u64, w: seq<Insn>)
    requires Forced(mc, x64, file, file', fn, w)
    ensures |w| <= WALK_CAP
  {
    hide IsX86, HasShape, IsRead, Linear;
  }

  /** A step of the patched image from a start. */
  lemma FromStart(mc: Machine, x64: bool, file: seq<byte>, file': seq<byte>, fn: u64, w: seq<Insn>, a: nat, to: u64)
    requires Forced(mc, x64, file, file', fn, w) && a < |w|
    requires StepsTo(mc, file', fn, w, w[a].va, to)
    ensures OpaqueShapes(w)[a] != NearJmp ==> StepsTo(mc, file, fn, w, w[a].va, to)
    ensures OpaqueShapes(w)[a] == ShortJmp ==> w[a].relTarget == Some(to)
    ensures OpaqueShapes(w)[a] == NearJmp ==> to == Add64(w[a].va, 1)
    ensures OpaqueShapes(w)[a] != NearJmp ==> Leads(w[a], to)
  {
    hide Add64, Disp, Machine.DecodeAt, OpaqueShapes, HasShape, WritesDecode, FindsDecode, ReadsPrefix, DropsPrefix,
         RelTarget, InSpan;
    ShapeOf(mc, x64, file, file', fn, w, a);
    ForcedMeans(mc, x64, file, file', fn, w);
    assert mc.InsnAt(file, fn, w, a);
    if OpaqueShapes(w)[a] == Same {
      SameShapeDecodes(mc, file, file', fn, w, OpaqueShapes(w), a);
    } else {
      ForcedJumpKeepsTarget(mc, x64, file, file', fn, w, OpaqueShapes(w), a);
      AtForced(mc, x64, file, file', fn, w, a);
    }
  }

  /** The rewritten branch at its own address. */
  lemma AtForced(mc: Machine, x64: bool, file: seq<byte>, file': seq<byte>, fn: u64, w: seq<Insn>, a: nat)
    requires Forced(mc, x64, file, file', fn, w) && a < |w| && mc.DecodeAt(file', w[a].va).Some?
    ensures mc.DecodeAt(file', w[a].va).value.va == w[a].va
  {
    hide Add64, Disp, Reshaped, WritesDecode, FindsDecode, DropsPrefix;
    mc.DecodedInsn(file', w[a].va);
  }

  /** A step of the patched image from a moved jump is the branch being taken. */
  lemma FromMoved(mc: Machine, x64: bool, file: seq<byte>, file': seq<byte>, fn: u64, w: seq<Insn>,
                  va: u64, k: nat, to: u64)
    requires Forced(mc, x64, file, file', fn, w) && k < |w| && MovedFrom(w, va, k)
    requires StepsTo(mc, file', fn, w, va, to)
    ensures w[k].relTarget == Some(to) && StepsTo(mc, file, fn, w, w[k].va, to)
  {
    hide Add64, Disp, Machine.DecodeAt, OpaqueShapes, HasShape, WritesDecode, FindsDecode, ReadsPrefix, DropsPrefix,
         RelTarget, InSpan;
    ShapeOf(mc, x64, file, file', fn, w, k);
    ForcedMeans(mc, x64, file, file', fn, w);
    assert mc.InsnAt(file, fn, w, k);
    FetchedBefore(mc, file, file', va);
    ForcedJumpKeepsTarget(mc, x64, file, file', fn, w, OpaqueShapes(w), k);
    StartInSpan(fn, w, k);
  }

  lemma FetchedBefore(mc: Machine, file: seq<byte>, file': seq<byte>, va: u64)
    requires |file'| == |file| && mc.DecodeAt(file', va).Some?
    ensures mc.Fetch(file, va).Some?
  {
  }

  lemma StartInSpan(fn: u64, w: seq<Insn>, k: nat)
    requires k < |w| && w[k].va == Add64(fn, Disp(w, k)) && w[k].length >= 1
    ensures InSpan(fn, w, w[k].va)
  {
    hide Add64, Disp;
    DispMonotone(w, k, |w|);
  }

  /** An instruction of the function leads to a start or out of the function. */
  lemma LeadsToStart(mc: Machine, x64: bool, file: seq<byte>, file': seq<byte>, fn: u64, w: seq<Insn>, a: nat, to: u64)
    requires Forced(mc, x64, file, file', fn, w) && TargetsOnStarts(fn, w)
    requires a < |w| && Leads(w[a], to) && InSpan(fn, w, to)
    ensures IsStart(w, to)
  {
    ForcedMeans(mc, x64, file, file', fn, w);
    hide Add64, Disp, Machine.DecodeAt, Forced, Reshaped;
    if w[a].relTarget != Some(to) {
      mc.NextInsn(file, fn, w, a);
      EndIsOutside(mc, file, fn, w);
      assert mc.InsnAt(file, fn, w, a);
      assert w[a + 1].va == to;
    }
  }

  // ----- whole runs

  /** What the collapsed run has come to. */
  ghost predicate Reached(fn: u64, w: seq<Insn>, c: seq<u64>, at: u64) {
    && c != []
    && if Moved(w, at) then exists k :: 0 <= k < |w| && MovedFrom(w, at, k) && c[|c| - 1] == w[k].va
       else c[|c| - 1] == at && (InSpan(fn, w, at) ==> IsStart(w, at))
  }

  /** One step further. */
  lemma NextReached(mc: Machine, x64: bool, file: seq<byte>, file': seq<byte>, fn: u64, w: seq<Insn>,
                    c: seq<u64>, at: u64, to: u64)
    requires Forced(mc, x64, file, file', fn, w) && TargetsOnStarts(fn, w)
    requires Reached(fn, w, c, at) && StepsTo(mc, file', fn, w, at, to)
    ensures var c' := if Moved(w, to) then c else c + [to];
            && Reached(fn, w, c', to)
            && (!Moved(w, to) ==>
                  && StepsTo(mc, file, fn, w, c[|c| - 1], to)
                  && forall k | 0 <= k < |w| && IsForced(w, k) && c[|c| - 1] == w[k].va :: w[k].relTarget == Some(to))
  {
    hide Forced, TargetsOnStarts, StepsTo, MovedFrom, Moved, InSpan, OpaqueShapes, Add64;
    if Moved(w, at) {
      var k :| 0 <= k < |w| && MovedFrom(w, at, k) && c[|c| - 1] == w[k].va;
      FromMoved(mc, x64, file, file', fn, w, at, k, to);
      if InSpan(fn, w, to) { LeadsToStart(mc, x64, file, file', fn, w, k, to); }
      NotMoved(mc, x64, file, file', fn, w, to);
      forall j | 0 <= j < |w| && w[j].va == w[k].va ensures j == k {
        OneStart(mc, x64, file, file', fn, w, j, k);
      }
    } else {
      StepFromSpan(mc, file', fn, w, at, to);
      var a :| 0 <= a < |w| && w[a].va == at;
      FromStart(mc, x64, file, file', fn, w, a, to);
      ShapeOf(mc, x64, file, file', fn, w, a);
      forall j | 0 <= j < |w| && w[j].va == w[a].va ensures j == a {
        OneStart(mc, x64, file, file', fn, w, j, a);
      }
      if OpaqueShapes(w)[a] == NearJmp {
        IsMoved(w, to, a);
      } else {
        if InSpan(fn, w, to) { LeadsToStart(mc, x64, file, file', fn, w, a, to); }
        NotMoved(mc, x64, file, file', fn, w, to);
      }
    }
  }

  lemma StepFromSpan(mc: Machine, file: seq<byte>, fn: u64, w: seq<Insn>, at: u64, to: u64)
    requires StepsTo(mc, file, fn, w, at, to)
    ensures InSpan(fn, w, at)
  {
  }

  lemma IsMoved(w: seq<Insn>, va: u64, a: nat)
    requires a < |w| && OpaqueShapes(w)[a] == NearJmp && va == Add64(w[a].va, 1)
    ensures Moved(w, va) && MovedFrom(w, va, a)
  {
    assert MovedFrom(w, va, a);
  }

  lemma OneStart(mc: Machine, x64: bool, file: seq<byte>, file': seq<byte>, fn: u64, w: seq<Insn>, i: nat, j: nat)
    requires Forced(mc, x64, file, file', fn, w) && i < |w| && j < |w| && w[i].va == w[j].va
    ensures i == j
  {
    hide Add64, Disp, Reshaped, IsX86, OpaqueShapes;
    forall k | 0 <= k < |w| ensures w[k].va == Add64(fn, Disp(w, k)) && 1 <= w[k].length <= 15 {
      ShapeOf(mc, x64, file, file', fn, w, k);
    }
    ForcedCap(mc, x64, file, file', fn, w);
    DispBound(w, i);
    DispBound(w, j);
    SamePlace(fn, Disp(w, i), Disp(w, j));
    if i < j { DispMonotone(w, i, j); }
    if j < i { DispMonotone(w, j, i); }
  }

  lemma {:induction false} RunCollapses(mc: Machine, x64: bool, file: seq<byte>, file': seq<byte>,
                                        fn: u64, w: seq<Insn>, p: seq<u64>)
    requires Forced(mc, x64, file, file', fn, w) && TargetsOnStarts(fn, w)
    requires IsRun(mc, file', fn, w, p) && (InSpan(fn, w, fn) ==> IsStart(w, fn))
    ensures var c := Collapse(w, p);
            IsRun(mc, file, fn, w, c) && TakesForced(w, c) && Reached(fn, w, c, p[|p| - 1])
    decreases |p|
  {
    hide Forced, TargetsOnStarts, StepsTo, Moved, InSpan, IsForced, Reached;
    var n := |p| - 1;
    var front := p[..n];
    if n == 0 {
      NotMoved(mc, x64, file, file', fn, w, fn);
      assert front == [] && Collapse(w, p) == [fn];
      AtEntry(fn, w);
    } else {
      FrontRun(mc, file', fn, w, p);
      RunCollapses(mc, x64, file, file', fn, w, front);
      assert StepsTo(mc, file', fn, w, p[n - 1], p[n - 1 + 1]);
      NextReached(mc, x64, file, file', fn, w, Collapse(w, front), p[n - 1], p[n]);
      var c := Collapse(w, front);
      assert Collapse(w, p) == if Moved(w, p[n]) then c + [] else c + [p[n]];
      assert c + [] == c;
      if !Moved(w, p[n]) { RunExtends(mc, file, fn, w, c, p[n]); }
    }
  }

  lemma AtEntry(fn: u64, w: seq<Insn>)
    requires !Moved(w, fn) && (InSpan(fn, w, fn) ==> IsStart(w, fn))
    ensures Reached(fn, w, [fn], fn)
  {
    hide Moved, InSpan;
  }

  lemma FrontRun(mc: Machine, file: seq<byte>, fn: u64, w: seq<Insn>, p: seq<u64>)
    requires IsRun(mc, file, fn, w, p) && |p| > 1
    ensures IsRun(mc, file, fn, w, p[..|p| - 1])
  {
    hide StepsTo;
    var front := p[..|p| - 1];
    forall k | 0 <= k < |front| - 1 ensures StepsTo(mc, file, fn, w, front[k], front[k + 1]) {
      assert StepsTo(mc, file, fn, w, p[k], p[k + 1]);
    }
  }

  lemma RunExtends(mc: Machine, file: seq<byte>, fn: u64, w: seq<Insn>, c: seq<u64>, to: u64)
    requires IsRun(mc, file, fn, w, c) && TakesForced(w, c) && StepsTo(mc, file, fn, w, c[|c| - 1], to)
    requires forall k | 0 <= k < |w| && IsForced(w, k) && c[|c| - 1] == w[k].va :: w[k].relTarget == Some(to)
    ensures IsRun(mc, file, fn, w, c + [to]) && TakesForced(w, c + [to])
  {
    hide StepsTo, IsForced;
    var t := c + [to];
    forall k | 0 <= k < |t| - 1 ensures StepsTo(mc, file, fn, w, t[k], t[k + 1]) {
      if k < |c| - 1 { assert StepsTo(mc, file, fn, w, c[k], c[k + 1]); }
    }
    forall i, k | 0 <= i < |t| - 1 && 0 <= k < |w| && IsForced(w, k) && t[i] == w[k].va
      ensures w[k].relTarget == Some(t[i + 1])
    {
      if i < |c| - 1 { assert c[i] == w[k].va && t[i + 1] == c[i + 1]; }
    }
  }

  /** Main result: forcing branches adds no behaviour. Every run of the patched
      image from the function's entry, without the addresses of the jumps that
      moved by a byte, is a run of the image before, one that takes each branch
      the pass forced. */
  lemma ForcingOnlyRemovesRuns(mc: Machine, x64: bool, s: Bin, fn: u64, p: seq<u64>)
    requires IsX86(mc.decode, x64) && LinearFn(mc, s, fn)
    requires TargetsOnStarts(fn, mc.Walk(s.file, fn, WALK_CAP))
    requires IsRun(mc, Opaque(mc, s, fn, false).0.file, fn, mc.Walk(s.file, fn, WALK_CAP), p)
    ensures var w := mc.Walk(s.file, fn, WALK_CAP);
            IsRun(mc, s.file, fn, w, Collapse(w, p)) && TakesForced(w, Collapse(w, p))
  {
    hide Machine.Walk, Opaque, TargetsOnStarts, IsRun, TakesForced, Collapse, Reached, IsX86, Reshaped, ReadsPrefix,
         WritesDecode, FindsDecode, DropsPrefix;
    var w := mc.Walk(s.file, fn, WALK_CAP);
    OpaqueReshapes(mc, x64, s, fn);
    X86Means(mc.decode, x64);
    EntryIsStart(mc, s, fn);
    RunCollapses(mc, x64, s.file, Opaque(mc, s, fn, false).0.file, fn, w, p);
  }

  lemma EntryIsStart(mc: Machine, s: Bin, fn: u64)
    requires ReadsPrefix(mc.decode)
    ensures var w := mc.Walk(s.file, fn, WALK_CAP); InSpan(fn, w, fn) ==> IsStart(w, fn)
  {
    hide Machine.DecodeAt, Machine.Walk, Add64, ReadsPrefix;
    var w := mc.Walk(s.file, fn, WALK_CAP);
    mc.WalkIsLaid(s.file, fn);
    if w != [] {
      assert mc.InsnAt(s.file, fn, w, 0);
      Add64Small(fn, 0);
      assert w[0].va == fn;
    }
  }
}
