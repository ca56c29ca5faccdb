/** Filling dead code does not change what the function does: every run from
    its entry executes the same instructions before and after. */
module DeadCode {
  import opened Words
  import opened Image
  import opened Decoder
  import opened Journal
  import opened Passes

  // ----- runs of a function

  /** Control moves only by falling through or to a direct target. */
  ghost predicate Leads(insn: Insn, to: u64) {
    (Falls(insn) && to == Add64(insn.va, insn.length)) || insn.relTarget == Some(to)
  }

  /** An address inside the walked bytes. */
  ghost predicate InSpan(fn: u64, w: seq<Insn>, va: u64) {
    exists b :: 0 <= b < Disp(w, |w|) && va == Add64(fn, b)
  }

  ghost predicate IsStart(w: seq<Insn>, va: u64) {
    exists k :: 0 <= k < |w| && w[k].va == va
  }

  /** No direct branch of the function lands inside one of its instructions. */
  ghost predicate TargetsOnStarts(fn: u64, w: seq<Insn>) {
    forall k | 0 <= k < |w| && w[k].relTarget.Some? && InSpan(fn, w, w[k].relTarget.value) ::
      IsStart(w, w[k].relTarget.value)
  }

  /** A run from the entry: each address but the last lies in the function and
      holds an instruction that leads to the next address. */
  ghost predicate IsRun(mc: Machine, file: seq<byte>, fn: u64, w: seq<Insn>, p: seq<u64>) {
    && p != [] && p[0] == fn
    && forall k | 0 <= k < |p| - 1 :: StepsTo(mc, file, fn, w, p[k], p[k + 1])
  }

  ghost predicate StepsTo(mc: Machine, file: seq<byte>, fn: u64, w: seq<Insn>, at: u64, to: u64) {
    && InSpan(fn, w, at)
    && mc.DecodeAt(file, at).Some?
    && Leads(mc.DecodeAt(file, at).value, to)
  }

  // ----- which instructions are filled

  ghost predicate FilledFrom(w: seq<Insn>, i: nat, k: nat) {
    DeadHead(w, Targets(w), i) && i <= k < FillEnd(w, Targets(w), i, i, 0)
  }

  ghost predicate Filled(w: seq<Insn>, k: nat) {
    exists i :: FilledFrom(w, i, k)
  }

  /** A filled instruction is not the entry, is no branch's target, and is
      preceded by one that is filled itself or does not fall through. */
  lemma FilledIsDead(w: seq<Insn>, k: nat)
    requires Filled(w, k)
    ensures 1 <= k < |w| && w[k].va !in Targets(w)
    ensures Filled(w, k - 1) || !Falls(w[k - 1])
  {
    var i: nat :| FilledFrom(w, i, k);
    if i < k {
      assert FilledFrom(w, i, k - 1);
    }
  }

  /** A no-operation byte inside a filled instruction. */
  ghost predicate FillsAt(w: seq<Insn>, x: Write, k: nat, b: nat) {
    k < |w| && Filled(w, k) && b < w[k].length && x == Write(Add64(w[k].va, b), 0x90)
  }

  ghost predicate IsFill(w: seq<Insn>, x: Write) {
    exists k, b :: FillsAt(w, x, k, b)
  }

  lemma {:induction false} NopsOverFill(w: seq<Insn>, i: nat, j: nat)
    requires i <= j <= |w| && forall k | i <= k < j :: Filled(w, k)
    ensures forall x | x in NopsOver(w, i, j) :: IsFill(w, x)
  {
    if i < j {
      NopsOverFill(w, i, j - 1);
      forall x | x in Nops(w[j - 1])
        ensures IsFill(w, x)
      {
        var b :| 0 <= b < w[j - 1].length && Nops(w[j - 1])[b] == x;
        assert FillsAt(w, x, j - 1, b);
      }
    }
  }

  /** The dead-code edits write no-operations over filled instructions only. */
  lemma {:induction false} DeadEditsFill(w: seq<Insn>, n: nat)
    requires n <= |w|
    ensures forall x | x in Writes(DeadEdits(w, Targets(w), n)) :: IsFill(w, x)
  {
    if n > 0 {
      DeadEditsFill(w, n - 1);
      var t := Targets(w);
      if DeadHead(w, t, n - 1) {
        var e := FillEnd(w, t, n - 1, n - 1, 0);
        forall k | n - 1 <= k < e
          ensures Filled(w, k)
        {
          assert FilledFrom(w, n - 1, k);
        }
        NopsOverFill(w, n - 1, e);
        WritesSnoc(DeadEdits(w, t, n - 1), DeadEdit(w, t, n - 1));
      } else {
        assert DeadEdits(w, t, n) == DeadEdits(w, t, n - 1);
      }
    }
  }

  lemma {:induction false} SledsWriteNothing(w: seq<Insn>, threshold: nat, n: nat)
    requires n <= |w|
    ensures Writes(Sleds(w, threshold, n)) == []
  {
    if n > 0 {
      SledsWriteNothing(w, threshold, n - 1);
      var run := NopRun(w, n - 1);
      if w[n - 1].mnemonic != Nop && run > threshold {
        WritesSnoc(Sleds(w, threshold, n - 1), Edit(Hit(w[n - 1 - run].va, NopSled, run), []));
      } else {
        assert Sleds(w, threshold, n) == Sleds(w, threshold, n - 1);
      }
    }
  }

  lemma JunkEditsFill(w: seq<Insn>, aggressive: bool, threshold: nat)
    ensures forall x | x in Writes(JunkEdits(w, aggressive, threshold)) :: IsFill(w, x)
  {
    var sleds := Sleds(w, ClampThreshold(threshold), |w|);
    var dead := if aggressive && |w| > 1 then DeadEdits(w, Targets(w), |w|) else [];
    SledsWriteNothing(w, ClampThreshold(threshold), |w|);
    DeadEditsFill(w, |w|);
    WritesConcat(sleds, dead);
    assert Writes(dead) == Writes(JunkEdits(w, aggressive, threshold));
  }

  // ----- live instructions

  ghost predicate Live(w: seq<Insn>, va: u64) {
    exists a :: 0 <= a < |w| && w[a].va == va && !Filled(w, a)
  }

  /** The setting of the theorem: the function is decoded back to back, and
      lies at consecutive file offsets. */
  ghost predicate Setting(mc: Machine, file: seq<byte>, fn: u64, w: seq<Insn>) {
    && ReadsPrefix(mc.decode)
    && mc.Laid(file, fn, w)
    && Linear(mc.layout, fn, Disp(w, |w|))
  }

  /** A fill lands on no byte of an unfilled instruction. */
  lemma FillMisses(mc: Machine, file: seq<byte>, fn: u64, w: seq<Insn>, x: Write, a: nat, b: nat)
    requires Setting(mc, file, fn, w) && IsFill(w, x)
    requires a < |w| && b < w[a].length && !Filled(w, a)
    ensures mc.layout(x.va) != mc.layout(Add64(w[a].va, b))
  {
    hide Add64, Filled, Disp;
    var k: nat, c: nat :| FillsAt(w, x, k, c);
    mc.InsnOffset(file, fn, w, a, b);
    mc.InsnOffset(file, fn, w, k, c);
    if k < a { DispMonotone(w, k, a); } else { DispMonotone(w, a, k); }
  }

  /** Unfilled instructions decode as before. */
  lemma LiveUntouched(mc: Machine, s: Bin, fn: u64, w: seq<Insn>, ws: seq<Write>, a: nat)
    requires Setting(mc, s.file, fn, w) && a < |w| && !Filled(w, a)
    requires forall x | x in ws :: IsFill(w, x)
    ensures mc.DecodeAt(PokeAll(mc.layout, s, ws).file, w[a].va) == mc.DecodeAt(s.file, w[a].va)
  {
    hide Add64, Filled, IsFill, Disp, Machine.DecodeAt, PokeAll;
    assert mc.InsnAt(s.file, fn, w, a);
    mc.DecodedInsn(s.file, w[a].va);
    var off := mc.layout(w[a].va).value;
    var file' := PokeAll(mc.layout, s, ws).file;
    forall o | off <= o < off + w[a].length
      ensures file'[o] == s.file[o]
    {
      LiveByteUntouched(mc, s, fn, w, ws, a, o - off);
    }
    assert file'[off..off + w[a].length] == s.file[off..off + w[a].length];
    mc.SameBytesSameInsn(s.file, file', w[a].va);
  }

  lemma LiveByteUntouched(mc: Machine, s: Bin, fn: u64, w: seq<Insn>, ws: seq<Write>, a: nat, b: nat)
    requires Setting(mc, s.file, fn, w) && a < |w| && !Filled(w, a) && b < w[a].length
    requires forall x | x in ws :: IsFill(w, x)
    requires mc.layout(w[a].va).Some? && mc.layout(w[a].va).value + w[a].length <= |s.file|
    ensures var o := mc.layout(w[a].va).value + b;
            PokeAll(mc.layout, s, ws).file[o] == s.file[o]
  {
    hide Add64, Filled, IsFill, Disp, PokeAll;
    mc.InsnOffset(s.file, fn, w, a, 0);
    mc.InsnOffset(s.file, fn, w, a, b);
    var o := mc.layout(w[a].va).value + b;
    forall k | 0 <= k < |ws|
      ensures mc.layout(ws[k].va) != Some(o)
    {
      FillMisses(mc, s.file, fn, w, ws[k], a, b);
    }
    PokeAllMisses(mc.layout, s, ws, o);
  }

  lemma EndIsOutside(mc: Machine, file: seq<byte>, fn: u64, w: seq<Insn>)
    requires Setting(mc, file, fn, w)
    ensures !InSpan(fn, w, Add64(fn, Disp(w, |w|)))
  {
    hide Add64, Disp;
    forall k | 0 <= k < |w|
      ensures w[k].length <= 15
    {
      assert mc.InsnAt(file, fn, w, k);
    }
    DispBound(w, |w|);
    forall b | 0 <= b < Disp(w, |w|)
      ensures Add64(fn, b) != Add64(fn, Disp(w, |w|))
    {
      if Add64(fn, b) == Add64(fn, Disp(w, |w|)) {
        Add64Injective(fn, b, Disp(w, |w|));
      }
    }
  }

  lemma EntryIsLive(mc: Machine, file: seq<byte>, fn: u64, w: seq<Insn>)
    requires Setting(mc, file, fn, w) && w != []
    ensures Live(w, fn)
  {
    hide Add64, Filled;
    assert mc.InsnAt(file, fn, w, 0);
    Add64Small(fn, 0);
    if Filled(w, 0) {
      FilledIsDead(w, 0);
    }
  }

  /** Live instructions lead to live instructions. */
  lemma LiveLeadsToLive(mc: Machine, file: seq<byte>, fn: u64, w: seq<Insn>, a: nat, to: u64)
    requires Setting(mc, file, fn, w) && TargetsOnStarts(fn, w)
    requires a < |w| && !Filled(w, a) && Leads(w[a], to) && InSpan(fn, w, to)
    ensures Live(w, to)
  {
    hide Add64, Filled, Disp, Machine.DecodeAt;
    if w[a].relTarget == Some(to) {
      assert to in Targets(w);
      var k :| 0 <= k < |w| && w[k].va == to;
      if Filled(w, k) {
        FilledIsDead(w, k);
      }
    } else {
      mc.NextInsn(file, fn, w, a);
      EndIsOutside(mc, file, fn, w);
      if Filled(w, a + 1) {
        FilledIsDead(w, a + 1);
      }
    }
  }

  /** Up to its `n`-th step a run of either image stays on live instructions and
      is a run of the other. */
  lemma {:induction false} RunStaysLive(mc: Machine, s: Bin, fn: u64, w: seq<Insn>, ws: seq<Write>,
                                        p: seq<u64>, n: nat, patched: bool)
    requires Setting(mc, s.file, fn, w) && TargetsOnStarts(fn, w) && w != []
    requires forall x | x in ws :: IsFill(w, x)
    requires n < |p| && p[0] == fn
    requires var file := if patched then PokeAll(mc.layout, s, ws).file else s.file;
             forall k | 0 <= k < n :: StepsTo(mc, file, fn, w, p[k], p[k + 1])
    ensures InSpan(fn, w, p[n]) ==> Live(w, p[n])
    ensures forall k | 0 <= k < n ::
              && mc.DecodeAt(PokeAll(mc.layout, s, ws).file, p[k]) == mc.DecodeAt(s.file, p[k])
              && StepsTo(mc, s.file, fn, w, p[k], p[k + 1])
              && StepsTo(mc, PokeAll(mc.layout, s, ws).file, fn, w, p[k], p[k + 1])
  {
    hide Add64, Filled, IsFill, Machine.DecodeAt, PokeAll, Disp;
    if n == 0 {
      EntryIsLive(mc, s.file, fn, w);
    } else {
      RunStaysLive(mc, s, fn, w, ws, p, n - 1, patched);
      var file := if patched then PokeAll(mc.layout, s, ws).file else s.file;
      assert StepsTo(mc, file, fn, w, p[n - 1], p[n]);
      var a :| 0 <= a < |w| && w[a].va == p[n - 1] && !Filled(w, a);
      LiveUntouched(mc, s, fn, w, ws, a);
      assert mc.InsnAt(s.file, fn, w, a);
      if InSpan(fn, w, p[n]) {
        LiveLeadsToLive(mc, s.file, fn, w, a, p[n]);
      }
    }
  }

  /** Main result: NOP-ing junk, aggressively or not, preserves meaning. The
      image before and after has the same runs from the function's entry, and
      along them every instruction is the same. */
  lemma NopJunkPreservesRuns(mc: Machine, s: Bin, fn: u64, aggressive: bool, threshold: nat, p: seq<u64>)
    requires ReadsPrefix(mc.decode)
    requires Linear(mc.layout, fn, Disp(mc.Walk(s.file, fn, WALK_CAP), |mc.Walk(s.file, fn, WALK_CAP)|))
    requires TargetsOnStarts(fn, mc.Walk(s.file, fn, WALK_CAP))
    ensures var w := mc.Walk(s.file, fn, WALK_CAP);
            var file' := NopJunk(mc, s, fn, aggressive, threshold).0.file;
            && (IsRun(mc, s.file, fn, w, p) <==> IsRun(mc, file', fn, w, p))
            && (IsRun(mc, s.file, fn, w, p) ==>
                  forall k | 0 <= k < |p| - 1 :: mc.DecodeAt(file', p[k]) == mc.DecodeAt(s.file, p[k]))
  {
    var w := mc.Walk(s.file, fn, WALK_CAP);
    if w != [] && p != [] && p[0] == fn {
      hide Filled, IsFill, Machine.DecodeAt, Machine.Walk, PokeAll, JunkEdits, StepsTo, Disp;
      mc.WalkIsLaid(s.file, fn);
      var ws := Writes(JunkEdits(w, aggressive, threshold));
      JunkEditsFill(w, aggressive, threshold);
      if IsRun(mc, s.file, fn, w, p) {
        RunStaysLive(mc, s, fn, w, ws, p, |p| - 1, false);
      }
      if IsRun(mc, PokeAll(mc.layout, s, ws).file, fn, w, p) {
        RunStaysLive(mc, s, fn, w, ws, p, |p| - 1, true);
      }
    }
  }

  // ----- the condition on targets is needed

  const FLAT: Layout := (va: u64) => Some(va as nat)
  const SMALL := Machine(Toy(true), FLAT)

  lemma SmallDecodes(file: seq<byte>, va: u64)
    requires va + WINDOW <= |file|
    ensures SMALL.DecodeAt(file, va) == ToyDecode(true, va, file[va..va + WINDOW])
    ensures var b := file[va..va + WINDOW]; b[0] == file[va] && b[1] == file[va + 1] && b[2] == file[va + 2]
  {
    hide ToyDecode;
    if ToyDecode(true, va, file[va..va + WINDOW]).Some? { ToyFinds(true, va, file[va..va + WINDOW]); }
  }

  /** What the small decoder makes of one-byte instructions and of two-byte ones. */
  lemma SmallOne(file: seq<byte>, va: u64)
    requires va + WINDOW <= |file| && file[va] in {0x90, 0xC3}
    ensures SMALL.DecodeAt(file, va)
            == Some(if file[va] == 0x90 then Insn(va, 1, [file[va]], NoFlow, Nop, [], None, None)
                    else Insn(va, 1, [file[va]], Flow.Ret, Return, [], None, None))
  {
    hide Machine.DecodeAt, ReadLength;
    SmallDecodes(file, va);
    assert file[va..va + WINDOW][..1] == [file[va]];
  }

  lemma SmallTwo(file: seq<byte>, va: u64)
    requires va + WINDOW <= |file|
    requires file[va] == 0xEB || 0x70 <= file[va] <= 0x7F || (file[va] == 0x31 && file[va + 1] == 0xC0)
    ensures var bytes := [file[va], file[va + 1]];
            SMALL.DecodeAt(file, va)
            == Some(if file[va] == 0x31 then Insn(va, 2, bytes, NoFlow, Xor, [Reg(1), Reg(1)], None, None)
                    else Insn(va, 2, bytes, if file[va] == 0xEB then Jmp else Jcc, Other, [Imm(0)],
                              Some(RelTarget(true, va, 2, Sext8(file[va + 1]))), None))
  {
    hide Machine.DecodeAt, RelTarget, Sext8;
    SmallDecodes(file, va);
    var b := file[va..va + WINDOW];
    assert b[..2] == [file[va], file[va + 1]];
    NoRead(b);
    hide ReadLength;
  }

  lemma NoRead(b: seq<byte>)
    requires b != [] && b[0] !in {0x0F, 0xF3, 0x66}
    ensures ReadLength(b, 15) == 0
  {
  }

  lemma WalkNext(file: seq<byte>, va: u64, max: nat, insn: Insn, rest: seq<Insn>)
    requires SMALL.DecodeAt(file, va) == Some(insn) && max > 0
    requires SMALL.Walk(file, Add64(va, insn.length), max - 1) == rest
    ensures SMALL.Walk(file, va, max) == [insn] + rest
  {
    hide Machine.DecodeAt, Add64;
  }

  lemma WalkStops(file: seq<byte>, va: u64, max: nat)
    requires va + WINDOW > |file|
    ensures SMALL.Walk(file, va, max) == []
  {
  }

  /** jmp +1; then two bytes that decode as a conditional jump but whose second
      byte, the jump's target, is a return. */
  const OVERLAP: seq<byte> := [
    0xEB, 0x01, 0x70, 0xC3, 0x90, 0x90, 0x90, 0x90, 0x90, 0x90,
    0x90, 0x90, 0x90, 0x90, 0x90, 0x90, 0x90, 0x90, 0x90]

  const OVERLAP_WALK: seq<Insn> := [
    Insn(0, 2, [0xEB, 0x01], Jmp, Other, [Imm(0)], Some(3), None),
    Insn(2, 2, [0x70, 0xC3], Jcc, Other, [Imm(0)], Some(0xFFFF_FFFF_FFFF_FFC7), None)]

  lemma OverlapTargets()
    ensures RelTarget(true, 0, 2, Sext8(0x01)) == 3
    ensures RelTarget(true, 2, 2, Sext8(0xC3)) == 0xFFFF_FFFF_FFFF_FFC7
  {
    assert Sext8(0x01) == 1 && Sext8(0xC3) == -0x3D;
  }

  lemma OverlapDecodes(file: seq<byte>)
    requires |file| == 19 && file[0] == 0xEB && file[1] == 0x01 && file[2] == 0x70 && file[3] == 0xC3
    ensures SMALL.DecodeAt(file, 0) == Some(OVERLAP_WALK[0])
    ensures SMALL.DecodeAt(file, 2) == Some(OVERLAP_WALK[1])
  {
    hide RelTarget, Sext8, Machine.DecodeAt;
    OverlapTargets();
    SmallTwo(file, 0);
    SmallTwo(file, 2);
  }

  lemma TwoWalk(file: seq<byte>, a: Insn, b: Insn)
    requires |file| == 19 && a.length == 2 && b.length == 2
    requires SMALL.DecodeAt(file, 0) == Some(a) && SMALL.DecodeAt(file, 2) == Some(b)
    ensures SMALL.Walk(file, 0, WALK_CAP) == [a, b]
  {
    hide Machine.DecodeAt, Machine.Walk, Add64;
    Add64Small(0, 2);
    Add64Small(2, 2);
    WalkStops(file, 4, WALK_CAP - 2);
    WalkNext(file, 2, WALK_CAP - 1, b, []);
    WalkNext(file, 0, WALK_CAP, a, [b]);
  }

  lemma OverlapWalk()
    ensures SMALL.Walk(OVERLAP, 0, WALK_CAP) == OVERLAP_WALK
  {
    hide Machine.Walk, Machine.DecodeAt;
    OverlapDecodes(OVERLAP);
    TwoWalk(OVERLAP, OVERLAP_WALK[0], OVERLAP_WALK[1]);
  }

  lemma OverlapEdits()
    ensures Writes(JunkEdits(OVERLAP_WALK, true, 4)) == [Write(2, 0x90), Write(3, 0x90)]
  {
    var w, t := OVERLAP_WALK, Targets(OVERLAP_WALK);
    assert forall va | va in t :: va == 3 || va == 0xFFFF_FFFF_FFFF_FFC7;
    SledsWriteNothing(w, ClampThreshold(4), 2);
    assert FillEnd(w, t, 1, 1, 0) == 2;
    assert Nops(w[1]) == [Write(2, 0x90), Write(3, 0x90)];
    assert NopsOver(w, 1, 1) == [];
    assert NopsOver(w, 1, 2) == Nops(w[1]);
    assert DeadEdits(w, t, 0) == [];
    assert DeadEdits(w, t, 1) == [];
    assert DeadEdits(w, t, 2) == [DeadEdit(w, t, 1)];
    WritesSnoc([], DeadEdit(w, t, 1));
    assert Writes([DeadEdit(w, t, 1)]) == NopsOver(w, 1, 2) by {
      assert [] + [DeadEdit(w, t, 1)] == [DeadEdit(w, t, 1)];
    }
    WritesConcat(Sleds(w, ClampThreshold(4), 2), DeadEdits(w, t, 2));
  }

  lemma OverlapFilled()
    ensures var mc := SMALL;
            NopJunk(mc, Bin(OVERLAP, [], false, false), 0, true, 4).0.file
            == OVERLAP[2 := 0x90][3 := 0x90]
  {
    hide Decoder.Machine.Walk, JunkEdits;
    var s := Bin(OVERLAP, [], false, false);
    OverlapWalk();
    OverlapEdits();
    var ws := [Write(2, 0x90), Write(3, 0x90)];
    PokeAllSnoc(FLAT, s, [], ws[0]);
    PokeAllSnoc(FLAT, s, [ws[0]], ws[1]);
    assert [] + [ws[0]] == [ws[0]] && [ws[0]] + [ws[1]] == ws;
    assert PokeAll(FLAT, s, []) == s;
  }

  const FILLED: seq<byte> := OVERLAP[2 := 0x90][3 := 0x90]

  lemma OverlapSpan()
    ensures InSpan(0, OVERLAP_WALK, 0) && InSpan(0, OVERLAP_WALK, 3) && !TargetsOnStarts(0, OVERLAP_WALK)
  {
    var w := OVERLAP_WALK;
    assert Disp(w, 0) == 0 && Disp(w, 1) == 2 && Disp(w, 2) == 4;
    assert InSpan(0, w, 0) by { assert 0 == Add64(0, 0); }
    assert InSpan(0, w, 3) by { assert 3 == Add64(0, 3); }
    assert !IsStart(w, 3) && w[0].relTarget.value == 3;
  }

  lemma OverlapSteps()
    ensures var mc := SMALL;
            && StepsTo(mc, FILLED, 0, OVERLAP_WALK, 0, 3) && StepsTo(mc, FILLED, 0, OVERLAP_WALK, 3, 4)
            && !StepsTo(mc, OVERLAP, 0, OVERLAP_WALK, 3, 4)
  {
    hide InSpan, TargetsOnStarts, Machine.DecodeAt, ReadLength;
    OverlapSpan();
    SmallTwo(FILLED, 0);
    SmallOne(FILLED, 3);
    SmallOne(OVERLAP, 3);
  }

  /** With a branch into the middle of an instruction the fill does change what
      the function does: it runs into a return before and past it after. */
  lemma OverlapChangesRuns()
    ensures var mc := SMALL;
            var w := mc.Walk(OVERLAP, 0, WALK_CAP);
            var file' := NopJunk(mc, Bin(OVERLAP, [], false, false), 0, true, 4).0.file;
            && !TargetsOnStarts(0, w)
            && !IsRun(mc, OVERLAP, 0, w, [0, 3, 4])
            && IsRun(mc, file', 0, w, [0, 3, 4])
  {
    hide Decoder.Machine.Walk, NopJunk, StepsTo, TargetsOnStarts, InSpan;
    var mc := SMALL;
    var w, p: seq<u64> := OVERLAP_WALK, [0, 3, 4];
    OverlapWalk();
    OverlapFilled();
    OverlapSpan();
    OverlapSteps();
    assert !StepsTo(mc, OVERLAP, 0, w, p[1], p[2]);
  }
}
