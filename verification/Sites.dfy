/** Which anti-debug sites are found after another pass has rewritten the
    function: those at the instructions it left alone. */
module Sites {
  import opened Words
  import opened Image
  import opened Decoder
  import opened Journal
  import opened Passes
  import opened DeadCode
  import opened Redecode
  import opened Regions
  import opened Effects

  // ----- instructions that are no sites

  ghost predicate Quiet(imports: Imports, opts: AntiOpts, insn: Insn) {
    AntiEditsAt(imports, opts, insn) == []
  }

  lemma PlainIsQuiet(imports: Imports, opts: AntiOpts, r: Option<Insn>, length: nat)
    requires IsPlain(r, length, Nop)
    ensures Quiet(imports, opts, r.value)
  {
  }

  lemma DirectJmpIsQuiet(imports: Imports, opts: AntiOpts, r: Option<Insn>, length: nat, target: u64)
    requires IsDirectJmp(r, length, target)
    ensures Quiet(imports, opts, r.value)
  {
    assert Slot(imports, r.value) == 0;
  }

  lemma JccIsQuiet(imports: Imports, opts: AntiOpts, insn: Insn)
    requires insn.flow == Jcc && insn.mnemonic !in {Int3, Int, Rdtsc}
    ensures Quiet(imports, opts, insn)
  {
  }

  // ----- the setting

  /** Past the last walked instruction the decoder sees none of its bytes. */
  ghost predicate EndApart(mc: Machine, fn: u64, w: seq<Insn>) {
    mc.layout(Add64(fn, Disp(w, |w|))).Some? && mc.layout(fn).Some? ==>
      var end, off := mc.layout(Add64(fn, Disp(w, |w|))).value, mc.layout(fn).value;
      end + WINDOW <= off || off + Disp(w, |w|) <= end
  }

  /** Every byte that differs belongs to an instruction of the walk. */
  ghost predicate OnlyInside(mc: Machine, file: seq<byte>, file': seq<byte>, fn: u64, w: seq<Insn>) {
    && |file'| == |file|
    && forall o | 0 <= o < |file| && file'[o] != file[o] :: mc.layout(fn).Some? && InSome(mc, fn, w, o)
  }

  ghost predicate InSome(mc: Machine, fn: u64, w: seq<Insn>, o: nat)
    requires mc.layout(fn).Some?
  {
    exists k :: 0 <= k < |w| && InRegion(mc, fn, w, k, o)
  }

  /** What the passes before the anti-debug pass turn an instruction into: a
      conditional jump into a jump, or any into no-operations. */
  predicate Harmless(insn: Insn, shape: Shape) {
    shape in {Same, AllNops} || (shape in {ShortJmp, NearJmp} && insn.flow == Jcc)
  }

  ghost predicate Rewritten(mc: Machine, x64: bool, file: seq<byte>, file': seq<byte>, fn: u64,
                            w: seq<Insn>, shapes: seq<Shape>) {
    && IsX86(mc.decode, x64) && Reshaped(mc, file, file', fn, w, shapes)
    && forall k | 0 <= k < |w| :: Harmless(w[k], shapes[k])
  }

  /** The sites at instructions left alone. */
  function Kept(imports: Imports, opts: AntiOpts, w: seq<Insn>, shapes: seq<Shape>, n: nat): seq<Edit>
    requires n <= |w| == |shapes|
  {
    if n == 0 then []
    else
      Kept(imports, opts, w, shapes, n - 1)
      + if shapes[n - 1] == Same then AntiEditsAt(imports, opts, w[n - 1]) else []
  }

  lemma RewrittenMeans(mc: Machine, x64: bool, file: seq<byte>, file': seq<byte>, fn: u64,
                       w: seq<Insn>, shapes: seq<Shape>)
    requires Rewritten(mc, x64, file, file', fn, w, shapes)
    ensures ReadsPrefix(mc.decode) && WritesDecode(mc.decode, x64) && DropsPrefix(mc.decode)
    ensures Reshaped(mc, file, file', fn, w, shapes) && mc.Laid(file, fn, w) && Linear(mc.layout, fn, Disp(w, |w|))
    ensures |shapes| == |w| && |w| <= WALK_CAP && |file'| == |file|
    ensures forall i | 0 <= i <= |w| :: NoneLost(w, shapes, i)
  {
    hide ReadsPrefix, WritesDecode, FindsDecode, DropsPrefix, Linear, HasShape, IsRead, Machine.InsnAt;
  }

  lemma OneInsn(mc: Machine, x64: bool, file: seq<byte>, file': seq<byte>, fn: u64,
                w: seq<Insn>, shapes: seq<Shape>, i: nat)
    requires Rewritten(mc, x64, file, file', fn, w, shapes) && i < |w|
    ensures w[i].va == Add64(fn, Disp(w, i)) && 1 <= w[i].length <= 15
    ensures 1 <= Pieces(shapes[i], w[i].length) <= w[i].length
    ensures PieceCount(w, shapes, i + 1) == PieceCount(w, shapes, i) + Pieces(shapes[i], w[i].length)
    ensures mc.layout(fn).Some? && HasShape(file', mc.layout(fn).value + Disp(w, i), w[i], shapes[i])
    ensures Harmless(w[i], shapes[i])
  {
    hide Add64, Disp, Machine.DecodeAt, IsX86, IsRead;
    assert mc.InsnAt(file, fn, w, i);
    assert HasShape(file', mc.layout(fn).value + Disp(w, i), w[i], shapes[i]);
  }

  // ----- the pieces an instruction became

  /** What is decoded `b` bytes into a rewritten instruction, if that is the start
      of a piece. */
  lemma PieceAt(mc: Machine, x64: bool, file: seq<byte>, file': seq<byte>, fn: u64, w: seq<Insn>, shapes: seq<Shape>,
                imports: Imports, opts: AntiOpts, i: nat, b: nat)
    requires Rewritten(mc, x64, file, file', fn, w, shapes)
    requires i < |w| && b < Pieces(shapes[i], w[i].length) && mc.DecodeAt(file', Add64(w[i].va, b)).Some?
    ensures var r := mc.DecodeAt(file', Add64(w[i].va, b)).value;
            && (shapes[i] == Same ==> r == w[i])
            && (shapes[i] != Same ==> Quiet(imports, opts, r))
            && (if b + 1 < Pieces(shapes[i], w[i].length) then r.length == 1 else b + r.length == w[i].length)
  {
    hide Rewritten, Reshaped, Add64, Disp, Machine.DecodeAt, WritesDecode, ReadsPrefix, DropsPrefix, Quiet,
         RelTarget, Sext8, Sext32, Machine.Laid, Linear;
    RewrittenMeans(mc, x64, file, file', fn, w, shapes);
    OneInsn(mc, x64, file, file', fn, w, shapes, i);
    var va, off := Add64(w[i].va, b), mc.layout(fn).value + Disp(w, i) + b;
    mc.InsnOffset(file, fn, w, i, b);
    DecodedWindow(mc, file', va);
    Add64Small(w[i].va, 0);
    match shapes[i]
    case Same => SameShapeDecodes(mc, file, file', fn, w, shapes, i);
    case AllNops =>
      StepPlain(mc, x64, file', va, off);
      PlainIsQuiet(imports, opts, mc.DecodeAt(file', va), 1);
    case ShortJmp =>
      StepPlain(mc, x64, file', va, off);
      DirectJmpIsQuiet(imports, opts, mc.DecodeAt(file', va), 2, RelTarget(x64, va, 2, Sext8(file'[off + 1])));
    case NearJmp =>
      StepPlain(mc, x64, file', va, off);
      if b == 0 {
        PlainIsQuiet(imports, opts, mc.DecodeAt(file', va), 1);
      } else {
        DirectJmpIsQuiet(imports, opts, mc.DecodeAt(file', va), 5,
                         RelTarget(x64, va, 5, Sext32(file'[off + 1..off + 5])));
      }
    case _ =>
  }

  lemma DecodedWindow(mc: Machine, file: seq<byte>, va: u64)
    requires mc.DecodeAt(file, va).Some?
    ensures mc.layout(va).Some? && mc.layout(va).value + WINDOW <= |file|
  {
  }

  /** The new walk, where it counts into the pieces of the `i`-th instruction. */
  lemma {:induction false} PieceReached(mc: Machine, x64: bool, file: seq<byte>, file': seq<byte>, fn: u64,
                                        w: seq<Insn>, shapes: seq<Shape>, i: nat, b: nat)
    requires Rewritten(mc, x64, file, file', fn, w, shapes) && i < |w| && b < Pieces(shapes[i], w[i].length)
    requires PieceCount(w, shapes, i) + b < |mc.Walk(file', fn, WALK_CAP)|
    ensures var n := PieceCount(w, shapes, i) + b;
            && mc.Steps(file', fn, n) == Some(Add64(w[i].va, b))
            && mc.DecodeAt(file', Add64(w[i].va, b)) == Some(mc.Walk(file', fn, WALK_CAP)[n])
    decreases b
  {
    hide Rewritten, Reshaped, Add64, Machine.DecodeAt, Machine.Walk, Machine.Steps, WritesDecode, ReadsPrefix,
         DropsPrefix, NoneLost, Pieces, PieceCount, Machine.Laid, Linear, Quiet, Disp;
    RewrittenMeans(mc, x64, file, file', fn, w, shapes);
    var k := PieceCount(w, shapes, i);
    if b == 0 {
      StepsReachStarts(mc, x64, file, file', fn, w, shapes, i);
      Add64Small(w[i].va, 0);
    } else {
      PieceReached(mc, x64, file, file', fn, w, shapes, i, b - 1);
      PieceAt(mc, x64, file, file', fn, w, shapes, Imports(0, map[]), ALL_ANTI, i, b - 1);
      mc.StepsAdd(file', fn, k + (b - 1), 1);
      StepOne(mc, file', Add64(w[i].va, b - 1));
      Add64Assoc(w[i].va, b - 1, 1);
    }
    mc.WalkSteps(file', fn, WALK_CAP, k + b);
  }

  lemma AntiEditsNext(imports: Imports, opts: AntiOpts, w: seq<Insn>, n: nat)
    requires n < |w|
    ensures AntiEdits(imports, opts, w, n + 1) == AntiEdits(imports, opts, w, n) + AntiEditsAt(imports, opts, w[n])
  {
    hide AntiEditsAt;
  }

  /** The pieces of a rewritten instruction add no site. */
  lemma {:induction false} QuietPieces(mc: Machine, x64: bool, file: seq<byte>, file': seq<byte>, fn: u64, w: seq<Insn>,
                                       shapes: seq<Shape>, imports: Imports, opts: AntiOpts, i: nat, b: nat)
    requires Rewritten(mc, x64, file, file', fn, w, shapes)
    requires i < |w| && b <= Pieces(shapes[i], w[i].length) && shapes[i] != Same && |shapes| == |w|
    requires PieceCount(w, shapes, i) + b <= |mc.Walk(file', fn, WALK_CAP)|
    ensures var w' := mc.Walk(file', fn, WALK_CAP);
            AntiEdits(imports, opts, w', PieceCount(w, shapes, i) + b)
            == AntiEdits(imports, opts, w', PieceCount(w, shapes, i))
    decreases b
  {
    hide Rewritten, Add64, Machine.DecodeAt, Machine.Walk, Machine.Steps, Pieces, PieceCount, AntiEdits, AntiEditsAt;
    if b > 0 {
      var w', n := mc.Walk(file', fn, WALK_CAP), PieceCount(w, shapes, i) + (b - 1);
      QuietPieces(mc, x64, file, file', fn, w, shapes, imports, opts, i, b - 1);
      PieceReached(mc, x64, file, file', fn, w, shapes, i, b - 1);
      PieceAt(mc, x64, file, file', fn, w, shapes, imports, opts, i, b - 1);
      AntiEditsNext(imports, opts, w', n);
      assert AntiEdits(imports, opts, w', n) + [] == AntiEdits(imports, opts, w', n);
    }
  }

  /** Up to the `i`-th start the new walk has met the sites that were kept. */
  lemma {:induction false} SitesUpTo(mc: Machine, x64: bool, file: seq<byte>, file': seq<byte>, fn: u64, w: seq<Insn>,
                                     shapes: seq<Shape>, imports: Imports, opts: AntiOpts, i: nat)
    requires Rewritten(mc, x64, file, file', fn, w, shapes) && i <= |w| == |shapes|
    requires PieceCount(w, shapes, i) <= |mc.Walk(file', fn, WALK_CAP)|
    ensures AntiEdits(imports, opts, mc.Walk(file', fn, WALK_CAP), PieceCount(w, shapes, i))
            == Kept(imports, opts, w, shapes, i)
  {
    hide Rewritten, Add64, Machine.DecodeAt, Machine.Walk, Machine.Steps, Pieces, AntiEditsAt;
    if i > 0 {
      var w', k := mc.Walk(file', fn, WALK_CAP), PieceCount(w, shapes, i - 1);
      OneInsn(mc, x64, file, file', fn, w, shapes, i - 1);
      SitesUpTo(mc, x64, file, file', fn, w, shapes, imports, opts, i - 1);
      if shapes[i - 1] == Same {
        SameIsOne(w[i - 1].length);
        PieceReached(mc, x64, file, file', fn, w, shapes, i - 1, 0);
        PieceAt(mc, x64, file, file', fn, w, shapes, imports, opts, i - 1, 0);
        AntiEditsNext(imports, opts, w', k);
      } else {
        QuietPieces(mc, x64, file, file', fn, w, shapes, imports, opts, i - 1, Pieces(shapes[i - 1], w[i - 1].length));
        assert Kept(imports, opts, w, shapes, i - 1) + [] == Kept(imports, opts, w, shapes, i - 1);
      }
    }
  }

  lemma SameIsOne(length: nat)
    ensures Pieces(Same, length) == 1
  {
  }

  // ----- how far the new walk gets

  lemma SameEnd(mc: Machine, file: seq<byte>, file': seq<byte>, fn: u64, w: seq<Insn>)
    requires mc.Laid(file, fn, w) && OnlyInside(mc, file, file', fn, w) && EndApart(mc, fn, w)
    ensures var end := Add64(fn, Disp(w, |w|)); mc.DecodeAt(file', end) == mc.DecodeAt(file, end)
  {
    hide Add64, Disp, Machine.Laid;
    var end := Add64(fn, Disp(w, |w|));
    if mc.layout(end).Some? && mc.layout(end).value + WINDOW <= |file| {
      var at := mc.layout(end).value;
      forall o | at <= o < at + WINDOW ensures file'[o] == file[o] {
        if file'[o] != file[o] {
          var k :| 0 <= k < |w| && InRegion(mc, fn, w, k, o);
          DispMonotone(w, k, |w|);
          assert false;
        }
      }
      assert file'[at..at + WINDOW] == file[at..at + WINDOW];
    }
  }

  /** If the new walk outlasts all the pieces, it passes the old end. */
  lemma EndReached(mc: Machine, x64: bool, file: seq<byte>, file': seq<byte>, fn: u64, w: seq<Insn>, shapes: seq<Shape>)
    requires Rewritten(mc, x64, file, file', fn, w, shapes) && w != [] && |shapes| == |w|
    requires PieceCount(w, shapes, |w|) < |mc.Walk(file', fn, WALK_CAP)|
    ensures mc.Steps(file', fn, PieceCount(w, shapes, |w|)) == Some(Add64(fn, Disp(w, |w|)))
  {
    hide Rewritten, Reshaped, Add64, Machine.DecodeAt, Machine.Walk, Machine.Steps, Pieces, PieceCount, Disp,
         WritesDecode, ReadsPrefix, DropsPrefix, Linear, HasShape, NoneLost, Machine.Laid, Quiet, Harmless;
    RewrittenMeans(mc, x64, file, file', fn, w, shapes);
    var i := |w| - 1;
    OneInsn(mc, x64, file, file', fn, w, shapes, i);
    var b := Pieces(shapes[i], w[i].length) - 1;
    var n := PieceCount(w, shapes, i) + b;
    PieceReached(mc, x64, file, file', fn, w, shapes, i, b);
    PieceAt(mc, x64, file, file', fn, w, shapes, Imports(0, map[]), ALL_ANTI, i, b);
    StepOne(mc, file', Add64(w[i].va, b));
    mc.StepsAdd(file', fn, n, 1);
    Add64Assoc(w[i].va, b, w[i].length - b);
    mc.NextInsn(file, fn, w, i);
  }

  /** How many of the first `n` instructions the new walk gets to before its cap:
      all of them, unless the extra pieces fill it up. */
  function Reach(w: seq<Insn>, shapes: seq<Shape>, n: nat): (m: nat)
    requires n <= |w| == |shapes|
    ensures m <= n
  {
    if n == 0 then 0 else if PieceCount(w, shapes, n - 1) < WALK_CAP then n else Reach(w, shapes, n - 1)
  }

  lemma {:induction false} ReachMeans(w: seq<Insn>, shapes: seq<Shape>, n: nat)
    requires n <= |w| == |shapes|
    ensures var m := Reach(w, shapes, n);
            && (m > 0 ==> PieceCount(w, shapes, m - 1) < WALK_CAP)
            && (m < n ==> PieceCount(w, shapes, m) >= WALK_CAP)
            && (n > 0 ==> m > 0)
  {
    hide Pieces;
    if n > 0 { ReachMeans(w, shapes, n - 1); }
  }

  lemma ReachesAll(mc: Machine, x64: bool, file: seq<byte>, file': seq<byte>, fn: u64, w: seq<Insn>, shapes: seq<Shape>)
    requires Rewritten(mc, x64, file, file', fn, w, shapes)
    requires |shapes| == |w| && PieceCount(w, shapes, |w|) <= WALK_CAP
    ensures Reach(w, shapes, |w|) == |w|
  {
    hide Rewritten, Pieces, PieceCount;
    if w != [] { OneInsn(mc, x64, file, file', fn, w, shapes, |w| - 1); }
  }

  /** The new walk gets to the last start that the cap leaves room for, and no
      further than the end of that instruction. */
  lemma NewLength(mc: Machine, x64: bool, file: seq<byte>, file': seq<byte>, fn: u64, w: seq<Insn>, shapes: seq<Shape>)
    requires Rewritten(mc, x64, file, file', fn, w, shapes) && w == mc.Walk(file, fn, WALK_CAP) && w != []
    requires OnlyInside(mc, file, file', fn, w) && EndApart(mc, fn, w) && |shapes| == |w|
    ensures var m := Reach(w, shapes, |w|);
            m > 0 && PieceCount(w, shapes, m - 1) < |mc.Walk(file', fn, WALK_CAP)| <= PieceCount(w, shapes, m)
  {
    hide Rewritten, Reshaped, Add64, Machine.DecodeAt, Machine.Walk, Machine.Steps, Pieces, PieceCount, Disp,
         WritesDecode, ReadsPrefix, DropsPrefix, Linear, HasShape, NoneLost, EndApart, OnlyInside, Machine.Laid,
         Quiet, Harmless, Reach;
    RewrittenMeans(mc, x64, file, file', fn, w, shapes);
    ReachMeans(w, shapes, |w|);
    var m, total := Reach(w, shapes, |w|), PieceCount(w, shapes, |w|);
    RewalkKeepsStart(mc, x64, file, file', fn, w, shapes, m - 1);
    if m == |w| && total < |mc.Walk(file', fn, WALK_CAP)| {
      AtLeastOneEach(mc, x64, file, file', fn, w, shapes, |w|);
      EndReached(mc, x64, file, file', fn, w, shapes);
      SameEnd(mc, file, file', fn, w);
      mc.WalkSteps(file', fn, WALK_CAP, total);
      mc.WalkDisp(file, fn, WALK_CAP, |w|);
      mc.WalkSteps(file, fn, WALK_CAP, |w|);
      assert false;
    }
  }

  lemma {:induction false} AtLeastOneEach(mc: Machine, x64: bool, file: seq<byte>, file': seq<byte>, fn: u64,
                                          w: seq<Insn>, shapes: seq<Shape>, i: nat)
    requires Rewritten(mc, x64, file, file', fn, w, shapes) && i <= |w| == |shapes|
    ensures PieceCount(w, shapes, i) >= i
  {
    hide Rewritten, Pieces;
    if i > 0 {
      AtLeastOneEach(mc, x64, file, file', fn, w, shapes, i - 1);
      OneInsn(mc, x64, file, file', fn, w, shapes, i - 1);
    }
  }

  /** The new walk stays within the bytes of the instructions it gets to, and
      ends apart from the function as well. */
  lemma NewSpan(mc: Machine, x64: bool, file: seq<byte>, file': seq<byte>, fn: u64, w: seq<Insn>, shapes: seq<Shape>)
    requires Rewritten(mc, x64, file, file', fn, w, shapes) && w == mc.Walk(file, fn, WALK_CAP) && w != []
    requires OnlyInside(mc, file, file', fn, w) && EndApart(mc, fn, w) && |shapes| == |w|
    ensures var w' := mc.Walk(file', fn, WALK_CAP);
            && w' != [] && EndApart(mc, fn, w')
            && Disp(w', |w'|) <= Disp(w, Reach(w, shapes, |w|)) <= Disp(w, |w|)
  {
    hide Rewritten, Reshaped, Add64, Machine.DecodeAt, Machine.Walk, Machine.Steps, Pieces, PieceCount, Disp,
         WritesDecode, ReadsPrefix, DropsPrefix, Linear, HasShape, NoneLost, EndApart, OnlyInside, Machine.Laid,
         Quiet, Harmless, Reach;
    RewrittenMeans(mc, x64, file, file', fn, w, shapes);
    NewLength(mc, x64, file, file', fn, w, shapes);
    var i, w' := Reach(w, shapes, |w|) - 1, mc.Walk(file', fn, WALK_CAP);
    OneInsn(mc, x64, file, file', fn, w, shapes, i);
    var n := |w'| - 1;
    var b := n - PieceCount(w, shapes, i);
    PieceReached(mc, x64, file, file', fn, w, shapes, i, b);
    PieceAt(mc, x64, file, file', fn, w, shapes, Imports(0, map[]), ALL_ANTI, i, b);
    forall k | 0 <= k < |w| ensures w[k].length <= 15 { OneInsn(mc, x64, file, file', fn, w, shapes, k); }
    DispBound(w, |w|);
    NextDisp(w, i);
    DispMonotone(w, i + 1, |w|);
    Add64Assoc(fn, Disp(w, i), b);
    PlaceOf(mc, file', fn, WALK_CAP, n, Add64(w[i].va, b), Disp(w, i) + b);
    NextDisp(w', n);
    EndStaysApart(mc, fn, w, w');
  }

  lemma EndStaysApart(mc: Machine, fn: u64, w: seq<Insn>, w': seq<Insn>)
    requires EndApart(mc, fn, w) && Linear(mc.layout, fn, Disp(w, |w|)) && Disp(w', |w'|) <= Disp(w, |w|)
    ensures EndApart(mc, fn, w')
  {
    hide Add64, Disp;
    if Disp(w', |w'|) < Disp(w, |w|) {
      assert mc.layout(Add64(fn, Disp(w', |w'|))) == Some(mc.layout(fn).value + Disp(w', |w'|));
    }
  }

  /** Main result: after the rewriting the anti-debug sites are those at the
      instructions left alone, as far as the cap lets the new walk get. */
  lemma SitesSurvive(mc: Machine, x64: bool, file: seq<byte>, file': seq<byte>, fn: u64, w: seq<Insn>,
                     shapes: seq<Shape>, imports: Imports, opts: AntiOpts)
    requires Rewritten(mc, x64, file, file', fn, w, shapes) && w == mc.Walk(file, fn, WALK_CAP) && w != []
    requires OnlyInside(mc, file, file', fn, w) && EndApart(mc, fn, w) && |shapes| == |w|
    ensures var w' := mc.Walk(file', fn, WALK_CAP);
            AntiEdits(imports, opts, w', |w'|) == Kept(imports, opts, w, shapes, Reach(w, shapes, |w|))
  {
    hide Rewritten, Add64, Machine.DecodeAt, Machine.Walk, Pieces, PieceCount, AntiEdits, AntiEditsAt,
         EndApart, OnlyInside, Kept, Reach;
    NewLength(mc, x64, file, file', fn, w, shapes);
    var w', m := mc.Walk(file', fn, WALK_CAP), Reach(w, shapes, |w|);
    var i := m - 1;
    OneInsn(mc, x64, file, file', fn, w, shapes, i);
    if |w'| == PieceCount(w, shapes, m) {
      SitesUpTo(mc, x64, file, file', fn, w, shapes, imports, opts, m);
    } else {
      SameIsOne(w[i].length);
      SitesUpTo(mc, x64, file, file', fn, w, shapes, imports, opts, i);
      QuietPieces(mc, x64, file, file', fn, w, shapes, imports, opts, i, |w'| - PieceCount(w, shapes, i));
      KeptNext(imports, opts, w, shapes, i);
    }
  }

  lemma KeptNext(imports: Imports, opts: AntiOpts, w: seq<Insn>, shapes: seq<Shape>, i: nat)
    requires i < |w| == |shapes| && shapes[i] != Same
    ensures Kept(imports, opts, w, shapes, i + 1) == Kept(imports, opts, w, shapes, i)
  {
  }
}
