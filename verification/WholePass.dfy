/** The three passes of a real full pass together: which instruction starts are
    found again at the end, and what the first two do to the function's runs. */
module WholePass {
  import opened Words
  import opened Image
  import opened Decoder
  import opened Journal
  import opened Passes
  import opened DeadCode
  import opened Redecode
  import opened Regions
  import opened Effects
  import opened Sites
  import opened Preview
  import opened Branches

  // ----- one pass

  /** A pass turned the function `w` of the first image into `w'` of the second. */
  ghost predicate Stage(mc: Machine, x64: bool, file: seq<byte>, file': seq<byte>, fn: u64,
                        w: seq<Insn>, w': seq<Insn>, shapes: seq<Shape>) {
    && Rewritten(mc, x64, file, file', fn, w, shapes) && OnlyInside(mc, file, file', fn, w) && EndApart(mc, fn, w)
    && w == mc.Walk(file, fn, WALK_CAP) && w' == mc.Walk(file', fn, WALK_CAP)
    && w != [] && |shapes| == |w|
  }

  lemma StartMoves(mc: Machine, x64: bool, file: seq<byte>, file': seq<byte>, fn: u64,
                   w: seq<Insn>, w': seq<Insn>, shapes: seq<Shape>, i: nat)
    requires Stage(mc, x64, file, file', fn, w, w', shapes) && i < |w|
    ensures PieceCount(w, shapes, i) < PieceCount(w, shapes, i + 1)
    ensures PieceCount(w, shapes, i) < |w'| ==> w'[PieceCount(w, shapes, i)].va == w[i].va
    ensures PieceCount(w, shapes, i) < |w'| <==> PieceCount(w, shapes, i) < WALK_CAP
  {
    hide Rewritten, OnlyInside, EndApart, Machine.Walk, PieceCount, Reshaped, NoneLost, ReadsPrefix, WritesDecode,
         DropsPrefix, Machine.Laid, Linear, HasShape, Pieces;
    RewrittenMeans(mc, x64, file, file', fn, w, shapes);
    OneInsn(mc, x64, file, file', fn, w, shapes, i);
    RewalkKeepsStart(mc, x64, file, file', fn, w, shapes, i);
  }

  /** An instruction left alone is there again, as one instruction. */
  lemma SameMoves(mc: Machine, x64: bool, file: seq<byte>, file': seq<byte>, fn: u64,
                  w: seq<Insn>, w': seq<Insn>, shapes: seq<Shape>, i: nat)
    requires Stage(mc, x64, file, file', fn, w, w', shapes) && i < |w| && shapes[i] == Same
    ensures PieceCount(w, shapes, i) < |w'| ==> w'[PieceCount(w, shapes, i)] == w[i]
    ensures PieceCount(w, shapes, i + 1) == PieceCount(w, shapes, i) + 1
  {
    hide Rewritten, OnlyInside, EndApart, Machine.Walk, Machine.DecodeAt, PieceCount, Quiet, Add64, Pieces;
    OneInsn(mc, x64, file, file', fn, w, shapes, i);
    SameIsOne(w[i].length);
    if PieceCount(w, shapes, i) < |w'| {
      PieceReached(mc, x64, file, file', fn, w, shapes, i, 0);
      PieceAt(mc, x64, file, file', fn, w, shapes, Imports(0, map[]), ALL_ANTI, i, 0);
    }
  }

  /** The instruction that the `n`-th piece belongs to. */
  lemma {:induction false} Locate(w: seq<Insn>, shapes: seq<Shape>, n: nat, m: nat) returns (i: nat, b: nat)
    requires m <= |w| == |shapes| && n < PieceCount(w, shapes, m)
    ensures i < m && b < Pieces(shapes[i], w[i].length) && n == PieceCount(w, shapes, i) + b
  {
    hide Pieces;
    if n < PieceCount(w, shapes, m - 1) {
      i, b := Locate(w, shapes, n, m - 1);
    } else {
      i, b := m - 1, n - PieceCount(w, shapes, m - 1);
    }
  }

  lemma PieceOf(mc: Machine, x64: bool, file: seq<byte>, file': seq<byte>, fn: u64,
                w: seq<Insn>, w': seq<Insn>, shapes: seq<Shape>, n: nat) returns (i: nat, b: nat)
    requires Stage(mc, x64, file, file', fn, w, w', shapes) && n < |w'|
    ensures i < |w| && b < Pieces(shapes[i], w[i].length) && n == PieceCount(w, shapes, i) + b
    ensures mc.DecodeAt(file', Add64(w[i].va, b)) == Some(w'[n]) && PieceCount(w, shapes, i) < |w'|
  {
    hide Rewritten, OnlyInside, EndApart, Machine.Walk, Machine.DecodeAt, PieceCount, Add64, Pieces,
         Machine.Steps, Reach;
    NewLength(mc, x64, file, file', fn, w, shapes);
    i, b := Locate(w, shapes, n, Reach(w, shapes, |w|));
    PieceReached(mc, x64, file, file', fn, w, shapes, i, b);
  }

  /** A time-stamp read that is found afterwards was there before. */
  lemma ReadIsOld(mc: Machine, x64: bool, file: seq<byte>, file': seq<byte>, fn: u64,
                  w: seq<Insn>, w': seq<Insn>, shapes: seq<Shape>, n: nat) returns (i: nat)
    requires Stage(mc, x64, file, file', fn, w, w', shapes) && n < |w'| && w'[n].mnemonic == Rdtsc
    ensures i < |w| && shapes[i] == Same && n == PieceCount(w, shapes, i) && w'[n] == w[i]
  {
    hide Rewritten, OnlyInside, EndApart, Machine.Walk, Machine.DecodeAt, PieceCount, Add64, Pieces, Quiet;
    var b: nat;
    i, b := PieceOf(mc, x64, file, file', fn, w, w', shapes, n);
    PieceAt(mc, x64, file, file', fn, w, shapes, Imports(0, map[]), AntiOpts(false, false, true), i, b);
    QuietIsNoRead(Imports(0, map[]), w'[n]);
    SameIsOne(w[i].length);
  }

  lemma QuietIsNoRead(imports: Imports, insn: Insn)
    ensures Quiet(imports, AntiOpts(false, false, true), insn) ==> insn.mnemonic != Rdtsc
  {
    assert insn.mnemonic == Rdtsc ==> |TrapEdits(AntiOpts(false, false, true), insn)| == 1;
  }

  // ----- the first two passes

  /** What the junk pass does to each instruction; it fills only when the function
      scored high. */
  ghost function JunkShapes(heavy: bool, w: seq<Insn>): (shapes: seq<Shape>)
    ensures |shapes| == |w|
  {
    if heavy then FillShapes(w) else seq(|w|, k => Same)
  }

  lemma JunkStage(mc: Machine, x64: bool, s: Bin, fn: u64, heavy: bool)
    requires IsX86(mc.decode, x64) && LinearFn(mc, s, fn)
    requires var w := mc.Walk(s.file, fn, WALK_CAP); w != [] && EndApart(mc, fn, w)
    ensures var w, s' := mc.Walk(s.file, fn, WALK_CAP), NopJunk(mc, s, fn, heavy, 4).0;
            && Stage(mc, x64, s.file, s'.file, fn, w, mc.Walk(s'.file, fn, WALK_CAP), JunkShapes(heavy, w))
            && LinearFn(mc, s', fn)
  {
    hide Machine.Walk, IsX86, NopJunk, Rewritten, OnlyInside, EndApart, Disp, Reach, FillShapes;
    var w, s' := mc.Walk(s.file, fn, WALK_CAP), NopJunk(mc, s, fn, heavy, 4).0;
    if heavy {
      FillRewrites(mc, x64, s, fn, 4);
    } else {
      LightJunk(mc, s, fn);
      NothingRewritten(mc, x64, s, fn);
    }
    NewSpan(mc, x64, s.file, s'.file, fn, w, JunkShapes(heavy, w));
  }

  lemma NothingRewritten(mc: Machine, x64: bool, s: Bin, fn: u64)
    requires IsX86(mc.decode, x64) && LinearFn(mc, s, fn)
    ensures var w := mc.Walk(s.file, fn, WALK_CAP);
            Rewritten(mc, x64, s.file, s.file, fn, w, JunkShapes(false, w)) && OnlyInside(mc, s.file, s.file, fn, w)
  {
    hide Machine.Walk, Machine.DecodeAt, ReadsPrefix, WritesDecode, FindsDecode, DropsPrefix, Disp, Add64;
    var w := mc.Walk(s.file, fn, WALK_CAP);
    mc.WalkIsLaid(s.file, fn);
    forall k | 0 <= k < |w| ensures HasShape(s.file, mc.layout(fn).value + Disp(w, k), w[k], Same) {
      assert mc.InsnAt(s.file, fn, w, k);
      mc.DecodedInsn(s.file, w[k].va);
      mc.InsnOffset(s.file, fn, w, k, 0);
    }
  }

  /** The function before, between and after the first two passes. */
  ghost predicate Stages(mc: Machine, x64: bool, s: Bin, fn: u64, heavy: bool,
                         w: seq<Insn>, w1: seq<Insn>, w2: seq<Insn>) {
    var s1 := Opaque(mc, s, fn, false).0;
    var s2 := NopJunk(mc, s1, fn, heavy, 4).0;
    && Stage(mc, x64, s.file, s1.file, fn, w, w1, OpaqueShapes(w))
    && Stage(mc, x64, s1.file, s2.file, fn, w1, w2, JunkShapes(heavy, w1))
    && LinearFn(mc, s2, fn)
  }

  lemma BothStages(mc: Machine, x64: bool, s: Bin, fn: u64, heavy: bool)
    requires IsX86(mc.decode, x64) && LinearFn(mc, s, fn)
    requires var w := mc.Walk(s.file, fn, WALK_CAP); w != [] && EndApart(mc, fn, w)
    ensures var s1 := Opaque(mc, s, fn, false).0;
            var s2 := NopJunk(mc, s1, fn, heavy, 4).0;
            Stages(mc, x64, s, fn, heavy, mc.Walk(s.file, fn, WALK_CAP), mc.Walk(s1.file, fn, WALK_CAP),
                   mc.Walk(s2.file, fn, WALK_CAP))
  {
    hide Machine.Walk, IsX86, NopJunk, Opaque, Rewritten, OnlyInside, EndApart, LinearFn, OpaqueShapes, JunkShapes,
         Disp, Reach;
    OpaqueRewrites(mc, x64, s, fn);
    BetweenIsLinear(mc, x64, s, fn);
    JunkStage(mc, x64, Opaque(mc, s, fn, false).0, fn, heavy);
  }

  /** Where the `i`-th start is after the first two passes, if the cap leaves room
      for it. */
  ghost function MidPlace(heavy: bool, w: seq<Insn>, w1: seq<Insn>, w2: seq<Insn>, i: nat): (place: Option<nat>)
    requires i <= |w|
    ensures place.Some? ==> place.value < |w2|
  {
    var k := PieceCount(w, OpaqueShapes(w), i);
    if k >= |w1| then None
    else
      var n := PieceCount(w1, JunkShapes(heavy, w1), k);
      if n < |w2| then Some(n) else None
  }

  /** The instruction is part of filled dead code. */
  ghost predicate Swallowed(heavy: bool, w: seq<Insn>, w1: seq<Insn>, i: nat)
    requires i < |w|
  {
    heavy && Filled(w1, PieceCount(w, OpaqueShapes(w), i))
  }

  lemma MidKeeps(mc: Machine, x64: bool, s: Bin, fn: u64, heavy: bool,
                 w: seq<Insn>, w1: seq<Insn>, w2: seq<Insn>, i: nat)
    requires Stages(mc, x64, s, fn, heavy, w, w1, w2) && i < |w| && MidPlace(heavy, w, w1, w2, i).Some?
    ensures w2[MidPlace(heavy, w, w1, w2, i).value].va == w[i].va
  {
    hide Stage, OpaqueShapes, JunkShapes, PieceCount, Opaque, NopJunk, LinearFn;
    var s1 := Opaque(mc, s, fn, false).0;
    StartMoves(mc, x64, s.file, s1.file, fn, w, w1, OpaqueShapes(w), i);
    StartMoves(mc, x64, s1.file, NopJunk(mc, s1, fn, heavy, 4).0.file, fn, w1, w2, JunkShapes(heavy, w1),
               PieceCount(w, OpaqueShapes(w), i));
  }

  lemma {:induction false} StageRises(mc: Machine, x64: bool, file: seq<byte>, file': seq<byte>, fn: u64,
                                      w: seq<Insn>, w': seq<Insn>, shapes: seq<Shape>, i: nat, j: nat)
    requires Stage(mc, x64, file, file', fn, w, w', shapes) && i <= j <= |w|
    ensures |shapes| == |w| && PieceCount(w, shapes, i) <= PieceCount(w, shapes, j)
    ensures i < j ==> PieceCount(w, shapes, i) < PieceCount(w, shapes, j)
    decreases j
  {
    hide Rewritten, OnlyInside, EndApart, Machine.Walk, PieceCount, Pieces;
    if i < j {
      StageRises(mc, x64, file, file', fn, w, w', shapes, i, j - 1);
      StartMoves(mc, x64, file, file', fn, w, w', shapes, j - 1);
    }
  }

  /** Places keep their order. */
  lemma MidRises(mc: Machine, x64: bool, s: Bin, fn: u64, heavy: bool,
                 w: seq<Insn>, w1: seq<Insn>, w2: seq<Insn>, i: nat, j: nat)
    requires Stages(mc, x64, s, fn, heavy, w, w1, w2) && i <= j <= |w| && MidPlace(heavy, w, w1, w2, j).Some?
    ensures var a, b := MidPlace(heavy, w, w1, w2, i), MidPlace(heavy, w, w1, w2, j);
            a.Some? && a.value <= b.value && (i < j ==> a.value < b.value)
  {
    hide Stage, OpaqueShapes, JunkShapes, PieceCount, Opaque, NopJunk, LinearFn;
    var s1 := Opaque(mc, s, fn, false).0;
    StageRises(mc, x64, s.file, s1.file, fn, w, w1, OpaqueShapes(w), i, j);
    StageRises(mc, x64, s1.file, NopJunk(mc, s1, fn, heavy, 4).0.file, fn, w1, w2, JunkShapes(heavy, w1),
               PieceCount(w, OpaqueShapes(w), i), PieceCount(w, OpaqueShapes(w), j));
  }

  lemma ReadNotForced(mc: Machine, x64: bool, s: Bin, fn: u64, w: seq<Insn>, i: nat)
    requires IsX86(mc.decode, x64) && w == mc.Walk(s.file, fn, WALK_CAP) && i < |w| && w[i].mnemonic == Rdtsc
    ensures OpaqueShapes(w)[i] == Same
  {
    hide IsX86, Machine.Walk, Machine.Laid, IsSelfTest;
    X86Means(mc.decode, x64);
    mc.WalkIsLaid(s.file, fn);
    WalkedFacts(mc, x64, s.file, fn, w, i);
    assert OpaqueShapes(w)[i] == OpaqueShape(w, i);
  }

  lemma StageMeans(mc: Machine, x64: bool, file: seq<byte>, file': seq<byte>, fn: u64,
                   w: seq<Insn>, w': seq<Insn>, shapes: seq<Shape>)
    requires Stage(mc, x64, file, file', fn, w, w', shapes)
    ensures IsX86(mc.decode, x64) && w == mc.Walk(file, fn, WALK_CAP) && w' == mc.Walk(file', fn, WALK_CAP)
    ensures |shapes| == |w|
  {
    hide IsX86, Machine.Walk, Reshaped, OnlyInside, EndApart;
  }

  lemma NotFilledIsSame(heavy: bool, w: seq<Insn>, k: nat)
    requires k < |w|
    ensures JunkShapes(heavy, w)[k] == Same <==> !(heavy && Filled(w, k))
  {
    hide Filled;
  }

  /** A read outside filled code is still there. */
  lemma ReadStays(mc: Machine, x64: bool, s: Bin, fn: u64, heavy: bool,
                  w: seq<Insn>, w1: seq<Insn>, w2: seq<Insn>, i: nat)
    requires Stages(mc, x64, s, fn, heavy, w, w1, w2) && i < |w|
    requires w[i].mnemonic == Rdtsc && !Swallowed(heavy, w, w1, i) && MidPlace(heavy, w, w1, w2, i).Some?
    ensures var n := MidPlace(heavy, w, w1, w2, i).value;
            && w2[n] == w[i]
            && (MidPlace(heavy, w, w1, w2, i + 1).Some? ==> MidPlace(heavy, w, w1, w2, i + 1).value == n + 1)
  {
    hide Stage, OpaqueShapes, JunkShapes, PieceCount, Opaque, NopJunk, LinearFn, Filled, Machine.Walk, IsX86;
    var s1 := Opaque(mc, s, fn, false).0;
    var k := PieceCount(w, OpaqueShapes(w), i);
    StageMeans(mc, x64, s.file, s1.file, fn, w, w1, OpaqueShapes(w));
    ReadNotForced(mc, x64, s, fn, w, i);
    SameMoves(mc, x64, s.file, s1.file, fn, w, w1, OpaqueShapes(w), i);
    NotFilledIsSame(heavy, w1, k);
    SameMoves(mc, x64, s1.file, NopJunk(mc, s1, fn, heavy, 4).0.file, fn, w1, w2, JunkShapes(heavy, w1), k);
  }

  /** A read that is found after the first two passes is an original one. */
  lemma ReadIsOriginal(mc: Machine, x64: bool, s: Bin, fn: u64, heavy: bool,
                       w: seq<Insn>, w1: seq<Insn>, w2: seq<Insn>, n: nat) returns (i: nat)
    requires Stages(mc, x64, s, fn, heavy, w, w1, w2) && n < |w2| && w2[n].mnemonic == Rdtsc
    ensures i < |w| && MidPlace(heavy, w, w1, w2, i) == Some(n) && w[i] == w2[n] && !Swallowed(heavy, w, w1, i)
  {
    hide Stage, OpaqueShapes, JunkShapes, PieceCount, Opaque, NopJunk, LinearFn, Filled;
    var s1 := Opaque(mc, s, fn, false).0;
    var k := ReadIsOld(mc, x64, s1.file, NopJunk(mc, s1, fn, heavy, 4).0.file, fn, w1, w2, JunkShapes(heavy, w1), n);
    i := ReadIsOld(mc, x64, s.file, s1.file, fn, w, w1, OpaqueShapes(w), k);
    NotFilledIsSame(heavy, w1, k);
  }

  // ----- all three passes

  /** Where the `i`-th start is after the whole pass, if the cap leaves room. */
  ghost function EndPlace(imports: Imports, heavy: bool, w: seq<Insn>, w1: seq<Insn>, w2: seq<Insn>,
                          i: nat): Option<nat>
    requires i <= |w|
  {
    match MidPlace(heavy, w, w1, w2, i)
    case None => None
    case Some(n) =>
      var k := PieceCount(w2, AntiShapes(imports, ALL_ANTI, w2), n);
      if k < WALK_CAP then Some(k) else None
  }

  /** A read with one prefix that is still there when the anti-debug pass comes. */
  ghost predicate HarmfulRead(heavy: bool, w: seq<Insn>, w1: seq<Insn>, i: nat)
    requires i < |w|
  {
    OnePrefixRead(ALL_ANTI, w[i]) && !Swallowed(heavy, w, w1, i)
  }

  lemma EndRises(mc: Machine, x64: bool, s: Bin, fn: u64, imports: Imports, heavy: bool,
                 w: seq<Insn>, w1: seq<Insn>, w2: seq<Insn>, i: nat, j: nat)
    requires Stages(mc, x64, s, fn, heavy, w, w1, w2) && i <= j <= |w| && EndPlace(imports, heavy, w, w1, w2, j).Some?
    ensures EndPlace(imports, heavy, w, w1, w2, i).Some?
  {
    hide Stages, MidPlace, AntiShapes, PieceCount;
    MidRises(mc, x64, s, fn, heavy, w, w1, w2, i, j);
    PieceCountRises(w2, AntiShapes(imports, ALL_ANTI, w2), MidPlace(heavy, w, w1, w2, i).value,
                    MidPlace(heavy, w, w1, w2, j).value);
  }

  /** Every start up to the first harmful read is found again, at its place. */
  lemma StartSurvives(mc: Machine, x64: bool, s: Bin, fn: u64, imports: Imports, heavy: bool,
                      w: seq<Insn>, w1: seq<Insn>, w2: seq<Insn>, i: nat)
    requires Stages(mc, x64, s, fn, heavy, w, w1, w2) && i < |w| && EndPlace(imports, heavy, w, w1, w2, i).Some?
    requires forall j | 0 <= j < i :: !HarmfulRead(heavy, w, w1, j)
    ensures var s2 := NopJunk(mc, Opaque(mc, s, fn, false).0, fn, heavy, 4).0;
            var w3 := mc.Walk(AntiDebug(mc, s2, fn, imports, ALL_ANTI, false).0.file, fn, WALK_CAP);
            var k := EndPlace(imports, heavy, w, w1, w2, i).value;
            k < |w3| && w3[k].va == w[i].va
  {
    hide Stage, MidPlace, AntiShapes, PieceCount, Opaque, NopJunk, LinearFn, Machine.Walk, AntiDebug, Swallowed, IsX86,
         JunkShapes, OpaqueShapes;
    var s1 := Opaque(mc, s, fn, false).0;
    var s2 := NopJunk(mc, s1, fn, heavy, 4).0;
    var n := MidPlace(heavy, w, w1, w2, i).value;
    StageMeans(mc, x64, s1.file, s2.file, fn, w1, w2, JunkShapes(heavy, w1));
    forall k | 0 <= k < n ensures !OnePrefixRead(ALL_ANTI, w2[k]) {
      if OnePrefixRead(ALL_ANTI, w2[k]) {
        var j := ReadIsOriginal(mc, x64, s, fn, heavy, w, w1, w2, k);
        assert j < i ==> !HarmfulRead(heavy, w, w1, j);
        if i <= j { MidRises(mc, x64, s, fn, heavy, w, w1, w2, i, j); }
      }
    }
    MidKeeps(mc, x64, s, fn, heavy, w, w1, w2, i);
    AntiKeepsStart(mc, x64, s2, fn, imports, ALL_ANTI, n);
  }

  /** The start behind some harmful read at or before `j` is lost. */
  lemma StartLost(mc: Machine, x64: bool, s: Bin, fn: u64, imports: Imports, heavy: bool,
                  w: seq<Insn>, w1: seq<Insn>, w2: seq<Insn>, j: nat) returns (i: nat)
    requires Stages(mc, x64, s, fn, heavy, w, w1, w2) && j + 1 < |w|
    requires HarmfulRead(heavy, w, w1, j) && MidPlace(heavy, w, w1, w2, j + 1).Some?
    ensures i <= j
    ensures var s2 := NopJunk(mc, Opaque(mc, s, fn, false).0, fn, heavy, 4).0;
            var w3 := mc.Walk(AntiDebug(mc, s2, fn, imports, ALL_ANTI, false).0.file, fn, WALK_CAP);
            !Found(w3, w[i + 1].va)
  {
    hide Stage, MidPlace, AntiShapes, PieceCount, Opaque, NopJunk, LinearFn, Machine.Walk, AntiDebug, Swallowed, IsX86,
         JunkShapes, OpaqueShapes, Found;
    var s1 := Opaque(mc, s, fn, false).0;
    var s2 := NopJunk(mc, s1, fn, heavy, 4).0;
    StageMeans(mc, x64, s1.file, s2.file, fn, w1, w2, JunkShapes(heavy, w1));
    MidRises(mc, x64, s, fn, heavy, w, w1, w2, j, j + 1);
    ReadStays(mc, x64, s, fn, heavy, w, w1, w2, j);
    var f := FirstOnePrefix(ALL_ANTI, w2, MidPlace(heavy, w, w1, w2, j).value);
    i := ReadIsOriginal(mc, x64, s, fn, heavy, w, w1, w2, f);
    if j < i { MidRises(mc, x64, s, fn, heavy, w, w1, w2, j, i); }
    MidRises(mc, x64, s, fn, heavy, w, w1, w2, i + 1, j + 1);
    ReadStays(mc, x64, s, fn, heavy, w, w1, w2, i);
    MidKeeps(mc, x64, s, fn, heavy, w, w1, w2, i + 1);
    AntiLosesStart(mc, x64, s2, fn, imports, ALL_ANTI, f);
  }

  /** Main result: a real full pass keeps every instruction start that the cap
      leaves room for exactly when no time-stamp read with one prefix stands before
      one of them, unless the dead-code fill has swallowed the read. */
  lemma FullPassKeepsStartsIff(mc: Machine, x64: bool, s: Bin, fn: u64, imports: Imports)
    requires IsX86(mc.decode, x64) && LinearFn(mc, s, fn) && EndApart(mc, fn, mc.Walk(s.file, fn, WALK_CAP))
    ensures var w, heavy := mc.Walk(s.file, fn, WALK_CAP), Score(mc.Walk(s.file, fn, WALK_CAP)) >= 50;
            var s1 := Opaque(mc, s, fn, false).0;
            var w1 := mc.Walk(s1.file, fn, WALK_CAP);
            var w2 := mc.Walk(NopJunk(mc, s1, fn, heavy, 4).0.file, fn, WALK_CAP);
            var w3 := mc.Walk(FullPass(mc, s, fn, imports, false).0.file, fn, WALK_CAP);
            (forall i | 0 <= i < |w| && EndPlace(imports, heavy, w, w1, w2, i).Some? :: Found(w3, w[i].va))
            <==> (forall j | 0 <= j < |w| - 1 && EndPlace(imports, heavy, w, w1, w2, j + 1).Some? ::
                    !HarmfulRead(heavy, w, w1, j))
  {
    hide Machine.Walk, IsX86, LinearFn, EndApart, Score, Opaque, NopJunk, AntiDebug, EndPlace, HarmfulRead, Found,
         Stages;
    var w := mc.Walk(s.file, fn, WALK_CAP);
    if w != [] {
      var heavy := Score(w) >= 50;
      var s1 := Opaque(mc, s, fn, false).0;
      var w1, w2 := mc.Walk(s1.file, fn, WALK_CAP), mc.Walk(NopJunk(mc, s1, fn, heavy, 4).0.file, fn, WALK_CAP);
      BothStages(mc, x64, s, fn, heavy);
      if j :| 0 <= j < |w| - 1 && EndPlace(imports, heavy, w, w1, w2, j + 1).Some? && HarmfulRead(heavy, w, w1, j) {
        PlacedBefore(imports, heavy, w, w1, w2, j + 1);
        var i := StartLost(mc, x64, s, fn, imports, heavy, w, w1, w2, j);
        EndRises(mc, x64, s, fn, imports, heavy, w, w1, w2, i + 1, j + 1);
      } else {
        forall i | 0 <= i < |w| && EndPlace(imports, heavy, w, w1, w2, i).Some?
          ensures Found(mc.Walk(FullPass(mc, s, fn, imports, false).0.file, fn, WALK_CAP), w[i].va)
        {
          forall j | 0 <= j < i ensures !HarmfulRead(heavy, w, w1, j) {
            EndRises(mc, x64, s, fn, imports, heavy, w, w1, w2, j + 1, i);
          }
          StartSurvives(mc, x64, s, fn, imports, heavy, w, w1, w2, i);
          IsFound(mc.Walk(FullPass(mc, s, fn, imports, false).0.file, fn, WALK_CAP), w[i].va,
                  EndPlace(imports, heavy, w, w1, w2, i).value);
        }
      }
    }
  }

  lemma PlacedBefore(imports: Imports, heavy: bool, w: seq<Insn>, w1: seq<Insn>, w2: seq<Insn>, i: nat)
    requires i <= |w| && EndPlace(imports, heavy, w, w1, w2, i).Some?
    ensures MidPlace(heavy, w, w1, w2, i).Some?
  {
    hide MidPlace;
  }

  lemma IsFound(w: seq<Insn>, va: u64, k: nat)
    requires k < |w| && w[k].va == va
    ensures Found(w, va)
  {
  }

  // ----- runs

  /** Where an instruction found after the opaque-predicate pass branches to, an
      instruction before it did. */
  lemma OldTarget(mc: Machine, x64: bool, s: Bin, fn: u64, w: seq<Insn>, w1: seq<Insn>, n: nat) returns (i: nat)
    requires Stage(mc, x64, s.file, Opaque(mc, s, fn, false).0.file, fn, w, w1, OpaqueShapes(w))
    requires n < |w1| && w1[n].relTarget.Some?
    ensures i < |w| && w[i].relTarget == w1[n].relTarget
  {
    hide OnlyInside, EndApart, Machine.Walk, Machine.DecodeAt, Machine.Fetch, PieceCount, Add64, Quiet, OpaqueShapes,
         Opaque, Reshaped, IsX86, ReadsPrefix, WritesDecode, DropsPrefix, Linear, NoneLost, Machine.Laid;
    var file' := Opaque(mc, s, fn, false).0.file;
    var b: nat;
    i, b := PieceOf(mc, x64, s.file, file', fn, w, w1, OpaqueShapes(w), n);
    PieceAt(mc, x64, s.file, file', fn, w, OpaqueShapes(w), Imports(0, map[]), ALL_ANTI, i, b);
    assert Forced(mc, x64, s.file, file', fn, w);
    ShapeOf(mc, x64, s.file, file', fn, w, i);
    RewrittenMeans(mc, x64, s.file, file', fn, w, OpaqueShapes(w));
    if OpaqueShapes(w)[i] != Same {
      ForcedJumpKeepsTarget(mc, x64, s.file, file', fn, w, OpaqueShapes(w), i);
      Add64Small(w[i].va, 0);
      SameSize(mc, s.file, file', Add64(w[i].va, b));
    }
  }

  lemma SameSize(mc: Machine, file: seq<byte>, file': seq<byte>, va: u64)
    ensures |file| == |file'| && mc.DecodeAt(file', va).Some? ==> mc.Fetch(file, va).Some?
  {
  }

  lemma PlacesOf(mc: Machine, file: seq<byte>, fn: u64, w: seq<Insn>, j: nat)
    requires mc.Laid(file, fn, w) && j < |w|
    ensures w[j].va == Add64(fn, Disp(w, j)) && Disp(w, j) < Disp(w, |w|) < TWO64
  {
    hide Add64, Disp, Machine.DecodeAt;
    forall k | 0 <= k < |w| ensures w[k].length <= 15 { assert mc.InsnAt(file, fn, w, k); }
    assert mc.InsnAt(file, fn, w, j);
    DispBound(w, |w|);
    DispMonotone(w, j, |w|);
  }

  /** An original start within the bytes of the new walk is one of its starts. */
  lemma StartInside(mc: Machine, x64: bool, file: seq<byte>, file': seq<byte>, fn: u64,
                    w: seq<Insn>, w': seq<Insn>, shapes: seq<Shape>, va: u64)
    requires Stage(mc, x64, file, file', fn, w, w', shapes) && IsStart(w, va) && InSpan(fn, w', va)
    ensures IsStart(w', va)
  {
    hide Rewritten, OnlyInside, EndApart, Machine.Walk, PieceCount, Add64, Disp, Reach, Machine.Laid, Reshaped,
         Linear, ReadsPrefix, WritesDecode, DropsPrefix, NoneLost;
    var j :| 0 <= j < |w| && w[j].va == va;
    var m := Reach(w, shapes, |w|);
    RewrittenMeans(mc, x64, file, file', fn, w, shapes);
    PlacesOf(mc, file, fn, w, j);
    NewSpan(mc, x64, file, file', fn, w, shapes);
    var b :| 0 <= b < Disp(w', |w'|) && va == Add64(fn, b);
    SamePlace(fn, b, Disp(w, j));
    if m <= j { LengthsAscend(mc, x64, file, file', fn, w, shapes, m, j); }
    ReachMeans(w, shapes, |w|);
    StageRises(mc, x64, file, file', fn, w, w', shapes, j, m - 1);
    StartMoves(mc, x64, file, file', fn, w, w', shapes, j);
  }

  lemma LengthsAscend(mc: Machine, x64: bool, file: seq<byte>, file': seq<byte>, fn: u64,
                      w: seq<Insn>, shapes: seq<Shape>, i: nat, j: nat)
    requires Rewritten(mc, x64, file, file', fn, w, shapes) && i <= j <= |w|
    ensures Disp(w, i) <= Disp(w, j)
  {
    DispMonotone(w, i, j);
  }

  lemma WiderSpan(fn: u64, w: seq<Insn>, w': seq<Insn>, va: u64)
    requires InSpan(fn, w', va) && Disp(w', |w'|) <= Disp(w, |w|)
    ensures InSpan(fn, w, va)
  {
    hide Add64, Disp;
  }

  /** The direct targets are on starts still. */
  lemma TargetsStayOnStarts(mc: Machine, x64: bool, s: Bin, fn: u64, w: seq<Insn>, w1: seq<Insn>)
    requires Stage(mc, x64, s.file, Opaque(mc, s, fn, false).0.file, fn, w, w1, OpaqueShapes(w))
    requires TargetsOnStarts(fn, w) && Disp(w1, |w1|) <= Disp(w, |w|)
    ensures TargetsOnStarts(fn, w1)
  {
    hide Stage, Disp, InSpan, IsStart, Opaque, OpaqueShapes;
    forall n | 0 <= n < |w1| && w1[n].relTarget.Some? && InSpan(fn, w1, w1[n].relTarget.value)
      ensures IsStart(w1, w1[n].relTarget.value)
    {
      var to := w1[n].relTarget.value;
      var i := OldTarget(mc, x64, s, fn, w, w1, n);
      WiderSpan(fn, w, w1, to);
      assert IsStart(w, w[i].relTarget.value);
      StartInside(mc, x64, s.file, Opaque(mc, s, fn, false).0.file, fn, w, w1, OpaqueShapes(w), to);
    }
  }

  lemma WiderRun(mc: Machine, file: seq<byte>, fn: u64, w: seq<Insn>, w': seq<Insn>, p: seq<u64>)
    requires IsRun(mc, file, fn, w', p) && Disp(w', |w'|) <= Disp(w, |w|)
    ensures IsRun(mc, file, fn, w, p)
  {
    hide Disp, Machine.DecodeAt, InSpan, Leads;
    forall k | 0 <= k < |p| - 1 ensures StepsTo(mc, file, fn, w, p[k], p[k + 1]) {
      assert StepsTo(mc, file, fn, w', p[k], p[k + 1]);
      WiderSpan(fn, w, w', p[k]);
    }
  }

  lemma NothingDecoded(mc: Machine, s: Bin, fn: u64, heavy: bool)
    requires mc.Walk(s.file, fn, WALK_CAP) == []
    ensures Opaque(mc, s, fn, false).0 == s && NopJunk(mc, s, fn, heavy, 4).0 == s
  {
    hide Machine.Walk;
  }

  /** Main result: the first two passes of a real full pass add no behaviour. Every
      run of the image they leave, without the addresses of moved jumps, is a run
      of the original that takes each forced branch. */
  lemma FirstPassesOnlyRemoveRuns(mc: Machine, x64: bool, s: Bin, fn: u64, heavy: bool, p: seq<u64>)
    requires IsX86(mc.decode, x64) && LinearFn(mc, s, fn)
    requires var w := mc.Walk(s.file, fn, WALK_CAP); EndApart(mc, fn, w) && TargetsOnStarts(fn, w)
    requires var s1 := Opaque(mc, s, fn, false).0;
             IsRun(mc, NopJunk(mc, s1, fn, heavy, 4).0.file, fn, mc.Walk(s1.file, fn, WALK_CAP), p)
    ensures var w := mc.Walk(s.file, fn, WALK_CAP);
            IsRun(mc, s.file, fn, w, Collapse(w, p)) && TakesForced(w, Collapse(w, p))
  {
    hide Machine.Walk, IsX86, NopJunk, Opaque, Stage, EndApart, TargetsOnStarts, IsRun, Disp, Collapse, TakesForced,
         OpaqueShapes, JunkShapes, Reach, ReadsPrefix, WritesDecode, FindsDecode, DropsPrefix;
    var w := mc.Walk(s.file, fn, WALK_CAP);
    var s1 := Opaque(mc, s, fn, false).0;
    var w1 := mc.Walk(s1.file, fn, WALK_CAP);
    X86Means(mc.decode, x64);
    if w == [] {
      NothingDecoded(mc, s, fn, heavy);
    } else {
      BothStages(mc, x64, s, fn, heavy);
      BetweenIsLinear(mc, x64, s, fn);
      TargetsStayOnStarts(mc, x64, s, fn, w, w1);
      NopJunkPreservesRuns(mc, s1, fn, heavy, 4, p);
      WiderRun(mc, s1.file, fn, w, w1, p);
    }
    ForcingOnlyRemovesRuns(mc, x64, s, fn, p);
  }
}
