/** Previews: what a dry run reports against what the real run then does. */
module Preview {
  import opened Words
  import opened Image
  import opened Decoder
  import opened Journal
  import opened Passes
  import opened DeadCode
  import opened Redecode
  import opened Regions
  import opened Effects
  import opened Sites

  /** On the same image the two rewriting passes report the same sites whether
      they write or not. */
  lemma SameReport(mc: Machine, s: Bin, fn: u64, imports: Imports, opts: AntiOpts)
    ensures Opaque(mc, s, fn, true).1 == Opaque(mc, s, fn, false).1
    ensures AntiDebug(mc, s, fn, imports, opts, true).1 == AntiDebug(mc, s, fn, imports, opts, false).1
  {
  }

  /** A dry full pass leaves bytes, journal and background analysis alone, and
      its post score is what scoring the image afresh gives. It does mark the
      indexes stale as soon as it has found a site. */
  lemma DryFullPass(mc: Machine, s: Bin, fn: u64, imports: Imports)
    ensures var (s', r) := FullPass(mc, s, fn, imports, true);
            && s'.file == s.file && s'.patches == s.patches && s'.analysing == s.analysing
            && r.post == r.pre == Score(mc.Walk(s'.file, fn, WALK_CAP))
            && r.bytesChanged == 0 && r.junk == None
            && s'.dirty == (s.dirty || Changed(r.opq) > 0 || Changed(r.anti) > 0)
  {
  }

  lemma ScoreBound(w: seq<Insn>)
    ensures Score(w) <= 85
  {
  }

  // ----- the anti-debug sites after the passes before it

  lemma {:induction false} OpaqueKeepsSites(mc: Machine, x64: bool, file: seq<byte>, fn: u64, w: seq<Insn>,
                                            imports: Imports, opts: AntiOpts, n: nat)
    requires IsX86(mc.decode, x64) && mc.Laid(file, fn, w) && n <= |w|
    ensures Kept(imports, opts, w, OpaqueShapes(w), n) == AntiEdits(imports, opts, w, n)
  {
    hide IsX86, Machine.Laid, AntiEditsAt, IsSelfTest;
    if n > 0 {
      OpaqueKeepsSites(mc, x64, file, fn, w, imports, opts, n - 1);
      assert OpaqueShapes(w)[n - 1] == OpaqueShape(w, n - 1);
      if OpaqueShape(w, n - 1) != Same {
        WalkedFacts(mc, x64, file, fn, w, n - 1);
        JccIsQuiet(imports, opts, w[n - 1]);
      }
    }
  }

  lemma OpaqueRewrites(mc: Machine, x64: bool, s: Bin, fn: u64)
    requires IsX86(mc.decode, x64) && LinearFn(mc, s, fn)
    ensures var w := mc.Walk(s.file, fn, WALK_CAP);
            var file' := Opaque(mc, s, fn, false).0.file;
            Rewritten(mc, x64, s.file, file', fn, w, OpaqueShapes(w)) && OnlyInside(mc, s.file, file', fn, w)
  {
    hide Machine.Walk, Machine.DecodeAt, IsX86, Reshaped, Opaque, InRegion, Disp, IsSelfTest;
    var w, file' := mc.Walk(s.file, fn, WALK_CAP), Opaque(mc, s, fn, false).0.file;
    OpaqueReshapes(mc, x64, s, fn);
    forall k | 0 <= k < |w| ensures Harmless(w[k], OpaqueShapes(w)[k]) {
      assert OpaqueShapes(w)[k] == OpaqueShape(w, k);
    }
    OpaqueSize(mc, s, fn);
    forall o | 0 <= o < |s.file| && file'[o] != s.file[o] ensures InSome(mc, fn, w, o) {
      OpaqueChangesReported(mc, x64, s, fn, o);
    }
  }

  lemma OpaqueSize(mc: Machine, s: Bin, fn: u64)
    ensures |Opaque(mc, s, fn, false).0.file| == |s.file|
    ensures !Opaque(mc, s, fn, false).1.Done? ==> Opaque(mc, s, fn, false).0 == s
  {
    hide PokeAll, Machine.Walk, OpaqueEdits;
  }

  lemma FillRewrites(mc: Machine, x64: bool, s: Bin, fn: u64, threshold: nat)
    requires IsX86(mc.decode, x64) && LinearFn(mc, s, fn)
    ensures var w := mc.Walk(s.file, fn, WALK_CAP);
            var file' := NopJunk(mc, s, fn, true, threshold).0.file;
            Rewritten(mc, x64, s.file, file', fn, w, FillShapes(w)) && OnlyInside(mc, s.file, file', fn, w)
  {
    X86Means(mc.decode, x64);
    hide Machine.Walk, Machine.DecodeAt, IsX86, Reshaped, NopJunk, InRegion, Disp, ReadsPrefix, WritesDecode,
         FindsDecode, DropsPrefix, Filled;
    var w, file' := mc.Walk(s.file, fn, WALK_CAP), NopJunk(mc, s, fn, true, threshold).0.file;
    FillReshapes(mc, s, fn, threshold);
    FillSize(mc, s, fn, threshold);
    forall o | 0 <= o < |s.file| && file'[o] != s.file[o] ensures InSome(mc, fn, w, o) {
      JunkChangesFilled(mc, s, fn, true, threshold, o);
    }
  }

  lemma FillSize(mc: Machine, s: Bin, fn: u64, threshold: nat)
    ensures |NopJunk(mc, s, fn, true, threshold).0.file| == |s.file|
  {
    hide PokeAll, Machine.Walk, JunkEdits, Writes, Hits;
  }

  /** After the opaque-predicate pass the anti-debug sites are those of the image
      before it, as far as the cap lets the new walk get. */
  lemma AntiSitesSurvive(mc: Machine, x64: bool, s: Bin, fn: u64, imports: Imports, opts: AntiOpts)
    requires IsX86(mc.decode, x64) && LinearFn(mc, s, fn) && EndApart(mc, fn, mc.Walk(s.file, fn, WALK_CAP))
    ensures var w := mc.Walk(s.file, fn, WALK_CAP);
            var w' := mc.Walk(Opaque(mc, s, fn, false).0.file, fn, WALK_CAP);
            AntiEdits(imports, opts, w', |w'|) == AntiEdits(imports, opts, w, Reach(w, OpaqueShapes(w), |w|))
  {
    var w := mc.Walk(s.file, fn, WALK_CAP);
    if w != [] {
      hide Machine.Walk, IsX86, Opaque, Rewritten, OnlyInside, EndApart, PieceCount, OpaqueShapes, AntiEdits, Kept,
           LinearFn, ReadsPrefix, WritesDecode, FindsDecode, DropsPrefix, Reach;
      X86Means(mc.decode, x64);
      OpaqueRewrites(mc, x64, s, fn);
      SitesSurvive(mc, x64, s.file, Opaque(mc, s, fn, false).0.file, fn, w, OpaqueShapes(w), imports, opts);
      mc.WalkIsLaid(s.file, fn);
      OpaqueKeepsSites(mc, x64, s.file, fn, w, imports, opts, Reach(w, OpaqueShapes(w), |w|));
    }
  }

  /** The sites of the first `m` instructions are the front of those of the first
      `n`, and all of them exactly when the rest has none. */
  lemma {:induction false} SitesOfMore(imports: Imports, opts: AntiOpts, w: seq<Insn>, m: nat, n: nat)
    requires m <= n <= |w|
    ensures AntiEdits(imports, opts, w, m) <= AntiEdits(imports, opts, w, n)
    ensures |AntiEdits(imports, opts, w, m)| == |AntiEdits(imports, opts, w, n)|
            <==> forall k | m <= k < n :: AntiEditsAt(imports, opts, w[k]) == []
    decreases n
  {
    hide AntiEditsAt;
    if m < n { SitesOfMore(imports, opts, w, m, n - 1); }
  }

  /** Main result: below the score that turns on aggressive filling, what a dry
      full pass reports is what the real one does, except for anti-debug sites so
      far on that the extra instructions of near jumps push them behind the
      walk's cap. */
  lemma PreviewPredictsRealPass(mc: Machine, x64: bool, s: Bin, fn: u64, imports: Imports)
    requires IsX86(mc.decode, x64) && LinearFn(mc, s, fn) && EndApart(mc, fn, mc.Walk(s.file, fn, WALK_CAP))
    requires Score(mc.Walk(s.file, fn, WALK_CAP)) < 50
    ensures var dry, wet := FullPass(mc, s, fn, imports, true).1, FullPass(mc, s, fn, imports, false).1;
            var w := mc.Walk(s.file, fn, WALK_CAP);
            var m := Reach(w, OpaqueShapes(w), |w|);
            && wet.opq == dry.opq && wet.pre == dry.pre
            && dry.anti.hits == Hits(AntiEdits(imports, ALL_ANTI, w, |w|))
            && wet.anti.hits == Hits(AntiEdits(imports, ALL_ANTI, w, m))
            && (wet.anti == dry.anti <==> forall k | m <= k < |w| :: AntiEditsAt(imports, ALL_ANTI, w[k]) == [])
            && (PieceCount(w, OpaqueShapes(w), |w|) <= WALK_CAP ==> m == |w|)
  {
    hide Machine.Walk, Machine.DecodeAt, Disp, IsX86, OpaqueEdits, PieceCount, OpaqueShapes, AntiEdits, Score,
         Sleds, EndApart, LinearFn, Reach, AntiEditsAt, Rewritten, OnlyInside;
    var w := mc.Walk(s.file, fn, WALK_CAP);
    var shapes := OpaqueShapes(w);
    AntiSitesSurvive(mc, x64, s, fn, imports, ALL_ANTI);
    SitesOfMore(imports, ALL_ANTI, w, Reach(w, shapes, |w|), |w|);
    OpaqueRewrites(mc, x64, s, fn);
    if PieceCount(w, shapes, |w|) <= WALK_CAP {
      ReachesAll(mc, x64, s.file, Opaque(mc, s, fn, false).0.file, fn, w, shapes);
    }
    var s1 := Opaque(mc, s, fn, false).0;
    LightJunk(mc, s1, fn);
    HitsLength(AntiEdits(imports, ALL_ANTI, w, |w|));
    HitsLength(AntiEdits(imports, ALL_ANTI, w, Reach(w, shapes, |w|)));
  }

  lemma HitsLength(edits: seq<Edit>)
    ensures |Hits(edits)| == |edits|
  {
  }

  /** Without aggressive filling the junk pass writes nothing. */
  lemma LightJunk(mc: Machine, s: Bin, fn: u64)
    ensures NopJunk(mc, s, fn, false, 4).0.file == s.file
  {
    hide Machine.Walk, Sleds;
    var w := mc.Walk(s.file, fn, WALK_CAP);
    SledsWriteNothing(w, ClampThreshold(4), |w|);
    assert JunkEdits(w, false, 4) == Sleds(w, ClampThreshold(4), |w|);
  }

  /** The function as the opaque-predicate pass of a real run leaves it. */
  function Between(mc: Machine, s: Bin, fn: u64): seq<Insn> {
    mc.Walk(Opaque(mc, s, fn, false).0.file, fn, WALK_CAP)
  }

  lemma BetweenIsLinear(mc: Machine, x64: bool, s: Bin, fn: u64)
    requires IsX86(mc.decode, x64) && LinearFn(mc, s, fn)
    requires var w := mc.Walk(s.file, fn, WALK_CAP); w != [] && EndApart(mc, fn, w)
    ensures LinearFn(mc, Opaque(mc, s, fn, false).0, fn)
    ensures var w, w1 := mc.Walk(s.file, fn, WALK_CAP), Between(mc, s, fn);
            && w1 != [] && EndApart(mc, fn, w1)
            && Disp(w1, |w1|) <= Disp(w, Reach(w, OpaqueShapes(w), |w|)) <= Disp(w, |w|)
  {
    hide Machine.Walk, IsX86, Opaque, Rewritten, OnlyInside, EndApart, PieceCount, OpaqueShapes, Disp, Add64, Reach;
    var w := mc.Walk(s.file, fn, WALK_CAP);
    OpaqueRewrites(mc, x64, s, fn);
    NewSpan(mc, x64, s.file, Opaque(mc, s, fn, false).0.file, fn, w, OpaqueShapes(w));
  }

  /** Main result: from that score on the opaque-predicate report is still
      predicted, and the anti-debug sites of the real pass are those of the
      function between its first two passes that lie outside filled instructions;
      both as far as the cap lets the walks get. */
  lemma PreviewOfHeavyPass(mc: Machine, x64: bool, s: Bin, fn: u64, imports: Imports)
    requires IsX86(mc.decode, x64) && LinearFn(mc, s, fn) && EndApart(mc, fn, mc.Walk(s.file, fn, WALK_CAP))
    requires Score(mc.Walk(s.file, fn, WALK_CAP)) >= 50
    ensures var dry, wet := FullPass(mc, s, fn, imports, true).1, FullPass(mc, s, fn, imports, false).1;
            var w, w1 := mc.Walk(s.file, fn, WALK_CAP), Between(mc, s, fn);
            var m, m1 := Reach(w, OpaqueShapes(w), |w|), Reach(w1, FillShapes(w1), |w1|);
            && wet.opq == dry.opq && wet.pre == dry.pre
            && dry.anti.hits == Hits(AntiEdits(imports, ALL_ANTI, w, |w|))
            && AntiEdits(imports, ALL_ANTI, w1, |w1|) == AntiEdits(imports, ALL_ANTI, w, m)
            && wet.anti.hits == Hits(Kept(imports, ALL_ANTI, w1, FillShapes(w1), m1))
  {
    hide Machine.Walk, Machine.DecodeAt, Disp, IsX86, OpaqueEdits, PieceCount, OpaqueShapes, AntiEdits, Kept,
         Sleds, EndApart, LinearFn, FillShapes, Rewritten, OnlyInside, JunkEdits, PokeAll, Writes, Hits, Reach;
    var w := mc.Walk(s.file, fn, WALK_CAP);
    assert w != [] by { ScoredWalk(w); }
    AntiSitesSurvive(mc, x64, s, fn, imports, ALL_ANTI);
    BetweenIsLinear(mc, x64, s, fn);
    var s1 := Opaque(mc, s, fn, false).0;
    var w1 := Between(mc, s, fn);
    FillRewrites(mc, x64, s1, fn, 4);
    var s2 := NopJunk(mc, s1, fn, true, 4).0;
    SitesSurvive(mc, x64, s1.file, s2.file, fn, w1, FillShapes(w1), imports, ALL_ANTI);
  }

  lemma ScoredWalk(w: seq<Insn>)
    ensures w == [] ==> Score(w) == 0
  {
  }

  // ----- the assumptions can be met together

  /** xor eax, eax; a short branch on zero over a return; the return; a
      no-operation. */
  const PLAIN: seq<byte> := [
    0x31, 0xC0, 0x74, 0x01, 0xC3, 0x90, 0x90, 0x90, 0x90, 0x90, 0x90,
    0x90, 0x90, 0x90, 0x90, 0x90, 0x90, 0x90, 0x90, 0x90, 0x90]
  const CLEAR := Insn(0, 2, [0x31, 0xC0], NoFlow, Xor, [Reg(1), Reg(1)], None, None)
  const BRANCH := Insn(2, 2, [0x74, 0x01], Jcc, Other, [Imm(0)], Some(5), None)
  const BACK := Insn(4, 1, [0xC3], Flow.Ret, Return, [], None, None)
  const PAD := Insn(5, 1, [0x90], NoFlow, Nop, [], None, None)
  const PLAIN_WALK: seq<Insn> := [CLEAR, BRANCH, BACK, PAD]

  lemma BranchTarget()
    ensures RelTarget(true, 2, 2, Sext8(0x01)) == 5
  {
    assert Sext8(0x01) == 1;
  }

  lemma PlainDecodes(file: seq<byte>)
    requires |file| == 21 && file[0] == 0x31 && file[1] == 0xC0 && file[2] == 0x74 && file[3] == 0x01
    requires file[4] == 0xC3 && file[5] == 0x90
    ensures SMALL.DecodeAt(file, 0) == Some(CLEAR)
    ensures SMALL.DecodeAt(file, 2) == Some(BRANCH)
    ensures SMALL.DecodeAt(file, 4) == Some(BACK)
    ensures SMALL.DecodeAt(file, 5) == Some(PAD)
  {
    hide RelTarget, Sext8, Machine.DecodeAt;
    BranchTarget();
    SmallTwo(file, 0);
    SmallTwo(file, 2);
    SmallOne(file, 4);
    SmallOne(file, 5);
  }

  lemma FourWalk(file: seq<byte>, a: Insn, b: Insn, c: Insn, d: Insn)
    requires |file| == 21 && a.length == 2 && b.length == 2 && c.length == 1 && d.length == 1
    requires SMALL.DecodeAt(file, 0) == Some(a) && SMALL.DecodeAt(file, 2) == Some(b)
    requires SMALL.DecodeAt(file, 4) == Some(c) && SMALL.DecodeAt(file, 5) == Some(d)
    ensures SMALL.Walk(file, 0, WALK_CAP) == [a, b, c, d]
  {
    hide Machine.DecodeAt, Machine.Walk, Add64;
    Add64Small(0, 2);
    Add64Small(2, 2);
    Add64Small(4, 1);
    Add64Small(5, 1);
    WalkStops(file, 6, WALK_CAP - 4);
    WalkNext(file, 5, WALK_CAP - 3, d, []);
    WalkNext(file, 4, WALK_CAP - 2, c, [d]);
    WalkNext(file, 2, WALK_CAP - 1, b, [c, d]);
    WalkNext(file, 0, WALK_CAP, a, [b, c, d]);
  }

  lemma PlainWalk()
    ensures SMALL.Walk(PLAIN, 0, WALK_CAP) == PLAIN_WALK
  {
    hide Machine.Walk, Machine.DecodeAt;
    PlainDecodes(PLAIN);
    FourWalk(PLAIN, CLEAR, BRANCH, BACK, PAD);
  }

  lemma PlainPlaces()
    ensures Disp(PLAIN_WALK, 0) == 0 && Disp(PLAIN_WALK, 1) == 2 && Disp(PLAIN_WALK, 2) == 4
    ensures Disp(PLAIN_WALK, 3) == 5 && Disp(PLAIN_WALK, 4) == 6
    ensures PieceCount(PLAIN_WALK, OpaqueShapes(PLAIN_WALK), 4) == 4
  {
    var w := PLAIN_WALK;
    assert Disp(w, 1) == 2;
    assert Disp(w, 2) == 4;
    assert Disp(w, 3) == 5;
    var shapes := OpaqueShapes(w);
    assert forall k | 0 <= k < 4 :: Pieces(shapes[k], w[k].length) == 1;
    assert PieceCount(w, shapes, 1) == 1;
    assert PieceCount(w, shapes, 2) == 2;
    assert PieceCount(w, shapes, 3) == 3;
  }

  lemma PlainRuns()
    ensures var w := PLAIN_WALK;
            NopRun(w, 0) == 0 && NopRun(w, 1) == 0 && NopRun(w, 2) == 0 && NopRun(w, 3) == 0 && NopRun(w, 4) == 1
  {
    assert NopRun(PLAIN_WALK, 3) == 0;
  }

  lemma PlainScore()
    ensures Score(PLAIN_WALK) == 10
  {
    hide NopRun;
    var w := PLAIN_WALK;
    PlainRuns();
    assert TallyAt(w, 0) == TallyAt(w, 2) == TallyAt(w, 3) == Tally(0, 0, 0, 0) && TallyAt(w, 1) == Tally(1, 0, 0, 0);
    hide TallyAt;
    assert TallyUpTo(w, 1) == Tally(0, 0, 0, 0);
    assert TallyUpTo(w, 2) == Tally(1, 0, 0, 0);
    assert TallyUpTo(w, 3) == Tally(1, 0, 0, 0);
    assert TallyUpTo(w, 4) == Tally(1, 0, 0, 0);
  }

  /** A function with an opaque predicate that meets the assumptions of every
      theorem about the passes at once. */
  lemma AssumptionsMet()
    ensures var s := Bin(PLAIN, [], false, false);
            var w := SMALL.Walk(PLAIN, 0, WALK_CAP);
            && IsX86(SMALL.decode, true) && LinearFn(SMALL, s, 0)
            && TargetsOnStarts(0, w) && OpaqueAt(w, 1)
            && EndApart(SMALL, 0, w) && PieceCount(w, OpaqueShapes(w), |w|) <= WALK_CAP && Score(w) < 50
  {
    hide Machine.Walk, Machine.DecodeAt, IsX86, Disp, Score, PieceCount, Add64, ToyDecode;
    var w := PLAIN_WALK;
    PlainWalk();
    PlainPlaces();
    PlainScore();
    ToyIsX86(true);
    assert w[3].va == 5;
    forall k | 0 <= k <= 6 ensures FLAT(Add64(0, k)) == Some(k) { Add64Small(0, k); }
  }
}
