/** The rewriting passes, one by one: what they turn the function into, that
    decoding it again finds every instruction, and that no other byte changes. */
module Effects {
  import opened Words
  import opened Image
  import opened Decoder
  import opened Journal
  import opened Passes
  import opened DeadCode
  import opened Redecode
  import opened Regions

  ghost predicate LinearFn(mc: Machine, s: Bin, fn: u64) {
    var w := mc.Walk(s.file, fn, WALK_CAP);
    Linear(mc.layout, fn, Disp(w, |w|))
  }

  /** What the decoder is known to say about a walked instruction. */
  lemma WalkedFacts(mc: Machine, x64: bool, file: seq<byte>, fn: u64, w: seq<Insn>, k: nat)
    requires IsX86(mc.decode, x64) && mc.Laid(file, fn, w) && k < |w|
    ensures |w[k].bytes| == w[k].length && 1 <= w[k].length <= 15
    ensures w[k].flow == Jcc ==> w[k].length >= 2
    ensures w[k].flow == Jcc && w[k].length >= 5 && w[k].bytes[0] == 0x0F ==> w[k].length == 6
    ensures w[k].mnemonic in {Int3, Int, Rdtsc} ==> w[k].flow == NoFlow
    ensures w[k].mnemonic == Rdtsc ==> w[k].length >= 2 && IsRead(mc.decode, w[k].va, w[k].bytes)
    ensures w[k].flow in {Call, Jmp} && (w[k].ripRelTarget.Some? || (w[k].ops != [] && w[k].ops[0].Mem?)) ==>
              w[k].length >= 2
  {
    hide Add64, Disp, Machine.DecodeAt, RelTarget, Sext8, Sext32;
    assert mc.InsnAt(file, fn, w, k);
    mc.DecodedInsn(file, w[k].va);
    assert w[k].bytes[..w[k].length] == w[k].bytes;
  }

  // ----- opaque predicates

  function OpaqueWritesAt(w: seq<Insn>, k: nat): seq<Write>
    requires k < |w|
  {
    if OpaqueAt(w, k) then ForceWrites(w[k]) else []
  }

  function OpaquePer(w: seq<Insn>): seq<seq<Write>> {
    seq(|w|, k requires 0 <= k < |w| => OpaqueWritesAt(w, k))
  }

  lemma {:induction false} OpaqueFlat(w: seq<Insn>, n: nat)
    requires n <= |w|
    ensures Writes(OpaqueEdits(w, n)) == Flat(OpaquePer(w), n)
  {
    if n > 0 {
      OpaqueFlat(w, n - 1);
      if OpaqueAt(w, n - 1) {
        WritesSnoc(OpaqueEdits(w, n - 1), Edit(Hit(w[n - 1].va, ForceJmp, 0), ForceWrites(w[n - 1])));
      } else {
        assert OpaqueEdits(w, n) == OpaqueEdits(w, n - 1);
      }
    }
  }

  function OpaqueShape(w: seq<Insn>, k: nat): Shape
    requires k < |w|
  {
    if !OpaqueAt(w, k) then Same
    else if w[k].length <= 2 then ShortJmp
    else if w[k].length >= 5 && w[k].bytes != [] && w[k].bytes[0] == 0x0F then NearJmp
    else Same
  }

  function OpaqueShapes(w: seq<Insn>): (shapes: seq<Shape>)
    ensures |shapes| == |w|
  {
    seq(|w|, k requires 0 <= k < |w| => OpaqueShape(w, k))
  }

  lemma OpaqueLosesNone(w: seq<Insn>)
    ensures forall k | 0 <= k < |w| :: OpaqueShapes(w)[k] != ZeroThenRest
    ensures forall i | 0 <= i <= |w| :: NoneLost(w, OpaqueShapes(w), i)
  {
  }

  lemma OpaqueGives(mc: Machine, x64: bool, file: seq<byte>, fn: u64, w: seq<Insn>, k: nat)
    requires IsX86(mc.decode, x64) && mc.Laid(file, fn, w) && k < |w|
    ensures Gives(w[k], OpaqueWritesAt(w, k), OpaqueShape(w, k))
    ensures forall x | x in OpaqueWritesAt(w, k) :: Within(w[k], x)
  {
    hide Add64, Disp, Machine.DecodeAt, IsX86;
    WalkedFacts(mc, x64, file, fn, w, k);
    Add64Small(w[k].va, 0);
    assert OpaqueAt(w, k) ==> Within(w[k], Write(w[k].va, 0xEB));
    assert OpaqueAt(w, k) ==> Within(w[k], Write(w[k].va, 0x90));
    assert OpaqueAt(w, k) ==> Within(w[k], Write(Add64(w[k].va, 1), 0xE9));
  }

  /** The real pass turns each forced jump into its new form and leaves every
      other instruction as it was. */
  lemma OpaqueReshapes(mc: Machine, x64: bool, s: Bin, fn: u64)
    requires IsX86(mc.decode, x64) && LinearFn(mc, s, fn)
    ensures var w := mc.Walk(s.file, fn, WALK_CAP);
            Reshaped(mc, s.file, Opaque(mc, s, fn, false).0.file, fn, w, OpaqueShapes(w))
  {
    hide Add64, Disp, Machine.DecodeAt, Machine.Walk, HasShape, PokeAll, OpaqueEdits, OpaqueShape,
         OpaqueWritesAt, Gives, Within, WritesDecode, FindsDecode;
    var w := mc.Walk(s.file, fn, WALK_CAP);
    mc.WalkIsLaid(s.file, fn);
    OpaqueLosesNone(w);
    var per := OpaquePer(w);
    forall k, x | 0 <= k < |w| && x in per[k]
      ensures Within(w[k], x)
    {
      OpaqueGives(mc, x64, s.file, fn, w, k);
    }
    OpaqueFlat(w, |w|);
    forall k | 0 <= k < |w|
      ensures HasShape(PokeAll(mc.layout, s, Flat(per, |w|)).file, mc.layout(fn).value + Disp(w, k), w[k],
                       OpaqueShapes(w)[k])
    {
      OpaqueGives(mc, x64, s.file, fn, w, k);
      GivesShape(mc, s, fn, w, per, k, OpaqueShape(w, k));
    }
  }

  // ----- anti-debug code

  function AntiPer(imports: Imports, opts: AntiOpts, w: seq<Insn>): seq<seq<Write>> {
    seq(|w|, k requires 0 <= k < |w| => Writes(AntiEditsAt(imports, opts, w[k])))
  }

  lemma AntiPerAt(imports: Imports, opts: AntiOpts, w: seq<Insn>)
    ensures |AntiPer(imports, opts, w)| == |w|
    ensures forall k | 0 <= k < |w| :: AntiPer(imports, opts, w)[k] == Writes(AntiEditsAt(imports, opts, w[k]))
  {
    hide AntiEditsAt, Writes;
  }

  lemma {:induction false} AntiFlat(imports: Imports, opts: AntiOpts, w: seq<Insn>, n: nat)
    requires n <= |w|
    ensures Writes(AntiEdits(imports, opts, w, n)) == Flat(AntiPer(imports, opts, w), n)
  {
    hide AntiEditsAt, Writes, AntiPer;
    AntiPerAt(imports, opts, w);
    if n == 0 {
      WritesNothing();
    } else {
      AntiFlat(imports, opts, w, n - 1);
      WritesConcat(AntiEdits(imports, opts, w, n - 1), AntiEditsAt(imports, opts, w[n - 1]));
    }
  }

  function AntiShape(imports: Imports, opts: AntiOpts, insn: Insn): Shape {
    if GoesThroughSlot(imports, opts, insn) then
      var slot := Slot(imports, insn);
      if slot in imports.iat && IsDebugApi(imports.iat[slot]) then
        if Mentions(imports.iat[slot], "IsDebuggerPresent") then ZeroEax else AllNops
      else Same
    else if opts.intTraps && insn.mnemonic in {Int3, Int} then AllNops
    else if opts.timing && insn.mnemonic == Rdtsc then ZeroThenRest
    else Same
  }

  function AntiShapes(imports: Imports, opts: AntiOpts, w: seq<Insn>): (shapes: seq<Shape>)
    ensures |shapes| == |w|
  {
    seq(|w|, k requires 0 <= k < |w| => AntiShape(imports, opts, w[k]))
  }

  lemma TrapGives(opts: AntiOpts, insn: Insn)
    requires insn.mnemonic == Rdtsc ==> insn.length >= 2
    ensures Gives(insn, Writes(TrapEdits(opts, insn)),
                  if opts.intTraps && insn.mnemonic in {Int3, Int} then AllNops
                  else if opts.timing && insn.mnemonic == Rdtsc then ZeroThenRest else Same)
  {
    hide Writes, Add64;
    var edits := TrapEdits(opts, insn);
    OneEdit(Edit(Hit(insn.va, IntTrap, 0), Nops(insn)));
    if opts.intTraps && insn.mnemonic in {Int3, Int} {
      assert edits == [Edit(Hit(insn.va, IntTrap, 0), Nops(insn))];
    } else if opts.timing && insn.mnemonic == Rdtsc {
      var e := Edit(Hit(insn.va, RdtscTiming, 0), [Write(insn.va, 0x31), Write(Add64(insn.va, 1), 0xC0)]);
      assert edits == [e];
      OneEdit(e);
    } else {
      assert edits == [];
    }
  }

  lemma AntiGives(mc: Machine, x64: bool, imports: Imports, opts: AntiOpts, file: seq<byte>,
                  fn: u64, w: seq<Insn>, k: nat)
    requires IsX86(mc.decode, x64) && mc.Laid(file, fn, w) && k < |w|
    ensures Gives(w[k], Writes(AntiEditsAt(imports, opts, w[k])), AntiShape(imports, opts, w[k]))
  {
    hide Writes, Add64, IsX86, Machine.Laid, IsDebugApi, Mentions;
    var insn := w[k];
    WalkedFacts(mc, x64, file, fn, w, k);
    TrapGives(opts, insn);
    if GoesThroughSlot(imports, opts, insn) {
      assert insn.mnemonic !in {Int3, Int, Rdtsc};
      assert TrapEdits(opts, insn) == [];
      var slot := Slot(imports, insn);
      if slot in imports.iat && IsDebugApi(imports.iat[slot]) {
        var e := Edit(Hit(insn.va, AntiDebugCall, 0),
                      if Mentions(imports.iat[slot], "IsDebuggerPresent") then XorEax(insn) else Nops(insn));
        assert AntiEditsAt(imports, opts, insn) == [e];
        OneEdit(e);
      } else {
        OneEdit(Edit(Hit(insn.va, IntTrap, 0), []));
      }
    }
  }

  /** Writes that give a shape stay inside the instruction. */
  lemma GivesWithin(insn: Insn, ws: seq<Write>, shape: Shape)
    requires Gives(insn, ws, shape)
    ensures forall x | x in ws :: Within(insn, x)
  {
    hide Add64;
    Add64Small(insn.va, 0);
    forall x | x in ws
      ensures Within(insn, x)
    {
      var j :| 0 <= j < |ws| && ws[j] == x;
      if shape == ZeroEax { XorEaxAt(insn, if j < insn.length then j else 0); }
      assert 0 <= j < insn.length && x.va == Add64(insn.va, j);
    }
  }

  lemma RestOnlyForReads(imports: Imports, opts: AntiOpts, insn: Insn)
    ensures AntiShape(imports, opts, insn) == ZeroThenRest ==> insn.mnemonic == Rdtsc
  {
  }

  lemma AntiReshapes(mc: Machine, x64: bool, s: Bin, fn: u64, imports: Imports, opts: AntiOpts)
    requires IsX86(mc.decode, x64) && LinearFn(mc, s, fn)
    ensures var w := mc.Walk(s.file, fn, WALK_CAP);
            Reshaped(mc, s.file, AntiDebug(mc, s, fn, imports, opts, false).0.file, fn, w, AntiShapes(imports, opts, w))
  {
    hide Add64, Disp, Machine.DecodeAt, Machine.Walk, HasShape, PokeAll, AntiEdits, AntiShape, AntiEditsAt,
         Gives, Within, WritesDecode, FindsDecode, Writes;
    var w := mc.Walk(s.file, fn, WALK_CAP);
    mc.WalkIsLaid(s.file, fn);
    var per := AntiPer(imports, opts, w);
    forall k, x | 0 <= k < |w| && x in per[k]
      ensures Within(w[k], x)
    {
      AntiGives(mc, x64, imports, opts, s.file, fn, w, k);
      GivesWithin(w[k], per[k], AntiShape(imports, opts, w[k]));
    }
    AntiFlat(imports, opts, w, |w|);
    forall k | 0 <= k < |w| && AntiShapes(imports, opts, w)[k] == ZeroThenRest
      ensures IsRead(mc.decode, w[k].va, w[k].bytes)
    {
      RestOnlyForReads(imports, opts, w[k]);
      WalkedFacts(mc, x64, s.file, fn, w, k);
    }
    forall k | 0 <= k < |w|
      ensures HasShape(PokeAll(mc.layout, s, Flat(per, |w|)).file, mc.layout(fn).value + Disp(w, k), w[k],
                       AntiShapes(imports, opts, w)[k])
    {
      AntiGives(mc, x64, imports, opts, s.file, fn, w, k);
      GivesShape(mc, s, fn, w, per, k, AntiShape(imports, opts, w[k]));
    }
  }

  // ----- aggressive dead-code filling

  lemma {:induction false} NopsOverHas(w: seq<Insn>, i: nat, j: nat, k: nat, b: nat)
    requires i <= k < j <= |w| && b < w[k].length
    ensures Write(Add64(w[k].va, b), 0x90) in NopsOver(w, i, j)
  {
    hide Add64;
    if k == j - 1 {
      assert Nops(w[k])[b] == Write(Add64(w[k].va, b), 0x90);
    } else {
      NopsOverHas(w, i, j - 1, k, b);
    }
  }

  lemma {:induction false} DeadEditsHas(w: seq<Insn>, n: nat, i: nat, k: nat, b: nat)
    requires i < n <= |w| && FilledFrom(w, i, k) && b < w[k].length
    ensures Write(Add64(w[k].va, b), 0x90) in Writes(DeadEdits(w, Targets(w), n))
  {
    hide Add64, Writes, FillEnd, Targets;
    var t := Targets(w);
    if DeadHead(w, t, n - 1) {
      WritesSnoc(DeadEdits(w, t, n - 1), DeadEdit(w, t, n - 1));
    } else {
      assert DeadEdits(w, t, n) == DeadEdits(w, t, n - 1);
    }
    if i == n - 1 {
      NopsOverHas(w, i, FillEnd(w, t, i, i, 0), k, b);
    } else {
      DeadEditsHas(w, n - 1, i, k, b);
    }
  }

  /** Every byte of a filled instruction is written. */
  lemma JunkEditsHas(w: seq<Insn>, threshold: nat, k: nat, b: nat)
    requires Filled(w, k) && b < w[k].length
    ensures Write(Add64(w[k].va, b), 0x90) in Writes(JunkEdits(w, true, threshold))
  {
    hide Add64, Writes, FillEnd, Sleds, DeadEdits;
    var i: nat :| FilledFrom(w, i, k);
    DeadEditsHas(w, |w|, i, k, b);
    WritesConcat(Sleds(w, ClampThreshold(threshold), |w|), DeadEdits(w, Targets(w), |w|));
  }

  ghost function FillShapes(w: seq<Insn>): (shapes: seq<Shape>)
    ensures |shapes| == |w|
  {
    seq(|w|, k requires 0 <= k < |w| => if Filled(w, k) then AllNops else Same)
  }

  lemma FilledByte(mc: Machine, s: Bin, fn: u64, w: seq<Insn>, threshold: nat, k: nat, b: nat)
    requires Setting(mc, s.file, fn, w) && Filled(w, k) && k < |w| && b < w[k].length
    ensures var o := mc.layout(fn).value + Disp(w, k) + b;
            o < |s.file| && PokeAll(mc.layout, s, Writes(JunkEdits(w, true, threshold))).file[o] == 0x90
  {
    hide Add64, Disp, Filled, Writes, JunkEdits, Machine.DecodeAt, PokeAll;
    var ws := Writes(JunkEdits(w, true, threshold));
    JunkEditsHas(w, threshold, k, b);
    JunkEditsFill(w, true, threshold);
    mc.InsnOffset(s.file, fn, w, k, b);
    mc.InsnOffset(s.file, fn, w, k, 0);
    assert mc.InsnAt(s.file, fn, w, k);
    mc.DecodedInsn(s.file, w[k].va);
    var j :| 0 <= j < |ws| && ws[j] == Write(Add64(w[k].va, b), 0x90);
    forall i | j < i < |ws|
      ensures ws[i].value == 0x90
    {
      assert IsFill(w, ws[i]);
    }
    PokeAllHits(mc.layout, s, ws, mc.layout(fn).value + Disp(w, k) + b, j);
  }

  lemma FillLosesNone(w: seq<Insn>)
    ensures forall k | 0 <= k < |w| :: FillShapes(w)[k] != ZeroThenRest
    ensures forall i | 0 <= i <= |w| :: NoneLost(w, FillShapes(w), i)
  {
    hide Filled;
  }

  /** The aggressive fill turns whole instructions into no-operations and leaves
      the others as they were. */
  lemma FillReshapes(mc: Machine, s: Bin, fn: u64, threshold: nat)
    requires ReadsPrefix(mc.decode) && LinearFn(mc, s, fn)
    ensures var w := mc.Walk(s.file, fn, WALK_CAP);
            Reshaped(mc, s.file, NopJunk(mc, s, fn, true, threshold).0.file, fn, w, FillShapes(w))
  {
    hide Add64, Disp, Filled, Writes, JunkEdits, Machine.DecodeAt, Machine.Walk, PokeAll, IsFill, ReadsPrefix,
         NoneLost, Loses;
    var w := mc.Walk(s.file, fn, WALK_CAP);
    mc.WalkIsLaid(s.file, fn);
    FillLosesNone(w);
    var ws := Writes(JunkEdits(w, true, threshold));
    JunkEditsFill(w, true, threshold);
    var file' := PokeAll(mc.layout, s, ws).file;
    forall k | 0 <= k < |w|
      ensures HasShape(file', mc.layout(fn).value + Disp(w, k), w[k], FillShapes(w)[k])
    {
      var off := mc.layout(fn).value + Disp(w, k);
      assert mc.InsnAt(s.file, fn, w, k);
      mc.DecodedInsn(s.file, w[k].va);
      mc.InsnOffset(s.file, fn, w, k, 0);
      forall o | off <= o < off + w[k].length
        ensures file'[o] == if Filled(w, k) then 0x90 else w[k].bytes[o - off]
      {
        if Filled(w, k) {
          FilledByte(mc, s, fn, w, threshold, k, o - off);
        } else {
          LiveByteUntouched(mc, s, fn, w, ws, k, o - off);
          assert s.file[o] == s.file[off..off + w[k].length][o - off];
        }
      }
      if !Filled(w, k) {
        SameShape(file', off, w[k]);
      }
    }
  }

  lemma SameShape(file: seq<byte>, off: nat, insn: Insn)
    requires |insn.bytes| == insn.length && off + insn.length <= |file|
    requires forall o | off <= o < off + insn.length :: file[o] == insn.bytes[o - off]
    ensures HasShape(file, off, insn, Same)
  {
    var there := file[off..off + insn.length];
    forall b | 0 <= b < insn.length ensures there[b] == insn.bytes[b] {
      assert there[b] == file[off + b];
    }
    assert there == insn.bytes;
  }

  // ----- decoding again

  /** After the opaque-predicate pass every instruction start is found again,
      up to the cap; a near jump before it costs one extra instruction. */
  lemma OpaqueKeepsStart(mc: Machine, x64: bool, s: Bin, fn: u64, i: nat)
    requires IsX86(mc.decode, x64) && LinearFn(mc, s, fn)
    requires i < |mc.Walk(s.file, fn, WALK_CAP)|
    ensures var w := mc.Walk(s.file, fn, WALK_CAP);
            var w' := mc.Walk(Opaque(mc, s, fn, false).0.file, fn, WALK_CAP);
            var k := PieceCount(w, OpaqueShapes(w), i);
            (k < |w'| <==> k < WALK_CAP) && (k < WALK_CAP ==> w'[k].va == w[i].va)
  {
    hide Machine.Walk, PieceCount, OpaqueShapes, Opaque, Reshaped;
    OpaqueReshapes(mc, x64, s, fn);
    var w := mc.Walk(s.file, fn, WALK_CAP);
    OpaqueLosesNone(w);
    RewalkKeepsStart(mc, x64, s.file, Opaque(mc, s, fn, false).0.file, fn, w, OpaqueShapes(w), i);
  }

  /** A time-stamp read with exactly one prefix. Of every read the anti-debug
      pass rewrites only the first two bytes. */
  predicate OnePrefixRead(opts: AntiOpts, insn: Insn) {
    opts.timing && insn.mnemonic == Rdtsc && insn.length == 3
  }

  lemma AntiLoses(mc: Machine, x64: bool, file: seq<byte>, fn: u64, w: seq<Insn>,
                  imports: Imports, opts: AntiOpts, k: nat)
    requires IsX86(mc.decode, x64) && mc.Laid(file, fn, w) && k < |w|
    ensures Loses(w, AntiShapes(imports, opts, w), k) <==> OnePrefixRead(opts, w[k])
  {
    hide Machine.Laid, IsX86, IsDebugApi, Mentions, Slot;
    WalkedFacts(mc, x64, file, fn, w, k);
  }

  /** After the anti-debug pass every instruction start up to the first read with
      one prefix is found again, up to the cap. */
  lemma AntiKeepsStart(mc: Machine, x64: bool, s: Bin, fn: u64, imports: Imports, opts: AntiOpts, i: nat)
    requires IsX86(mc.decode, x64) && LinearFn(mc, s, fn)
    requires i < |mc.Walk(s.file, fn, WALK_CAP)|
    requires forall k | 0 <= k < i :: !OnePrefixRead(opts, mc.Walk(s.file, fn, WALK_CAP)[k])
    ensures var w := mc.Walk(s.file, fn, WALK_CAP);
            var w' := mc.Walk(AntiDebug(mc, s, fn, imports, opts, false).0.file, fn, WALK_CAP);
            var k := PieceCount(w, AntiShapes(imports, opts, w), i);
            (k < |w'| <==> k < WALK_CAP) && (k < WALK_CAP ==> w'[k].va == w[i].va)
  {
    hide Machine.Walk, PieceCount, AntiShapes, AntiDebug, Reshaped, OnePrefixRead, Machine.Laid, Loses;
    AntiReshapes(mc, x64, s, fn, imports, opts);
    var w := mc.Walk(s.file, fn, WALK_CAP);
    mc.WalkIsLaid(s.file, fn);
    forall k | 0 <= k < i ensures !Loses(w, AntiShapes(imports, opts, w), k) {
      AntiLoses(mc, x64, s.file, fn, w, imports, opts, k);
    }
    RewalkKeepsStart(mc, x64, s.file, AntiDebug(mc, s, fn, imports, opts, false).0.file, fn, w,
                     AntiShapes(imports, opts, w), i);
  }

  /** The start after the first read with one prefix is never found again. */
  lemma AntiLosesStart(mc: Machine, x64: bool, s: Bin, fn: u64, imports: Imports, opts: AntiOpts, i: nat)
    requires IsX86(mc.decode, x64) && LinearFn(mc, s, fn)
    requires i + 1 < |mc.Walk(s.file, fn, WALK_CAP)|
    requires OnePrefixRead(opts, mc.Walk(s.file, fn, WALK_CAP)[i])
    requires forall k | 0 <= k < i :: !OnePrefixRead(opts, mc.Walk(s.file, fn, WALK_CAP)[k])
    ensures var w := mc.Walk(s.file, fn, WALK_CAP);
            var w' := mc.Walk(AntiDebug(mc, s, fn, imports, opts, false).0.file, fn, WALK_CAP);
            !Found(w', w[i + 1].va)
  {
    hide Machine.Walk, PieceCount, Found, AntiShapes, AntiDebug, Reshaped, OnePrefixRead, Machine.Laid, Loses;
    AntiReshapes(mc, x64, s, fn, imports, opts);
    var w := mc.Walk(s.file, fn, WALK_CAP);
    mc.WalkIsLaid(s.file, fn);
    forall k | 0 <= k <= i ensures Loses(w, AntiShapes(imports, opts, w), k) <==> OnePrefixRead(opts, w[k]) {
      AntiLoses(mc, x64, s.file, fn, w, imports, opts, k);
    }
    RewalkLosesStart(mc, x64, s.file, AntiDebug(mc, s, fn, imports, opts, false).0.file, fn, w,
                     AntiShapes(imports, opts, w), i);
  }

  /** The `i`-th start is found again somewhere, if the cap leaves room for it. */
  ghost predicate StartKept(w: seq<Insn>, w': seq<Insn>, shapes: seq<Shape>, i: nat)
    requires i < |w| == |shapes|
  {
    PieceCount(w, shapes, i) < WALK_CAP ==> Found(w', w[i].va)
  }

  /** Main result: the anti-debug pass keeps every instruction start exactly when
      no read with one prefix stands before another instruction that the cap
      leaves room for. Reads with no prefix, or two and more, do no harm. */
  lemma AntiKeepsStartsIff(mc: Machine, x64: bool, s: Bin, fn: u64, imports: Imports, opts: AntiOpts)
    requires IsX86(mc.decode, x64) && LinearFn(mc, s, fn)
    ensures var w := mc.Walk(s.file, fn, WALK_CAP);
            var w' := mc.Walk(AntiDebug(mc, s, fn, imports, opts, false).0.file, fn, WALK_CAP);
            var shapes := AntiShapes(imports, opts, w);
            (forall i | 0 <= i < |w| :: StartKept(w, w', shapes, i))
            <==> (forall k | 0 <= k < |w| - 1 && PieceCount(w, shapes, k + 1) < WALK_CAP :: !OnePrefixRead(opts, w[k]))
  {
    hide Machine.Walk, PieceCount, AntiShapes, AntiDebug, OnePrefixRead, IsX86, LinearFn;
    var w := mc.Walk(s.file, fn, WALK_CAP);
    var w' := mc.Walk(AntiDebug(mc, s, fn, imports, opts, false).0.file, fn, WALK_CAP);
    var shapes := AntiShapes(imports, opts, w);
    if k :| 0 <= k < |w| - 1 && PieceCount(w, shapes, k + 1) < WALK_CAP && OnePrefixRead(opts, w[k]) {
      var first := FirstOnePrefix(opts, w, k);
      var next := first + 1;
      PieceCountRises(w, shapes, next, k + 1);
      AntiLosesStart(mc, x64, s, fn, imports, opts, first);
      assert PieceCount(w, shapes, next) < WALK_CAP;
      assert !StartKept(w, w', shapes, next);
    } else {
      forall i | 0 <= i < |w| ensures StartKept(w, w', shapes, i) {
        if PieceCount(w, shapes, i) < WALK_CAP {
          forall k | 0 <= k < i ensures !OnePrefixRead(opts, w[k]) {
            PieceCountRises(w, shapes, k + 1, i);
          }
          AntiKeepsStart(mc, x64, s, fn, imports, opts, i);
        }
      }
    }
  }

  /** What is decoded at the address is a time-stamp read. */
  predicate ReadsTimeAt(mc: Machine, file: seq<byte>, va: u64) {
    mc.DecodeAt(file, va).Some? && mc.DecodeAt(file, va).value.mnemonic == Rdtsc
  }

  /** Main result on reads: a reported read becomes a cleared register, and its
      remaining bytes still hold a read exactly when it had two or more prefixes
      (and there are bytes enough to decode it). */
  lemma ReadSurvivesIff(mc: Machine, x64: bool, s: Bin, fn: u64, imports: Imports, opts: AntiOpts, i: nat)
    requires IsX86(mc.decode, x64) && LinearFn(mc, s, fn) && opts.timing
    requires i < |mc.Walk(s.file, fn, WALK_CAP)| && mc.Walk(s.file, fn, WALK_CAP)[i].mnemonic == Rdtsc
    ensures var insn := mc.Walk(s.file, fn, WALK_CAP)[i];
            var (t, r) := AntiDebug(mc, s, fn, imports, opts, false);
            var rest := Add64(insn.va, 2);
            && (exists h :: h in r.hits && h.va == insn.va)
            && IsPlain(mc.DecodeAt(t.file, insn.va), 2, Xor)
            && (insn.length > 2 && ReadsTimeAt(mc, t.file, rest)
                <==> insn.length >= 4 && mc.Fetch(s.file, rest).Some?)
            && (insn.length >= 4 && mc.Fetch(s.file, rest).Some? ==>
                  mc.DecodeAt(t.file, rest).value.length == insn.length - 2)
  {
    hide Machine.Walk, Machine.DecodeAt, AntiEdits, AntiEditsAt, PokeAll, Add64, Disp, WritesDecode, FindsDecode,
         DropsPrefix, ReadsPrefix, IsRead, Writes, Hits, Machine.Laid;
    var w := mc.Walk(s.file, fn, WALK_CAP);
    var insn, file' := w[i], AntiDebug(mc, s, fn, imports, opts, false).0.file;
    var off := mc.layout(fn).value + Disp(w, i);
    mc.WalkIsLaid(s.file, fn);
    AntiReshapes(mc, x64, s, fn, imports, opts);
    WalkedFacts(mc, x64, s.file, fn, w, i);
    ReadIsReported(imports, opts, insn);
    AntiReported(imports, opts, w, |w|, i);
    assert AntiShapes(imports, opts, w)[i] == ZeroThenRest;
    ReadHasWindow(mc, s.file, fn, w, i);
    StepPlain(mc, x64, file', insn.va, off);
    if insn.length > 2 {
      mc.InsnOffset(s.file, fn, w, i, 2);
      NoWindow(mc, s.file, file', Add64(insn.va, 2));
      if insn.length == 3 {
        ReadEndsIn31(mc.decode, x64, insn.va, insn.bytes);
        assert file'[off + 2..off + 3][0] == insn.bytes[2..][0] == 0x31;
        RestIsXor(mc, x64, file', Add64(insn.va, 2), off + 2);
      } else if mc.Fetch(s.file, Add64(insn.va, 2)).Some? {
        RestIsRead(mc, file', insn, Add64(insn.va, 2), off + 2);
      }
    }
  }

  lemma ReadHasWindow(mc: Machine, file: seq<byte>, fn: u64, w: seq<Insn>, i: nat)
    requires ReadsPrefix(mc.decode) && mc.Laid(file, fn, w) && Linear(mc.layout, fn, Disp(w, |w|)) && i < |w|
    ensures mc.layout(w[i].va) == Some(mc.layout(fn).value + Disp(w, i))
    ensures mc.layout(fn).value + Disp(w, i) + WINDOW <= |file|
  {
    hide Add64, Disp, Machine.DecodeAt, ReadsPrefix;
    assert mc.InsnAt(file, fn, w, i);
    mc.DecodedInsn(file, w[i].va);
    mc.InsnOffset(file, fn, w, i, 0);
  }

  lemma NoWindow(mc: Machine, file: seq<byte>, file': seq<byte>, va: u64)
    requires |file'| == |file|
    ensures mc.Fetch(file, va).None? ==> mc.DecodeAt(file', va).None?
  {
  }

  lemma ReadIsReported(imports: Imports, opts: AntiOpts, insn: Insn)
    requires opts.timing && insn.mnemonic == Rdtsc && insn.flow == NoFlow
    ensures AntiEditsAt(imports, opts, insn) != [] && AntiShape(imports, opts, insn) == ZeroThenRest
  {
  }

  const READ_THEN_RETURN: seq<byte> := [
    0xF3, 0x0F, 0x31, 0xC3, 0x90, 0x90, 0x90, 0x90, 0x90, 0x90,
    0x90, 0x90, 0x90, 0x90, 0x90, 0x90, 0x90, 0x90, 0x90]
  const LONG_READ := Insn(0, 3, [0xF3, 0x0F, 0x31], NoFlow, Rdtsc, [], None, None)
  const RETURN := Insn(3, 1, [0xC3], Flow.Ret, Return, [], None, None)

  lemma LongReadDecodes(file: seq<byte>)
    requires |file| >= WINDOW && file[0] == 0xF3 && file[1] == 0x0F && file[2] == 0x31
    ensures SMALL.DecodeAt(file, 0) == Some(LONG_READ)
  {
    hide Machine.DecodeAt;
    SmallDecodes(file, 0);
    var b := file[0..WINDOW];
    assert b[1..][0] == 0x0F && b[1..][1] == 0x31;
    assert ReadLength(b[1..], 14) == 2;
    assert ReadLength(b, 15) == 3;
    assert b[..3] == [0xF3, 0x0F, 0x31];
  }

  lemma LongReadWalkOf(file: seq<byte>)
    requires |file| == 19 && file[0] == 0xF3 && file[1] == 0x0F && file[2] == 0x31 && file[3] == 0xC3
    ensures SMALL.Walk(file, 0, WALK_CAP) == [LONG_READ, RETURN]
  {
    LongReadDecodes(file);
    SmallOne(file, 3);
    hide Machine.DecodeAt, Machine.Walk;
    WalkStops(file, 4, WALK_CAP - 2);
    WalkNext(file, 3, WALK_CAP - 1, RETURN, []);
    WalkNext(file, 0, WALK_CAP, LONG_READ, [RETURN]);
  }

  lemma LongReadWalk()
    ensures SMALL.Walk(READ_THEN_RETURN, 0, WALK_CAP) == [LONG_READ, RETURN]
  {
    hide Machine.Walk;
    LongReadWalkOf(READ_THEN_RETURN);
  }

  lemma LongReadLinear()
    ensures Linear(FLAT, 0, Disp([LONG_READ, RETURN], 2))
  {
    hide Add64;
    var w := [LONG_READ, RETURN];
    assert Disp(w, 1) == 3 && Disp(w, 2) == 4;
    forall k | 0 <= k < 4 ensures FLAT(Add64(0, k)) == Some(k) { Add64Small(0, k); }
  }

  /** Such a function exists: a read with one prefix, then a return, whose start
      is lost. */
  lemma PrefixedRdtscLosesStart()
    ensures var s := Bin(READ_THEN_RETURN, [], false, false);
            var s' := AntiDebug(SMALL, s, 0, Imports(0, map[]), ALL_ANTI, false).0;
            && IsX86(SMALL.decode, true) && LinearFn(SMALL, s, 0)
            && SMALL.Walk(s.file, 0, WALK_CAP) == [LONG_READ, RETURN]
            && !Found(SMALL.Walk(s'.file, 0, WALK_CAP), RETURN.va)
  {
    hide Machine.Walk, AntiDebug, IsX86, Found, ToyDecode, Disp, Linear;
    ToyIsX86(true);
    LongReadWalk();
    LongReadLinear();
    AntiLosesStart(SMALL, true, Bin(READ_THEN_RETURN, [], false, false), 0, Imports(0, map[]), ALL_ANTI, 0);
  }

  const LONGER_READ: seq<byte> := [
    0xF3, 0x66, 0x0F, 0x31, 0xC3, 0x90, 0x90, 0x90, 0x90, 0x90,
    0x90, 0x90, 0x90, 0x90, 0x90, 0x90, 0x90, 0x90, 0x90, 0x90]
  const TWO_PREFIXES := Insn(0, 4, [0xF3, 0x66, 0x0F, 0x31], NoFlow, Rdtsc, [], None, None)
  const RETURN_AT_4 := Insn(4, 1, [0xC3], Flow.Ret, Return, [], None, None)

  lemma TwoPrefixesDecode(file: seq<byte>)
    requires |file| >= WINDOW && file[0] == 0xF3 && file[1] == 0x66 && file[2] == 0x0F && file[3] == 0x31
    ensures SMALL.DecodeAt(file, 0) == Some(TWO_PREFIXES)
  {
    hide Machine.DecodeAt;
    SmallDecodes(file, 0);
    var b := file[0..WINDOW];
    assert b[1..][1..] == b[2..] && b[2..][0] == 0x0F && b[2..][1] == 0x31;
    assert ReadLength(b[2..], 13) == 2;
    assert ReadLength(b[1..], 14) == 3;
    assert ReadLength(b, 15) == 4;
    assert b[..4] == [0xF3, 0x66, 0x0F, 0x31];
  }

  lemma TwoPrefixesWalk(file: seq<byte>)
    requires |file| == 20 && file[0] == 0xF3 && file[1] == 0x66 && file[2] == 0x0F && file[3] == 0x31 && file[4] == 0xC3
    ensures SMALL.Walk(file, 0, WALK_CAP) == [TWO_PREFIXES, RETURN_AT_4]
  {
    TwoPrefixesDecode(file);
    SmallOne(file, 4);
    hide Machine.DecodeAt, Machine.Walk;
    WalkStops(file, 5, WALK_CAP - 2);
    WalkNext(file, 4, WALK_CAP - 1, RETURN_AT_4, []);
    WalkNext(file, 0, WALK_CAP, TWO_PREFIXES, [RETURN_AT_4]);
  }

  lemma LongerReadBytes()
    ensures |LONGER_READ| == 20 && LONGER_READ[0] == 0xF3 && LONGER_READ[1] == 0x66 && LONGER_READ[2] == 0x0F
    ensures LONGER_READ[3] == 0x31 && LONGER_READ[4] == 0xC3
  {
  }

  lemma LongerReadWalk()
    ensures SMALL.Walk(LONGER_READ, 0, WALK_CAP) == [TWO_PREFIXES, RETURN_AT_4]
  {
    hide Machine.Walk, LONGER_READ;
    LongerReadBytes();
    TwoPrefixesWalk(LONGER_READ);
  }

  lemma LongerReadLinear()
    ensures Linear(FLAT, 0, Disp([TWO_PREFIXES, RETURN_AT_4], 2))
  {
    hide Add64;
    var w := [TWO_PREFIXES, RETURN_AT_4];
    assert Disp(w, 1) == 4 && Disp(w, 2) == 5;
    forall k | 0 <= k < 5 ensures FLAT(Add64(0, k)) == Some(k) { Add64Small(0, k); }
  }

  lemma LongerReadFetched()
    ensures SMALL.Fetch(LONGER_READ, 2).Some? && Add64(0, 2) == 2
  {
    Add64Small(0, 2);
  }

  /** And one whose read has two prefixes: it is reported, and two bytes further
      on still reads the time. */
  lemma LongerReadSurvives()
    ensures var s := Bin(LONGER_READ, [], false, false);
            var (s', r) := AntiDebug(SMALL, s, 0, Imports(0, map[]), ALL_ANTI, false);
            && IsX86(SMALL.decode, true) && LinearFn(SMALL, s, 0)
            && (exists h :: h in r.hits && h.va == 0) && ReadsTimeAt(SMALL, s'.file, 2)
  {
    hide Machine.Walk, Machine.DecodeAt, Machine.Fetch, AntiDebug, IsX86, ReadsTimeAt, ToyDecode, Disp, Linear, Add64;
    ToyIsX86(true);
    LongerReadWalk();
    LongerReadLinear();
    LongerReadFetched();
    ReadSurvivesIff(SMALL, true, Bin(LONGER_READ, [], false, false), 0, Imports(0, map[]), ALL_ANTI, 0);
  }

  function FirstOnePrefix(opts: AntiOpts, w: seq<Insn>, k: nat): (i: nat)
    requires k < |w| && OnePrefixRead(opts, w[k])
    ensures i <= k && OnePrefixRead(opts, w[i]) && forall a | 0 <= a < i :: !OnePrefixRead(opts, w[a])
    decreases k
  {
    if a :| 0 <= a < k && OnePrefixRead(opts, w[a]) then FirstOnePrefix(opts, w, a) else k
  }

  lemma {:induction false} PieceCountRises(w: seq<Insn>, shapes: seq<Shape>, i: nat, j: nat)
    requires i <= j <= |w| == |shapes|
    ensures PieceCount(w, shapes, i) <= PieceCount(w, shapes, j)
    decreases j
  {
    if i < j { PieceCountRises(w, shapes, i, j - 1); }
  }

  lemma FillKeepsStart(mc: Machine, x64: bool, s: Bin, fn: u64, threshold: nat, i: nat)
    requires IsX86(mc.decode, x64) && LinearFn(mc, s, fn)
    requires i < |mc.Walk(s.file, fn, WALK_CAP)|
    ensures var w := mc.Walk(s.file, fn, WALK_CAP);
            var w' := mc.Walk(NopJunk(mc, s, fn, true, threshold).0.file, fn, WALK_CAP);
            var k := PieceCount(w, FillShapes(w), i);
            (k < |w'| <==> k < WALK_CAP) && (k < WALK_CAP ==> w'[k].va == w[i].va)
  {
    hide Machine.Walk, PieceCount, FillShapes, NopJunk, Reshaped;
    FillReshapes(mc, s, fn, threshold);
    var w := mc.Walk(s.file, fn, WALK_CAP);
    FillLosesNone(w);
    RewalkKeepsStart(mc, x64, s.file, NopJunk(mc, s, fn, true, threshold).0.file, fn, w, FillShapes(w), i);
  }

  // ----- forced jumps

  /** The two encodings the pass can force. */
  predicate Forcible(insn: Insn) {
    insn.length == 2 || (insn.length >= 5 && insn.bytes != [] && insn.bytes[0] == 0x0F)
  }

  /** Where a forced jump starts: the near form is preceded by a no-operation. */
  function ForcedAt(insn: Insn): u64 {
    if insn.length == 2 then insn.va else Add64(insn.va, 1)
  }

  /** A conditional jump right after XOR or TEST of a register with itself. */
  ghost predicate ForcedBranch(w: seq<Insn>, i: nat) {
    && 1 <= i < |w| && w[i].flow == Jcc
    && (w[i - 1].mnemonic == Xor || w[i - 1].mnemonic == Test)
    && |w[i - 1].ops| >= 2 && exists r :: w[i - 1].ops[0] == Reg(r) && w[i - 1].ops[1] == Reg(r)
  }

  lemma OpaqueMeans(w: seq<Insn>, i: nat)
    ensures OpaqueAt(w, i) <==> ForcedBranch(w, i)
  {
    if OpaqueAt(w, i) { assert w[i - 1].ops[0] == Reg(w[i - 1].ops[0].reg); }
  }

  /** Such a branch becomes an unconditional jump to the same target exactly
      when it has one of the two encodings the pass knows; otherwise it is
      reported and stays the conditional jump it was. Only behind the last walked
      branch can the window to decode the moved jump be missing. */
  lemma ForcedIff(mc: Machine, x64: bool, s: Bin, fn: u64, i: nat)
    requires IsX86(mc.decode, x64) && LinearFn(mc, s, fn)
    requires ForcedBranch(mc.Walk(s.file, fn, WALK_CAP), i)
    ensures var w := mc.Walk(s.file, fn, WALK_CAP);
            var insn, file' := w[i], Opaque(mc, s, fn, false).0.file;
            && (mc.DecodeAt(file', insn.va) == Some(insn) <==> !Forcible(insn))
            && (Forcible(insn) ==>
                  && insn.relTarget.Some?
                  && (insn.length != 2 ==> IsPlain(mc.DecodeAt(file', insn.va), 1, Nop))
                  && (i + 1 < |w| || insn.length == 2 ==> mc.Fetch(s.file, ForcedAt(insn)).Some?)
                  && (mc.Fetch(s.file, ForcedAt(insn)).Some? ==>
                        IsDirectJmp(mc.DecodeAt(file', ForcedAt(insn)), if insn.length == 2 then 2 else 5,
                                    insn.relTarget.value)))
  {
    hide Machine.Walk, PieceCount, Opaque, Machine.DecodeAt, Add64, Disp, HasShape, WritesDecode, FindsDecode;
    var w := mc.Walk(s.file, fn, WALK_CAP);
    var file' := Opaque(mc, s, fn, false).0.file;
    mc.WalkIsLaid(s.file, fn);
    OpaqueMeans(w, i);
    OpaqueReshapes(mc, x64, s, fn);
    WalkedFacts(mc, x64, s.file, fn, w, i);
    assert mc.InsnAt(s.file, fn, w, i);
    mc.DecodedInsn(s.file, w[i].va);
    var shape := OpaqueShapes(w)[i];
    assert shape == OpaqueShape(w, i);
    if shape == Same {
      SameShapeDecodes(mc, s.file, file', fn, w, OpaqueShapes(w), i);
    } else {
      ForcedJumpKeepsTarget(mc, x64, s.file, file', fn, w, OpaqueShapes(w), i);
    }
  }

  // ----- nothing else changes

  /** A byte that differs after a pass belongs to an instruction the pass wrote. */
  lemma ChangedIsWritten(mc: Machine, s: Bin, fn: u64, w: seq<Insn>, per: seq<seq<Write>>, o: nat)
    requires Local(mc, s.file, fn, w, per) && o < |s.file|
    requires PokeAll(mc.layout, s, Flat(per, |w|)).file[o] != s.file[o]
    ensures exists k :: 0 <= k < |w| && InRegion(mc, fn, w, k, o) && per[k] != []
  {
    hide Add64, Disp, Local, InRegion, Flat;
    LocalBasics(mc, s.file, fn, w, per);
    if k :| 0 <= k < |w| && InRegion(mc, fn, w, k, o) {
      RegionsApart(mc, s.file, fn, w, per, k, o);
      RegionAfter(mc, s, fn, w, per, |w|, k, o);
      assert per[k] != [];
    } else {
      RegionAfter(mc, s, fn, w, per, |w|, |w|, o);
      assert false;
    }
  }

  lemma {:induction false} OpaqueReported(w: seq<Insn>, n: nat, k: nat)
    requires k < n <= |w| && OpaqueAt(w, k)
    ensures Hit(w[k].va, ForceJmp, 0) in Hits(OpaqueEdits(w, n))
  {
    hide OpaqueAt, ForceWrites, Hits;
    var before := OpaqueEdits(w, n - 1);
    if k < n - 1 {
      OpaqueReported(w, n - 1, k);
    }
    if OpaqueAt(w, n - 1) {
      HitsSnoc(before, Edit(Hit(w[n - 1].va, ForceJmp, 0), ForceWrites(w[n - 1])));
    } else {
      assert OpaqueEdits(w, n) == before;
    }
  }

  /** Every byte the opaque-predicate pass changes is a byte of a conditional
      jump that it reports. */
  lemma OpaqueChangesReported(mc: Machine, x64: bool, s: Bin, fn: u64, o: nat)
    requires IsX86(mc.decode, x64) && LinearFn(mc, s, fn) && o < |s.file|
    requires Opaque(mc, s, fn, false).1.Done?
    requires Opaque(mc, s, fn, false).0.file[o] != s.file[o]
    ensures var w := mc.Walk(s.file, fn, WALK_CAP);
            exists k :: 0 <= k < |w| && InRegion(mc, fn, w, k, o) && OpaqueAt(w, k)
                        && Hit(w[k].va, ForceJmp, 0) in Opaque(mc, s, fn, false).1.hits
  {
    hide Add64, Disp, Machine.DecodeAt, Machine.Walk, PokeAll, OpaqueEdits, InRegion, Flat, WritesDecode,
         FindsDecode;
    var w := mc.Walk(s.file, fn, WALK_CAP);
    mc.WalkIsLaid(s.file, fn);
    var per := OpaquePer(w);
    forall k, x | 0 <= k < |w| && x in per[k]
      ensures Within(w[k], x)
    {
      OpaqueGives(mc, x64, s.file, fn, w, k);
    }
    OpaqueFlat(w, |w|);
    ChangedIsWritten(mc, s, fn, w, per, o);
    var k :| 0 <= k < |w| && InRegion(mc, fn, w, k, o) && per[k] != [];
    OpaqueReported(w, |w|, k);
  }

  lemma {:induction false} AntiReported(imports: Imports, opts: AntiOpts, w: seq<Insn>, n: nat, k: nat)
    requires k < n <= |w| && AntiEditsAt(imports, opts, w[k]) != []
    ensures exists h :: h in Hits(AntiEdits(imports, opts, w, n)) && h.va == w[k].va
  {
    hide TrapEdits, GoesThroughSlot, IsDebugApi, Mentions, Slot;
    var before, at := AntiEdits(imports, opts, w, n - 1), AntiEditsAt(imports, opts, w[n - 1]);
    if k == n - 1 {
      AntiHitsHere(imports, opts, w[k]);
      assert Hits(before + at)[|before|].va == w[k].va;
    } else {
      AntiReported(imports, opts, w, n - 1, k);
      var h :| h in Hits(before) && h.va == w[k].va;
      var j :| 0 <= j < |before| && Hits(before)[j] == h;
      assert Hits(before + at)[j] == h;
    }
  }

  lemma AntiHitsHere(imports: Imports, opts: AntiOpts, insn: Insn)
    ensures forall e | e in AntiEditsAt(imports, opts, insn) :: e.hit.va == insn.va
  {
  }

  /** Every byte the anti-debug pass changes is a byte of an instruction that it
      reports. */
  lemma AntiChangesReported(mc: Machine, x64: bool, s: Bin, fn: u64, imports: Imports, opts: AntiOpts, o: nat)
    requires IsX86(mc.decode, x64) && LinearFn(mc, s, fn) && o < |s.file|
    requires AntiDebug(mc, s, fn, imports, opts, false).0.file[o] != s.file[o]
    ensures var w := mc.Walk(s.file, fn, WALK_CAP);
            exists k, h :: 0 <= k < |w| && InRegion(mc, fn, w, k, o)
                           && h in AntiDebug(mc, s, fn, imports, opts, false).1.hits && h.va == w[k].va
  {
    hide Add64, Disp, Machine.DecodeAt, Machine.Walk, PokeAll, AntiEdits, AntiEditsAt, AntiShape, InRegion, Flat,
         WritesDecode, FindsDecode, Gives, Within;
    var w := mc.Walk(s.file, fn, WALK_CAP);
    mc.WalkIsLaid(s.file, fn);
    var per := AntiPer(imports, opts, w);
    forall k, x | 0 <= k < |w| && x in per[k]
      ensures Within(w[k], x)
    {
      AntiGives(mc, x64, imports, opts, s.file, fn, w, k);
      GivesWithin(w[k], per[k], AntiShape(imports, opts, w[k]));
    }
    AntiFlat(imports, opts, w, |w|);
    ChangedIsWritten(mc, s, fn, w, per, o);
    var k :| 0 <= k < |w| && InRegion(mc, fn, w, k, o) && per[k] != [];
    AntiReported(imports, opts, w, |w|, k);
  }

  /** Every byte the NOP pass changes becomes a no-operation inside a filled,
      that is dead, instruction. */
  lemma JunkChangesFilled(mc: Machine, s: Bin, fn: u64, aggressive: bool, threshold: nat, o: nat)
    requires ReadsPrefix(mc.decode) && LinearFn(mc, s, fn) && o < |s.file|
    requires NopJunk(mc, s, fn, aggressive, threshold).0.file[o] != s.file[o]
    ensures var w := mc.Walk(s.file, fn, WALK_CAP);
            exists k :: 0 <= k < |w| && InRegion(mc, fn, w, k, o) && Filled(w, k)
  {
    hide Add64, Disp, Machine.DecodeAt, Machine.Walk, PokeAll, JunkEdits, Filled;
    var w := mc.Walk(s.file, fn, WALK_CAP);
    mc.WalkIsLaid(s.file, fn);
    var ws := Writes(JunkEdits(w, aggressive, threshold));
    JunkEditsFill(w, aggressive, threshold);
    if Misses(mc.layout, ws, o) {
      PokeAllMisses(mc.layout, s, ws, o);
      assert false;
    } else {
      var j :| 0 <= j < |ws| && mc.layout(ws[j].va) == Some(o);
      assert IsFill(w, ws[j]);
      var k: nat, b: nat :| FillsAt(w, ws[j], k, b);
      mc.InsnOffset(s.file, fn, w, k, b);
    }
  }
}
