/** What each patch operation does, as a function of the image before it. The
    class in Patcher.dfy carries the operations out in place. */
module Passes {
  import opened Words
  import opened Image
  import opened Decoder
  import opened Journal

  datatype Action =
    | NopSled | DeadCode | ForceJmp | AntiDebugCall | IntTrap | RdtscTiming
    | XorRegion | RawWrite | Reverted

  /** One reported site; `count` is the number its report mentions. */
  datatype Hit = Hit(va: u64, action: Action, count: nat)

  /** A site together with the bytes written for it. */
  datatype Edit = Edit(hit: Hit, writes: seq<Write>)

  datatype OpError =
    | CannotDecode | BadSize | NotMapped | NoKey | AutoKeyFailed(best: nat) | UnknownMethod

  datatype OpResult =
    | Done(hits: seq<Hit>, bytesChanged: nat, key: Option<byte>)
    | Failed(error: OpError)

  function Hits(edits: seq<Edit>): (hs: seq<Hit>)
    ensures |hs| == |edits|
  {
    seq(|edits|, i requires 0 <= i < |edits| => edits[i].hit)
  }

  function Writes(edits: seq<Edit>): seq<Write> {
    if edits == [] then [] else Writes(edits[..|edits| - 1]) + edits[|edits| - 1].writes
  }

  lemma HitsSnoc(edits: seq<Edit>, e: Edit)
    ensures Hits(edits + [e]) == Hits(edits) + [e.hit]
  {
  }

  lemma WritesSnoc(edits: seq<Edit>, e: Edit)
    ensures Writes(edits + [e]) == Writes(edits) + e.writes
  {
    assert (edits + [e])[..|edits|] == edits;
  }

  lemma WritesNothing()
    ensures Writes([]) == [] && Hits([]) == []
  {
  }

  lemma OneEdit(e: Edit)
    ensures Writes([e]) == e.writes && Writes([]) == []
  {
    WritesSnoc([], e);
    assert [] + [e] == [e];
  }

  lemma HitsConcat(a: seq<Edit>, b: seq<Edit>)
    ensures Hits(a + b) == Hits(a) + Hits(b)
  {
  }

  lemma WritesConcatStep(a: seq<Edit>, b: seq<Edit>, e: Edit)
    requires Writes(a + b) == Writes(a) + Writes(b)
    ensures Writes(a + (b + [e])) == Writes(a) + Writes(b + [e])
  {
    hide Writes;
    assert a + (b + [e]) == (a + b) + [e];
    WritesSnoc(a + b, e);
    WritesSnoc(b, e);
  }

  lemma {:induction false} WritesConcat(a: seq<Edit>, b: seq<Edit>)
    ensures Writes(a + b) == Writes(a) + Writes(b)
  {
    if b == [] {
      assert a + b == a;
    } else {
      hide Writes;
      WritesConcat(a, b[..|b| - 1]);
      WritesConcatStep(a, b[..|b| - 1], b[|b| - 1]);
      assert b == b[..|b| - 1] + [b[|b| - 1]];
    }
  }

  /** Every pass ends alike: any reported site makes the indexes stale, and the
      changed-byte figure is the number of sites, dry run or not. */
  function Finish(s: Bin, hits: seq<Hit>): (Bin, OpResult) {
    (s.(dirty := s.dirty || hits != []), Done(hits, |hits|, None))
  }

  /** A no-operation over every byte of an instruction. */
  function Nops(insn: Insn): (ws: seq<Write>)
    ensures |ws| == insn.length
  {
    seq(insn.length, b => Write(Add64(insn.va, b), 0x90))
  }

  // ----- no-operation sleds and dead code

  /** Length of the run of no-operations that ends just before index `i`. */
  function NopRun(w: seq<Insn>, i: nat): (r: nat)
    requires i <= |w|
    ensures r <= i
    ensures forall k | i - r <= k < i :: w[k].mnemonic == Nop
    ensures r < i ==> w[i - r - 1].mnemonic != Nop
  {
    if i == 0 || w[i - 1].mnemonic != Nop then 0 else NopRun(w, i - 1) + 1
  }

  function ClampThreshold(t: nat): nat {
    if t < 2 then 2 else if t > 16 then 16 else t
  }

  /** Sleds are reported where they end, and only reported. */
  function Sleds(w: seq<Insn>, threshold: nat, n: nat): seq<Edit>
    requires n <= |w|
  {
    if n == 0 then []
    else
      var run := NopRun(w, n - 1);
      Sleds(w, threshold, n - 1) +
      if w[n - 1].mnemonic != Nop && run > threshold
      then [Edit(Hit(w[n - 1 - run].va, NopSled, run), [])]
      else []
  }

  /** Direct branch destinations of the walked instructions. */
  function Targets(w: seq<Insn>): set<u64> {
    set i | 0 <= i < |w| && w[i].relTarget.Some? :: w[i].relTarget.value
  }

  /** Control can continue with the next instruction. */
  predicate Falls(insn: Insn) {
    insn.flow in {NoFlow, Jcc, Call}
  }

  /** Most bytes one dead-code fill starts an instruction within. */
  const FILL_CAP: nat := 64

  /** An unreferenced instruction right after one that cannot fall through. */
  predicate DeadHead(w: seq<Insn>, targets: set<u64>, i: nat) {
    1 <= i < |w| && w[i].va !in targets && !Falls(w[i - 1])
  }

  /** A fill that began at `i` and has reached `j` goes on. */
  predicate FillGoesOn(w: seq<Insn>, targets: set<u64>, i: nat, j: nat, filled: nat) {
    j < |w| && filled < FILL_CAP && (w[j].va !in targets || j == i) && w[j].flow != Ret
  }

  /** Where the fill begun at `i` stops. */
  function FillEnd(w: seq<Insn>, targets: set<u64>, i: nat, j: nat, filled: nat): (e: nat)
    requires i <= j <= |w|
    ensures j <= e <= |w|
    ensures forall k | j <= k < e :: w[k].va !in targets || k == i
    decreases |w| - j
  {
    if FillGoesOn(w, targets, i, j, filled)
    then FillEnd(w, targets, i, j + 1, filled + w[j].length)
    else j
  }

  function NopsOver(w: seq<Insn>, i: nat, j: nat): seq<Write>
    requires i <= j <= |w|
  {
    if i == j then [] else NopsOver(w, i, j - 1) + Nops(w[j - 1])
  }

  function DeadEdit(w: seq<Insn>, targets: set<u64>, i: nat): Edit
    requires i < |w|
  {
    var e := FillEnd(w, targets, i, i, 0);
    DispMonotone(w, i, e);
    Edit(Hit(w[i].va, DeadCode, Disp(w, e) - Disp(w, i)), NopsOver(w, i, e))
  }

  lemma DeadEditHit(w: seq<Insn>, targets: set<u64>, i: nat)
    requires i < |w|
    ensures DeadEdit(w, targets, i).hit.va == w[i].va && DeadEdit(w, targets, i).hit.action == DeadCode
  {
  }

  function DeadEdits(w: seq<Insn>, targets: set<u64>, n: nat): seq<Edit>
    requires n <= |w|
  {
    if n == 0 then []
    else
      DeadEdits(w, targets, n - 1) +
      if DeadHead(w, targets, n - 1) then [DeadEdit(w, targets, n - 1)] else []
  }

  function JunkEdits(w: seq<Insn>, aggressive: bool, threshold: nat): seq<Edit> {
    Sleds(w, ClampThreshold(threshold), |w|) +
    if aggressive && |w| > 1 then DeadEdits(w, Targets(w), |w|) else []
  }

  function NopJunk(mc: Machine, s: Bin, fn: u64, aggressive: bool, threshold: nat): (Bin, OpResult) {
    var w := mc.Walk(s.file, fn, WALK_CAP);
    if w == [] then (s, Failed(CannotDecode))
    else
      var edits := JunkEdits(w, aggressive, threshold);
      Finish(PokeAll(mc.layout, s, Writes(edits)), Hits(edits))
  }

  // ----- opaque predicates

  /** XOR or TEST of a register with itself. */
  predicate IsSelfTest(insn: Insn) {
    && insn.mnemonic in {Xor, Test}
    && |insn.ops| >= 2
    && insn.ops[0].Reg? && insn.ops[1].Reg? && insn.ops[0].reg == insn.ops[1].reg
  }

  predicate OpaqueAt(w: seq<Insn>, i: nat) {
    1 <= i < |w| && w[i].flow == Jcc && IsSelfTest(w[i - 1])
  }

  /** The short form becomes a short jump, the near form a no-operation and a
      near jump; any other length is left alone. */
  function ForceWrites(insn: Insn): seq<Write> {
    if insn.length <= 2 then [Write(insn.va, 0xEB)]
    else if insn.length >= 5 && insn.bytes != [] && insn.bytes[0] == 0x0F
    then [Write(insn.va, 0x90), Write(Add64(insn.va, 1), 0xE9)]
    else []
  }

  function OpaqueEdits(w: seq<Insn>, n: nat): seq<Edit>
    requires n <= |w|
  {
    if n == 0 then []
    else
      OpaqueEdits(w, n - 1) +
      if OpaqueAt(w, n - 1) then [Edit(Hit(w[n - 1].va, ForceJmp, 0), ForceWrites(w[n - 1]))] else []
  }

  function Opaque(mc: Machine, s: Bin, fn: u64, dryRun: bool): (Bin, OpResult) {
    var w := mc.Walk(s.file, fn, WALK_CAP);
    if w == [] then (s, Failed(CannotDecode))
    else
      var edits := OpaqueEdits(w, |w|);
      Finish(if dryRun then s else PokeAll(mc.layout, s, Writes(edits)), Hits(edits))
  }

  // ----- anti-debug code

  datatype AntiOpts = AntiOpts(apiCalls: bool, intTraps: bool, timing: bool)

  /** Where the image's imports are and what they are called. */
  datatype Imports = Imports(base: u64, iat: map<u64, string>)

  const DEBUG_APIS: seq<string> := [
    "IsDebuggerPresent", "CheckRemoteDebuggerPresent",
    "NtQueryInformationProcess", "NtSetInformationThread",
    "OutputDebugString", "DbgBreakPoint", "DbgUiRemoteBreakin",
    "NtQuerySystemInformation"]

  predicate IsDebugApi(name: string) {
    exists k | 0 <= k < |DEBUG_APIS| :: Mentions(name, DEBUG_APIS[k])
  }

  /** The import slot an indirect call or jump goes through, 0 for none. */
  function Slot(imports: Imports, insn: Insn): u64 {
    var slot := if insn.ripRelTarget.Some? then insn.ripRelTarget.value else 0;
    if slot == 0 && |insn.ops| > 0 && insn.ops[0].Mem? && insn.ops[0].memBase == 0
    then Add64(imports.base, insn.ops[0].disp % TWO32)
    else slot
  }

  predicate GoesThroughSlot(imports: Imports, opts: AntiOpts, insn: Insn) {
    opts.apiCalls && insn.flow in {Call, Jmp} && Slot(imports, insn) != 0
  }

  /** `xor eax, eax` and no-operations up to the instruction's length. */
  function XorEax(insn: Insn): seq<Write> {
    [Write(insn.va, 0x31), Write(Add64(insn.va, 1), 0xC0)] +
    if insn.length > 2 then seq(insn.length - 2, b => Write(Add64(insn.va, b + 2), 0x90)) else []
  }

  function TrapEdits(opts: AntiOpts, insn: Insn): seq<Edit> {
    (if opts.intTraps && insn.mnemonic in {Int3, Int}
     then [Edit(Hit(insn.va, IntTrap, 0), Nops(insn))] else []) +
    (if opts.timing && insn.mnemonic == Rdtsc
     then [Edit(Hit(insn.va, RdtscTiming, 0), [Write(insn.va, 0x31), Write(Add64(insn.va, 1), 0xC0)])] else [])
  }

  function AntiEditsAt(imports: Imports, opts: AntiOpts, insn: Insn): seq<Edit> {
    if GoesThroughSlot(imports, opts, insn) then
      var slot := Slot(imports, insn);
      if slot in imports.iat && IsDebugApi(imports.iat[slot]) then
        [Edit(Hit(insn.va, AntiDebugCall, 0),
              if Mentions(imports.iat[slot], "IsDebuggerPresent") then XorEax(insn) else Nops(insn))] +
        TrapEdits(opts, insn)
      else []
    else TrapEdits(opts, insn)
  }

  function AntiEdits(imports: Imports, opts: AntiOpts, w: seq<Insn>, n: nat): seq<Edit>
    requires n <= |w|
  {
    if n == 0 then [] else AntiEdits(imports, opts, w, n - 1) + AntiEditsAt(imports, opts, w[n - 1])
  }

  function AntiDebug(mc: Machine, s: Bin, fn: u64, imports: Imports, opts: AntiOpts, dryRun: bool): (Bin, OpResult) {
    var w := mc.Walk(s.file, fn, WALK_CAP);
    var edits := AntiEdits(imports, opts, w, |w|);
    Finish(if dryRun then s else PokeAll(mc.layout, s, Writes(edits)), Hits(edits))
  }

  // ----- raw writes, revert, rebuild

  function WriteBytes(m: Layout, s: Bin, va: u64, bytes: seq<byte>): (Bin, OpResult) {
    match m(va)
    case None => (s, Failed(NotMapped))
    case Some(off) =>
      if off + |bytes| > |s.file| then (s, Failed(NotMapped))
      else (Overwrite(s, va, off, bytes, true).(dirty := true),
            Done([Hit(va, RawWrite, |bytes|)], |bytes|, None))
  }

  /** The flag afterwards says whether this call restored anything. */
  function RevertAll(s: Bin): (Bin, OpResult) {
    (Bin(Undo(s.file, s.patches), [], s.patches != [], s.analysing && s.patches == []),
     Done([Hit(0, Reverted, |s.patches|)], |s.patches|, None))
  }

  function Rebuild(mc: Machine, s: Bin, fn: u64): (Bin, Option<nat>) {
    var w := mc.Walk(s.file, fn, WALK_CAP);
    if w == [] then (s, None) else (s.(dirty := true), Some(|w|))
  }

  // ----- obfuscation score

  datatype Tally = Tally(selfTests: nat, junk: nat, indirect: nat, pushRets: nat)

  /** What instruction `i` adds to the tally; a no-operation adds nothing. */
  function TallyAt(w: seq<Insn>, i: nat): Tally
    requires i < |w|
  {
    if w[i].mnemonic == Nop then Tally(0, 0, 0, 0)
    else Tally(
      if OpaqueAt(w, i) then 1 else 0,
      if NopRun(w, i) >= 4 then 1 else 0,
      if w[i].flow == Jmp && w[i].relTarget == None then 1 else 0,
      if w[i].mnemonic == Push && i + 1 < |w| && w[i + 1].mnemonic == Return then 1 else 0)
  }

  function TallyUpTo(w: seq<Insn>, n: nat): Tally
    requires n <= |w|
  {
    if n == 0 then Tally(0, 0, 0, 0)
    else
      var t, u := TallyUpTo(w, n - 1), TallyAt(w, n - 1);
      Tally(t.selfTests + u.selfTests, t.junk + u.junk, t.indirect + u.indirect, t.pushRets + u.pushRets)
  }

  function Min(a: nat, b: nat): nat {
    if a <= b then a else b
  }

  function ScoreOf(t: Tally): nat {
    Min(Min(t.selfTests * 10, 25) + Min(t.junk * 8, 20) + Min(t.indirect * 15, 25)
        + (if t.pushRets > 0 then 15 else 0), 100)
  }

  /** A run of no-operations that reaches the end of the walk counts too. */
  function Score(w: seq<Insn>): nat {
    if w == [] then 0
    else
      var t := TallyUpTo(w, |w|);
      ScoreOf(t.(junk := t.junk + if NopRun(w, |w|) >= 4 then 1 else 0))
  }

  // ----- the whole pass

  datatype FullResult = FullResult(
    pre: nat, post: nat, bytesChanged: nat, opq: OpResult, junk: Option<OpResult>, anti: OpResult)

  function Changed(r: OpResult): nat {
    if r.Done? then r.bytesChanged else 0
  }

  const ALL_ANTI := AntiOpts(true, true, true)

  function FullPass(mc: Machine, s: Bin, fn: u64, imports: Imports, dryRun: bool): (Bin, FullResult) {
    var pre := Score(mc.Walk(s.file, fn, WALK_CAP));
    var (s1, opq) := Opaque(mc, s, fn, dryRun);
    var (s2, junk) :=
      if dryRun then (s1, None)
      else var (t, r) := NopJunk(mc, s1, fn, pre >= 50, 4); (t, Some(r));
    var (s3, anti) := AntiDebug(mc, s2, fn, imports, ALL_ANTI, dryRun);
    var post := if dryRun then pre else Score(mc.Walk(s3.file, fn, WALK_CAP));
    var bytes := (if junk.Some? then Changed(junk.value) else 0)
                 + (if dryRun then 0 else Changed(opq) + Changed(anti));
    (s3, FullResult(pre, post, bytes, opq, junk, anti))
  }
}
