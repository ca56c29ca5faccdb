/** Whole patching sessions: any sequence of operations on a loaded image. */
module Session {
  import opened Words
  import opened Image
  import opened Decoder
  import opened Journal
  import opened Passes
  import opened XorRegion
  import opened DeadCode

  datatype Op =
    | Junk(fn: u64, aggressive: bool, threshold: nat)
    | Opq(fn: u64, dryRun: bool)
    | Anti(fn: u64, opts: AntiOpts, dryRun: bool)
    | Xor(va: u64, size: nat, method_: string, keyText: string)
    | Raw(va: u64, bytes: seq<byte>)
    | Full(fn: u64, dryRun: bool)
    | Redo(fn: u64)          // re-decode; marks the indexes stale
    | Reindex                // the lazy rebuild: clears the mark, restarts the analysis
    | Revert

  function Step(mc: Machine, imports: Imports, s: Bin, op: Op): Bin {
    match op
    case Junk(fn, aggressive, threshold) => NopJunk(mc, s, fn, aggressive, threshold).0
    case Opq(fn, dryRun) => Opaque(mc, s, fn, dryRun).0
    case Anti(fn, opts, dryRun) => AntiDebug(mc, s, fn, imports, opts, dryRun).0
    case Xor(va, size, method_, keyText) => Unpack(mc.layout, s, va, size, method_, keyText).0
    case Raw(va, bytes) => WriteBytes(mc.layout, s, va, bytes).0
    case Full(fn, dryRun) => FullPass(mc, s, fn, imports, dryRun).0
    case Redo(fn) => Rebuild(mc, s, fn).0
    case Reindex => s.(dirty := false, analysing := true)
    case Revert => RevertAll(s).0
  }

  function Run(mc: Machine, imports: Imports, s: Bin, ops: seq<Op>): Bin {
    if ops == [] then s
    else Step(mc, imports, Run(mc, imports, s, ops[..|ops| - 1]), ops[|ops| - 1])
  }

  lemma PassRecords(mc: Machine, imports: Imports, base: seq<byte>, s: Bin, fn: u64, opts: AntiOpts,
                    aggressive: bool, threshold: nat, dryRun: bool)
    requires Records(base, s.patches, s.file)
    ensures var t := NopJunk(mc, s, fn, aggressive, threshold).0; Records(base, t.patches, t.file)
    ensures var t := Opaque(mc, s, fn, dryRun).0; Records(base, t.patches, t.file)
    ensures var t := AntiDebug(mc, s, fn, imports, opts, dryRun).0; Records(base, t.patches, t.file)
  {
    hide Records, Machine.Walk, JunkEdits, OpaqueEdits, AntiEdits, PokeAll, Writes;
    var w := mc.Walk(s.file, fn, WALK_CAP);
    PokeAllRecords(mc.layout, base, s, Writes(JunkEdits(w, aggressive, threshold)));
    PokeAllRecords(mc.layout, base, s, Writes(OpaqueEdits(w, |w|)));
    PokeAllRecords(mc.layout, base, s, Writes(AntiEdits(imports, opts, w, |w|)));
  }

  lemma UnpackRecords(m: Layout, base: seq<byte>, s: Bin, va: u64, size: nat, method_: string, keyText: string)
    requires Records(base, s.patches, s.file)
    ensures var t := Unpack(m, s, va, size, method_, keyText).0; Records(base, t.patches, t.file)
  {
    hide Records, Overwrite, ChooseKey, Unpacked;
    if Unpack(m, s, va, size, method_, keyText).1.Done? {
      var off := m(va).value;
      var region := s.file[off..off + size];
      var key := ChooseKey(region, method_, keyText).key;
      OverwriteRecords(base, s, va, off, Unpacked(region, method_, key).value, false);
    }
  }

  lemma WriteRecords(m: Layout, base: seq<byte>, s: Bin, va: u64, bytes: seq<byte>)
    requires Records(base, s.patches, s.file)
    ensures var t := WriteBytes(m, s, va, bytes).0; Records(base, t.patches, t.file)
  {
    hide Records, Overwrite;
    if WriteBytes(m, s, va, bytes).1.Done? {
      OverwriteRecords(base, s, va, m(va).value, bytes, true);
    }
  }

  lemma FullRecords(mc: Machine, imports: Imports, base: seq<byte>, s: Bin, fn: u64, dryRun: bool)
    requires Records(base, s.patches, s.file)
    ensures var t := FullPass(mc, s, fn, imports, dryRun).0; Records(base, t.patches, t.file)
  {
    hide Records, Machine.Walk, Score, NopJunk, Opaque, AntiDebug;
    var aggressive := Score(mc.Walk(s.file, fn, WALK_CAP)) >= 50;
    var s1 := Opaque(mc, s, fn, dryRun).0;
    PassRecords(mc, imports, base, s, fn, ALL_ANTI, aggressive, 4, dryRun);
    PassRecords(mc, imports, base, s1, fn, ALL_ANTI, aggressive, 4, dryRun);
    if !dryRun {
      PassRecords(mc, imports, base, NopJunk(mc, s1, fn, aggressive, 4).0, fn, ALL_ANTI, aggressive, 4, dryRun);
    }
  }

  /** Every operation keeps the journal in step with the image. */
  lemma StepRecords(mc: Machine, imports: Imports, base: seq<byte>, s: Bin, op: Op)
    requires Records(base, s.patches, s.file)
    ensures Records(base, Step(mc, imports, s, op).patches, Step(mc, imports, s, op).file)
  {
    hide Records, NopJunk, Opaque, AntiDebug, Unpack, WriteBytes, FullPass, Machine.Walk, Undo;
    match op
    case Junk(fn, aggressive, threshold) =>
      PassRecords(mc, imports, base, s, fn, ALL_ANTI, aggressive, threshold, false);
    case Opq(fn, dryRun) => PassRecords(mc, imports, base, s, fn, ALL_ANTI, false, 0, dryRun);
    case Anti(fn, opts, dryRun) => PassRecords(mc, imports, base, s, fn, opts, false, 0, dryRun);
    case Xor(va, size, method_, keyText) => UnpackRecords(mc.layout, base, s, va, size, method_, keyText);
    case Raw(va, bytes) => WriteRecords(mc.layout, base, s, va, bytes);
    case Full(fn, dryRun) => FullRecords(mc, imports, base, s, fn, dryRun);
    case Redo(fn) =>
    case Reindex =>
    case Revert =>
      RecordsUndo(base, s.patches, s.file);
      EmptyRecords(base);
  }

  /** Main result: over any session, however its writes overlap, the journal
      replayed forwards from the loaded image gives the current one, and
      reverting gives the loaded image back. */
  lemma {:induction false} SessionUndo(mc: Machine, imports: Imports, s: Bin, ops: seq<Op>)
    requires s.patches == []
    ensures var t := Run(mc, imports, s, ops);
            && Records(s.file, t.patches, t.file)
            && Replay(s.file, t.patches) == t.file
            && Step(mc, imports, t, Revert).file == s.file
            && Step(mc, imports, t, Revert).patches == []
  {
    hide Records, Undo, Replay;
    if ops == [] {
      assert Records(s.file, s.patches, s.file) by { EmptyRecords(s.file); }
    } else {
      SessionUndo(mc, imports, s, ops[..|ops| - 1]);
      hide Step;
      StepRecords(mc, imports, s.file, Run(mc, imports, s, ops[..|ops| - 1]), ops[|ops| - 1]);
    }
    var t := Run(mc, imports, s, ops);
    RecordsReplay(s.file, t.patches, t.file);
    RecordsUndo(s.file, t.patches, t.file);
    RevertIs(mc, imports, t);
  }

  lemma EmptyRecords(base: seq<byte>)
    ensures Records(base, [], base)
  {
  }

  lemma RevertIs(mc: Machine, imports: Imports, s: Bin)
    ensures Step(mc, imports, s, Revert)
            == Bin(Undo(s.file, s.patches), [], s.patches != [], s.analysing && s.patches == [])
  {
  }

  // ----- the derived indexes

  /** A session together with the bytes the indexes were last built from. */
  datatype Indexed = Indexed(bin: Bin, built: seq<byte>)

  function StepIndexed(mc: Machine, imports: Imports, x: Indexed, op: Op): Indexed {
    var t := Step(mc, imports, x.bin, op);
    Indexed(t, if op.Reindex? then t.file else x.built)
  }

  function RunIndexed(mc: Machine, imports: Imports, x: Indexed, ops: seq<Op>): Indexed
    decreases |ops|
  {
    if ops == [] then x else RunIndexed(mc, imports, StepIndexed(mc, imports, x, ops[0]), ops[1..])
  }

  /** What the mark promises: where it is clear, the indexes describe the bytes. */
  ghost predicate Current(x: Indexed) {
    !x.bin.dirty ==> x.built == x.bin.file
  }

  /** A revert with nothing to undo although the indexes are stale. */
  predicate Hides(x: Indexed, op: Op) {
    op.Revert? && x.bin.patches == [] && x.built != x.bin.file
  }

  /** Main result: an operation keeps the promise of the mark, unless it is a
      revert with an empty journal that meets stale indexes; and that one always
      breaks it. A caller is safe as long as it does not revert with an empty
      journal while the mark is set. */
  lemma StaysCurrentIff(mc: Machine, imports: Imports, x: Indexed, op: Op)
    requires Current(x)
    ensures Current(StepIndexed(mc, imports, x, op)) <==> !Hides(x, op)
    ensures !(op.Revert? && x.bin.patches == [] && x.bin.dirty) ==> Current(StepIndexed(mc, imports, x, op))
  {
  }

  lemma NothingToUndo(s: Bin)
    ensures s.patches == [] ==> RevertAll(s).0.file == s.file
  {
  }

  predicate NeverHides(mc: Machine, imports: Imports, x: Indexed, ops: seq<Op>)
    decreases |ops|
  {
    ops == [] || (!Hides(x, ops[0]) && NeverHides(mc, imports, StepIndexed(mc, imports, x, ops[0]), ops[1..]))
  }

  lemma {:induction false} SessionStaysCurrent(mc: Machine, imports: Imports, x: Indexed, ops: seq<Op>)
    requires Current(x) && NeverHides(mc, imports, x, ops)
    ensures Current(RunIndexed(mc, imports, x, ops))
    decreases |ops|
  {
    hide StepIndexed, Current, Hides;
    if ops != [] {
      StaysCurrentIff(mc, imports, x, ops[0]);
      SessionStaysCurrent(mc, imports, StepIndexed(mc, imports, x, ops[0]), ops[1..]);
    }
  }

  /** It does happen: change bytes, let the indexes be rebuilt, revert twice. The
      second revert finds nothing to undo and clears the mark the first one set,
      though the indexes still describe the changed bytes. */
  lemma SecondRevertHidesStale(mc: Machine, imports: Imports, s: Bin, va: u64, bytes: seq<byte>)
    requires s.patches == [] && !s.dirty
    requires WriteBytes(mc.layout, s, va, bytes).0.file != s.file
    ensures var x := Indexed(s, s.file);
            var rebuilt := StepIndexed(mc, imports, StepIndexed(mc, imports, x, Raw(va, bytes)), Reindex);
            var once := StepIndexed(mc, imports, rebuilt, Revert);
            var twice := StepIndexed(mc, imports, once, Revert);
            && Current(x) && Current(once) && once.bin.dirty
            && !twice.bin.dirty && twice.bin.file == s.file && twice.built != s.file
  {
    hide WriteBytes, Undo, Records;
    var t := WriteBytes(mc.layout, s, va, bytes).0;
    EmptyRecords(s.file);
    WriteRecords(mc.layout, s.file, s, va, bytes);
    RecordsUndo(s.file, t.patches, t.file);
    if t.patches == [] { RecordsReplay(s.file, t.patches, t.file); ReplayNothing(s.file); }
    NothingToUndo(Bin(s.file, [], true, false));
    NothingToUndo(Bin(s.file, [], true, true));
  }

  lemma ReplayNothing(base: seq<byte>)
    ensures Replay(base, []) == base
  {
  }

  // ----- the background analysis

  /** Whether an operation that changes bytes first stops the analysis. */
  ghost predicate QuietFrom(s: Bin, t: Bin) {
    t.file != s.file ==> !t.analysing
  }

  lemma {:induction false} PokeAllQuiet(m: Layout, s: Bin, ws: seq<Write>)
    ensures QuietFrom(s, PokeAll(m, s, ws))
    ensures PokeAll(m, s, ws).analysing ==> s.analysing
    ensures PokeAll(m, s, ws).analysing ==> PokeAll(m, s, ws).patches == s.patches
  {
    if ws != [] {
      PokeAllQuiet(m, s, ws[..|ws| - 1]);
    }
  }

  lemma PassQuiet(mc: Machine, imports: Imports, s: Bin, fn: u64, opts: AntiOpts,
                  aggressive: bool, threshold: nat, dryRun: bool)
    ensures var t := NopJunk(mc, s, fn, aggressive, threshold).0; QuietFrom(s, t) && (t.analysing ==> s.analysing)
    ensures var t := Opaque(mc, s, fn, dryRun).0; QuietFrom(s, t) && (t.analysing ==> s.analysing)
    ensures var t := AntiDebug(mc, s, fn, imports, opts, dryRun).0; QuietFrom(s, t) && (t.analysing ==> s.analysing)
  {
    hide Machine.Walk, JunkEdits, OpaqueEdits, AntiEdits, PokeAll, Writes;
    var w := mc.Walk(s.file, fn, WALK_CAP);
    PokeAllQuiet(mc.layout, s, Writes(JunkEdits(w, aggressive, threshold)));
    PokeAllQuiet(mc.layout, s, Writes(OpaqueEdits(w, |w|)));
    PokeAllQuiet(mc.layout, s, Writes(AntiEdits(imports, opts, w, |w|)));
  }

  lemma FullQuiet(mc: Machine, imports: Imports, s: Bin, fn: u64, dryRun: bool)
    ensures QuietFrom(s, FullPass(mc, s, fn, imports, dryRun).0)
  {
    hide Machine.Walk, Score, NopJunk, Opaque, AntiDebug;
    var aggressive := Score(mc.Walk(s.file, fn, WALK_CAP)) >= 50;
    var s1 := Opaque(mc, s, fn, dryRun).0;
    PassQuiet(mc, imports, s, fn, ALL_ANTI, aggressive, 4, dryRun);
    PassQuiet(mc, imports, s1, fn, ALL_ANTI, aggressive, 4, dryRun);
    PassQuiet(mc, imports, NopJunk(mc, s1, fn, aggressive, 4).0, fn, ALL_ANTI, aggressive, 4, dryRun);
  }

  lemma DirectQuiet(m: Layout, s: Bin, va: u64, bytes: seq<byte>, size: nat, method_: string, keyText: string)
    ensures QuietFrom(s, WriteBytes(m, s, va, bytes).0)
    ensures QuietFrom(s, RevertAll(s).0)
    ensures Unpack(m, s, va, size, method_, keyText).0.analysing == s.analysing
  {
    hide ChooseKey, Unpacked;
    assert s.patches == [] ==> Undo(s.file, s.patches) == s.file;
  }

  /** Every operation but XOR unpacking stops the analysis before it changes a
      byte; XOR unpacking never does. */
  lemma WritesAreQuiet(mc: Machine, imports: Imports, s: Bin, op: Op)
    ensures !op.Xor? ==> QuietFrom(s, Step(mc, imports, s, op))
    ensures op.Xor? ==> Step(mc, imports, s, op).analysing == s.analysing
  {
    hide NopJunk, Opaque, AntiDebug, Unpack, WriteBytes, RevertAll, FullPass, Machine.Walk;
    match op
    case Junk(fn, aggressive, threshold) => PassQuiet(mc, imports, s, fn, ALL_ANTI, aggressive, threshold, false);
    case Opq(fn, dryRun) => PassQuiet(mc, imports, s, fn, ALL_ANTI, false, 0, dryRun);
    case Anti(fn, opts, dryRun) => PassQuiet(mc, imports, s, fn, opts, false, 0, dryRun);
    case Full(fn, dryRun) => FullQuiet(mc, imports, s, fn, dryRun);
    case Xor(va, size, method_, keyText) => DirectQuiet(mc.layout, s, va, [], size, method_, keyText);
    case Raw(va, bytes) => DirectQuiet(mc.layout, s, va, bytes, 0, "", "");
    case Revert => DirectQuiet(mc.layout, s, 0, [], 0, "", "");
    case _ =>
  }
}
