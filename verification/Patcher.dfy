/** The loaded image and the patch operations on it, carried out in place. Each
    operation leaves the state that its function in Passes or XorRegion gives,
    and keeps the journal able to undo everything since it was last empty. */
module Patcher {
  import opened Words
  import opened Hex
  import opened Image
  import opened Decoder
  import opened Journal
  import opened Passes
  import opened XorRegion
  import DeadCode

  class Patcher {
    const mc: Machine
    const imports: Imports
    const file: array<byte>
    var patches: seq<Rec>
    var indexesDirty: bool
    var analysing: bool
    ghost var pristine: seq<byte>   // the image when the journal was last empty
    ghost var raced: bool           // a byte was written while the background analysis read the image

    ghost function State(): (s: Bin)
      reads this, file
      ensures |s.file| == file.Length
    {
      Bin(file[..], patches, indexesDirty, analysing)
    }

    ghost predicate Valid()
      reads this, file
    {
      Records(pristine, patches, file[..])
    }

    constructor (mc: Machine, imports: Imports, image: array<byte>)
      ensures Valid() && this.mc == mc && this.imports == imports && file == image
      ensures pristine == image[..] && State() == Bin(image[..], [], false, true) && !raced
    {
      this.mc, this.imports, file := mc, imports, image;
      patches, indexesDirty, analysing := [], false, true;
      pristine, raced := image[..], false;
    }

    // ----- reading

    method DecodeFn(va: u64, max: nat) returns (out: seq<Insn>)
      ensures out == mc.Walk(file[..], va, max)
    {
      out := [];
      var cur := va;
      for i := 0 to max
        invariant mc.Walk(file[..], va, max) == out + mc.Walk(file[..], cur, max - i)
      {
        var off := mc.layout(cur);
        if off == None || off.value + WINDOW > file.Length {
          break;
        }
        var insn := mc.decode(cur, file[off.value..off.value + WINDOW]);
        assert file[..][off.value..off.value + WINDOW] == file[off.value..off.value + WINDOW];
        if insn == None || insn.value.length == 0 {
          break;
        }
        assert mc.DecodeAt(file[..], cur) == insn;
        out := out + [insn.value];
        cur := Add64(cur, insn.value.length);
      }
    }

    method Count(insns: seq<Insn>) returns (t: Tally, nopRun: nat)
      ensures t == TallyUpTo(insns, |insns|) && nopRun == NopRun(insns, |insns|)
    {
      var selfTests, junk, indirect, pushRets := 0, 0, 0, 0;
      nopRun := 0;
      for i := 0 to |insns|
        invariant TallyUpTo(insns, i) == Tally(selfTests, junk, indirect, pushRets)
        invariant nopRun == NopRun(insns, i)
      {
        var insn := insns[i];
        if insn.mnemonic == Nop {
          nopRun := nopRun + 1;
        } else {
          if nopRun >= 4 { junk := junk + 1; }
          nopRun := 0;
          if i > 0 && insn.flow == Jcc && IsSelfTest(insns[i - 1]) { selfTests := selfTests + 1; }
          if insn.flow == Jmp && insn.relTarget == None { indirect := indirect + 1; }
          if insn.mnemonic == Push && i + 1 < |insns| && insns[i + 1].mnemonic == Return {
            pushRets := pushRets + 1;
          }
        }
      }
      t := Tally(selfTests, junk, indirect, pushRets);
    }

    method ObfuscationScore(fn: u64) returns (score: nat)
      ensures score == Score(mc.Walk(file[..], fn, WALK_CAP))
    {
      hide Machine.Walk, TallyUpTo, NopRun;
      var insns := DecodeFn(fn, WALK_CAP);
      if insns == [] {
        return 0;
      }
      var t, nopRun := Count(insns);
      var junk := if nopRun >= 4 then t.junk + 1 else t.junk;
      score := Min(t.selfTests * 10, 25) + Min(junk * 8, 20) + Min(t.indirect * 15, 25);
      if t.pushRets > 0 { score := score + 15; }
      score := Min(score, 100);
    }

    // ----- single writes

    method Quiesce()
      modifies this`analysing
      ensures !analysing
    {
      analysing := false;
    }

    /** The only place where a byte of the image changes. */
    method SetByte(off: nat, value: byte)
      requires off < file.Length
      modifies this`raced, file
      ensures file[..] == old(file[..])[off := value] && raced == (old(raced) || analysing)
    {
      raced := raced || analysing;
      file[off] := value;
    }

    method Poke(va: u64, value: byte) returns (ok: bool)
      modifies this`patches, this`analysing, this`raced, file
      ensures raced == old(raced)
      ensures State() == Journal.Poke(mc.layout, old(State()), Write(va, value))
      ensures ok <==> mc.layout(va).Some? && mc.layout(va).value < file.Length
    {
      var off := mc.layout(va);
      if off == None || off.value >= file.Length {
        return false;
      }
      Quiesce();
      patches := patches + [Rec(va, off.value, file[off.value], value)];
      SetByte(off.value, value);
      return true;
    }

    method PokeNops(insn: Insn)
      modifies this`patches, this`analysing, this`raced, file
      ensures raced == old(raced)
      ensures State() == PokeAll(mc.layout, old(State()), Nops(insn))
    {
      hide PokeAll, Journal.Poke, Add64;
      ghost var s, ws := State(), Nops(insn);
      PokeAllNothing(mc.layout, s);
      assert ws[..0] == [];
      for b := 0 to insn.length
        invariant raced == old(raced)
        invariant State() == PokeAll(mc.layout, s, ws[..b])
      {
        PokeAllNext(mc.layout, s, ws, b);
        var _ := Poke(Add64(insn.va, b), 0x90);
      }
      assert ws[..insn.length] == ws;
    }

    method PokeXorEax(insn: Insn)
      modifies this`patches, this`analysing, this`raced, file
      ensures raced == old(raced)
      ensures State() == PokeAll(mc.layout, old(State()), XorEax(insn))
    {
      hide PokeAll, Journal.Poke, Add64;
      ghost var s, ws := State(), XorEax(insn);
      PokeAllNothing(mc.layout, s);
      assert ws[..0] == [];
      PokeAllNext(mc.layout, s, ws, 0);
      var _ := Poke(insn.va, 0x31);
      PokeAllNext(mc.layout, s, ws, 1);
      var _ := Poke(Add64(insn.va, 1), 0xC0);
      var b := 2;
      while b < insn.length
        invariant 2 <= b <= |ws|
        invariant raced == old(raced)
        invariant State() == PokeAll(mc.layout, s, ws[..b])
      {
        PokeAllNext(mc.layout, s, ws, b);
        var _ := Poke(Add64(insn.va, b), 0x90);
        b := b + 1;
      }
      assert ws[..b] == ws;
    }

    /** All passes end here: any site makes the indexes stale. */
    method Conclude(hits: seq<Hit>) returns (r: OpResult)
      modifies this`indexesDirty
      ensures (State(), r) == Finish(old(State()), hits)
    {
      if hits != [] { indexesDirty := true; }
      r := Done(hits, |hits|, None);
    }

    // ----- no-operation sleds and dead code

    method ReportSleds(insns: seq<Insn>, threshold: nat) returns (hits: seq<Hit>)
      ensures hits == Hits(Sleds(insns, threshold, |insns|))
    {
      hits := [];
      var run, runStart: u64 := 0, 0;
      for i := 0 to |insns|
        invariant run == NopRun(insns, i) && (run > 0 ==> runStart == insns[i - run].va)
        invariant hits == Hits(Sleds(insns, threshold, i))
      {
        if insns[i].mnemonic == Nop {
          if run == 0 { runStart := insns[i].va; }
          run := run + 1;
        } else {
          if run > threshold {
            HitsSnoc(Sleds(insns, threshold, i), Edit(Hit(runStart, NopSled, run), []));
            hits := hits + [Hit(runStart, NopSled, run)];
          }
          run := 0;
        }
      }
    }

    method CollectTargets(insns: seq<Insn>) returns (targets: set<u64>)
      ensures targets == Targets(insns)
    {
      targets := {};
      for i := 0 to |insns|
        invariant targets == set k | 0 <= k < i && insns[k].relTarget.Some? :: insns[k].relTarget.value
      {
        if insns[i].relTarget.Some? {
          targets := targets + {insns[i].relTarget.value};
        }
      }
    }

    /** Fills from a dead instruction up to the next one that is referenced or
        returns, and says how many bytes that was. */
    method FillDead(insns: seq<Insn>, targets: set<u64>, i: nat) returns (filled: nat)
      requires i < |insns|
      modifies this`patches, this`analysing, this`raced, file
      ensures raced == old(raced)
      ensures State() == PokeAll(mc.layout, old(State()), DeadEdit(insns, targets, i).writes)
      ensures filled == DeadEdit(insns, targets, i).hit.count
    {
      hide PokeAll, Journal.Poke, Nops;
      ghost var s := State();
      PokeAllNothing(mc.layout, s);
      filled := 0;
      var j := i;
      while FillGoesOn(insns, targets, i, j, filled)
        invariant i <= j <= |insns|
        invariant filled == Disp(insns, j) - Disp(insns, i)
        invariant FillEnd(insns, targets, i, i, 0) == FillEnd(insns, targets, i, j, filled)
        invariant raced == old(raced)
        invariant State() == PokeAll(mc.layout, s, NopsOver(insns, i, j))
        decreases |insns| - j
      {
        PokeAllConcat(mc.layout, s, NopsOver(insns, i, j), Nops(insns[j]));
        PokeNops(insns[j]);
        filled := filled + insns[j].length;
        j := j + 1;
      }
    }

    method FillDeadCode(insns: seq<Insn>) returns (hits: seq<Hit>)
      modifies this`patches, this`analysing, this`raced, file
      ensures raced == old(raced)
      ensures State() == PokeAll(mc.layout, old(State()), Writes(DeadEdits(insns, Targets(insns), |insns|)))
      ensures hits == Hits(DeadEdits(insns, Targets(insns), |insns|))
    {
      hide PokeAll, Journal.Poke, DeadEdit, Writes, Targets;
      ghost var s := State();
      PokeAllNothing(mc.layout, s);
      WritesNothing();
      hits := [];
      var targets := CollectTargets(insns);
      for i := 0 to |insns|
        invariant raced == old(raced)
        invariant State() == PokeAll(mc.layout, s, Writes(DeadEdits(insns, targets, i)))
        invariant hits == Hits(DeadEdits(insns, targets, i))
      {
        if DeadHead(insns, targets, i) {
          ghost var before, e := DeadEdits(insns, targets, i), DeadEdit(insns, targets, i);
          WritesSnoc(before, e);
          HitsSnoc(before, e);
          PokeAllConcat(mc.layout, s, Writes(before), e.writes);
          var filled := FillDead(insns, targets, i);
          DeadEditHit(insns, targets, i);
          hits := hits + [Hit(insns[i].va, DeadCode, filled)];
        } else {
          assert DeadEdits(insns, targets, i + 1) == DeadEdits(insns, targets, i);
        }
      }
    }

    method NopJunk(fn: u64, aggressive: bool, nopThreshold: nat) returns (r: OpResult)
      requires Valid()
      modifies this, file
      ensures Valid() && pristine == old(pristine) && raced == old(raced)
      ensures (State(), r) == Passes.NopJunk(mc, old(State()), fn, aggressive, nopThreshold)
    {
      hide PokeAll, Journal.Poke, DeadEdits, Writes, Machine.Walk, Sleds, Hits;
      ghost var s := State();
      var threshold := ClampThreshold(nopThreshold);
      var insns := DecodeFn(fn, WALK_CAP);
      if insns == [] {
        return Failed(CannotDecode);
      }
      ghost var sleds := Sleds(insns, threshold, |insns|);
      var hits := ReportSleds(insns, threshold);
      DeadCode.SledsWriteNothing(insns, threshold, |insns|);
      PokeAllNothing(mc.layout, s);
      if aggressive && |insns| > 1 {
        ghost var dead := DeadEdits(insns, Targets(insns), |insns|);
        WritesConcat(sleds, dead);
        HitsConcat(sleds, dead);
        assert [] + Writes(dead) == Writes(dead);
        var more := FillDeadCode(insns);
        hits := hits + more;
        assert JunkEdits(insns, aggressive, nopThreshold) == sleds + dead;
      } else {
        assert JunkEdits(insns, aggressive, nopThreshold) == sleds + [] == sleds;
      }
      PokeAllRecords(mc.layout, pristine, s, Writes(JunkEdits(insns, aggressive, nopThreshold)));
      r := Conclude(hits);
    }

    // ----- opaque predicates

    method ForceJump(insn: Insn)
      modifies this`patches, this`analysing, this`raced, file
      ensures raced == old(raced)
      ensures State() == PokeAll(mc.layout, old(State()), ForceWrites(insn))
    {
      hide PokeAll, Journal.Poke, Add64;
      ghost var s, ws := State(), ForceWrites(insn);
      PokeAllNothing(mc.layout, s);
      assert ws[..0] == [];
      if insn.length <= 2 {
        PokeAllNext(mc.layout, s, ws, 0);
        var _ := Poke(insn.va, 0xEB);
        assert ws[..1] == ws;
      } else if insn.length >= 5 && insn.bytes != [] && insn.bytes[0] == 0x0F {
        PokeAllNext(mc.layout, s, ws, 0);
        var _ := Poke(insn.va, 0x90);
        PokeAllNext(mc.layout, s, ws, 1);
        var _ := Poke(Add64(insn.va, 1), 0xE9);
        assert ws[..2] == ws;
      }
    }

    method ResolveOpaque(fn: u64, dryRun: bool) returns (r: OpResult)
      requires Valid()
      modifies this, file
      ensures Valid() && pristine == old(pristine) && raced == old(raced)
      ensures (State(), r) == Passes.Opaque(mc, old(State()), fn, dryRun)
      ensures dryRun ==> file[..] == old(file[..]) && patches == old(patches)
    {
      hide PokeAll, Journal.Poke, Writes, Machine.Walk, Hits, ForceWrites;
      ghost var s := State();
      var insns := DecodeFn(fn, WALK_CAP);
      if insns == [] {
        return Failed(CannotDecode);
      }
      PokeAllNothing(mc.layout, s);
      WritesNothing();
      var hits := [];
      for i := 0 to |insns|
        invariant raced == old(raced)
        invariant State() == if dryRun then s else PokeAll(mc.layout, s, Writes(OpaqueEdits(insns, i)))
        invariant hits == Hits(OpaqueEdits(insns, i))
        invariant pristine == old(pristine)
      {
        if OpaqueAt(insns, i) {
          ghost var before := OpaqueEdits(insns, i);
          ghost var e := Edit(Hit(insns[i].va, ForceJmp, 0), ForceWrites(insns[i]));
          WritesSnoc(before, e);
          HitsSnoc(before, e);
          if !dryRun {
            PokeAllConcat(mc.layout, s, Writes(before), e.writes);
            ForceJump(insns[i]);
          }
          hits := hits + [Hit(insns[i].va, ForceJmp, 0)];
        } else {
          assert OpaqueEdits(insns, i + 1) == OpaqueEdits(insns, i);
        }
      }
      PokeAllRecords(mc.layout, pristine, s, Writes(OpaqueEdits(insns, |insns|)));
      r := Conclude(hits);
    }

    // ----- anti-debug code

    method PatchOne(insn: Insn, opts: AntiOpts, dryRun: bool) returns (hits: seq<Hit>)
      modifies this`patches, this`analysing, this`raced, file
      ensures raced == old(raced)
      ensures State() == if dryRun then old(State())
                         else PokeAll(mc.layout, old(State()), Writes(AntiEditsAt(imports, opts, insn)))
      ensures hits == Hits(AntiEditsAt(imports, opts, insn))
    {
      hide PokeAll, Journal.Poke, Writes, Nops, XorEax, Mentions, Slot;
      ghost var s := State();
      PokeAllNothing(mc.layout, s);
      WritesNothing();
      hits := [];
      ghost var edits: seq<Edit> := [];
      if GoesThroughSlot(imports, opts, insn) {
        var slot := Slot(imports, insn);
        if slot !in imports.iat || !IsDebugApi(imports.iat[slot]) {
          return;
        }
        var name := imports.iat[slot];
        ghost var e := Edit(Hit(insn.va, AntiDebugCall, 0),
                            if Mentions(name, "IsDebuggerPresent") then XorEax(insn) else Nops(insn));
        if !dryRun {
          if Mentions(name, "IsDebuggerPresent") { PokeXorEax(insn); } else { PokeNops(insn); }
        }
        hits := [Hit(insn.va, AntiDebugCall, 0)];
        edits := [e];
        OneEdit(e);
        assert AntiEditsAt(imports, opts, insn) == [e] + TrapEdits(opts, insn);
      } else {
        assert AntiEditsAt(imports, opts, insn) == [] + TrapEdits(opts, insn);
      }
      var more := PatchTraps(insn, opts, dryRun);
      WritesConcat(edits, TrapEdits(opts, insn));
      HitsConcat(edits, TrapEdits(opts, insn));
      PokeAllConcat(mc.layout, s, Writes(edits), Writes(TrapEdits(opts, insn)));
      hits := hits + more;
    }

    method PatchTraps(insn: Insn, opts: AntiOpts, dryRun: bool) returns (hits: seq<Hit>)
      modifies this`patches, this`analysing, this`raced, file
      ensures raced == old(raced)
      ensures State() == if dryRun then old(State())
                         else PokeAll(mc.layout, old(State()), Writes(TrapEdits(opts, insn)))
      ensures hits == Hits(TrapEdits(opts, insn))
    {
      hide PokeAll, Journal.Poke, Writes, Nops, Add64;
      ghost var s := State();
      PokeAllNothing(mc.layout, s);
      WritesNothing();
      hits := [];
      ghost var edits: seq<Edit> := [];
      if opts.intTraps && insn.mnemonic in {Int3, Int} {
        if !dryRun { PokeNops(insn); }
        hits := [Hit(insn.va, IntTrap, 0)];
        edits := [Edit(hits[0], Nops(insn))];
        OneEdit(edits[0]);
      }
      if opts.timing && insn.mnemonic == Rdtsc {
        ghost var t := State();
        ghost var e := Edit(Hit(insn.va, RdtscTiming, 0), [Write(insn.va, 0x31), Write(Add64(insn.va, 1), 0xC0)]);
        if !dryRun {
          PokeAllNothing(mc.layout, t);
          assert e.writes[..0] == [] && e.writes[..2] == e.writes;
          PokeAllNext(mc.layout, t, e.writes, 0);
          var _ := Poke(insn.va, 0x31);
          PokeAllNext(mc.layout, t, e.writes, 1);
          var _ := Poke(Add64(insn.va, 1), 0xC0);
        }
        WritesSnoc(edits, e);
        HitsSnoc(edits, e);
        PokeAllConcat(mc.layout, s, Writes(edits), e.writes);
        hits := hits + [Hit(insn.va, RdtscTiming, 0)];
        edits := edits + [e];
      }
      assert edits == TrapEdits(opts, insn);
    }

    method PatchAntiDebug(fn: u64, opts: AntiOpts, dryRun: bool) returns (r: OpResult)
      requires Valid()
      modifies this, file
      ensures Valid() && pristine == old(pristine) && raced == old(raced)
      ensures (State(), r) == Passes.AntiDebug(mc, old(State()), fn, imports, opts, dryRun)
      ensures dryRun ==> file[..] == old(file[..]) && patches == old(patches)
    {
      hide PokeAll, Journal.Poke, Writes, Machine.Walk, Hits, AntiEditsAt;
      ghost var s := State();
      var insns := DecodeFn(fn, WALK_CAP);
      PokeAllNothing(mc.layout, s);
      WritesNothing();
      var hits := [];
      for i := 0 to |insns|
        invariant raced == old(raced)
        invariant State() == if dryRun then s
                             else PokeAll(mc.layout, s, Writes(AntiEdits(imports, opts, insns, i)))
        invariant hits == Hits(AntiEdits(imports, opts, insns, i))
        invariant pristine == old(pristine)
      {
        ghost var before, at := AntiEdits(imports, opts, insns, i), AntiEditsAt(imports, opts, insns[i]);
        WritesConcat(before, at);
        HitsConcat(before, at);
        PokeAllConcat(mc.layout, s, Writes(before), Writes(at));
        var more := PatchOne(insns[i], opts, dryRun);
        hits := hits + more;
      }
      PokeAllRecords(mc.layout, pristine, s, Writes(AntiEdits(imports, opts, insns, |insns|)));
      r := Conclude(hits);
    }

    // ----- raw writes, revert, rebuild

    /** One journaled write at a known offset. */
    method Record(va: u64, off: nat, value: byte)
      requires off < file.Length
      modifies this`patches, this`raced, file
      ensures State() == old(State()).(file := old(file[..])[off := value],
                                       patches := old(patches) + [Rec(va, off, old(file[off]), value)])
      ensures raced == (old(raced) || analysing)
    {
      patches := patches + [Rec(va, off, file[off], value)];
      SetByte(off, value);
    }

    method WriteBytes(va: u64, bytes: seq<byte>) returns (r: OpResult)
      requires Valid()
      modifies this, file
      ensures Valid() && pristine == old(pristine) && raced == old(raced)
      ensures (State(), r) == Passes.WriteBytes(mc.layout, old(State()), va, bytes)
      ensures r.Done? ==> !analysing && indexesDirty
    {
      hide Overwrite, Add64;
      var off := mc.layout(va);
      if off == None || off.value + |bytes| > file.Length {
        return Failed(NotMapped);
      }
      ghost var s, o := State(), off.value;
      OverwriteNothing(s, va, o, true);
      assert bytes[..0] == [];
      Quiesce();
      for i := 0 to |bytes|
        invariant raced == old(raced)
        invariant State() == Overwrite(s, va, o, bytes[..i], true)
        invariant pristine == old(pristine) && !analysing
      {
        OverwriteNext(s, va, o, bytes, i, true);
        Record(Add64(va, i), off.value + i, bytes[i]);
      }
      assert bytes[..|bytes|] == bytes;
      OverwriteRecords(pristine, s, va, o, bytes, true);
      indexesDirty := true;
      r := Done([Hit(va, RawWrite, |bytes|)], |bytes|, None);
    }

    /** Undoes every write since the journal was last empty. The stale flag is
        overwritten, not merged: with nothing to undo it is cleared. */
    method RevertAll() returns (r: OpResult)
      requires Valid()
      modifies this, file
      ensures Valid() && pristine == old(pristine) && raced == old(raced)
      ensures (State(), r) == Passes.RevertAll(old(State()))
      ensures file[..] == old(pristine) && patches == []
      ensures indexesDirty <==> old(patches) != []
    {
      ghost var s := State();
      RecordsUndo(pristine, patches, file[..]);
      if patches != [] { Quiesce(); }
      var k := |patches|;
      assert patches[..k] == patches;
      while k > 0
        invariant 0 <= k <= |patches| && patches == s.patches && pristine == old(pristine)
        invariant raced == old(raced)
        invariant Undo(file[..], patches[..k]) == Undo(s.file, s.patches)
        invariant analysing == (s.analysing && patches == [])
      {
        var rec := patches[k - 1];
        assert patches[..k][..k - 1] == patches[..k - 1];
        if rec.offset < file.Length {
          SetByte(rec.offset, rec.before);
        }
        k := k - 1;
      }
      var n := |patches|;
      patches := [];
      indexesDirty := n > 0;
      r := Done([Hit(0, Reverted, n)], n, None);
    }

    method Rebuild(fn: u64) returns (count: Option<nat>)
      requires Valid()
      modifies this`indexesDirty
      ensures Valid()
      ensures (State(), count) == Passes.Rebuild(mc, old(State()), fn)
    {
      var insns := DecodeFn(fn, WALK_CAP);
      if insns == [] {
        return None;
      }
      indexesDirty := true;
      count := Some(|insns|);
    }

    // ----- XOR regions

    static method ReadKey(text: string) returns (key: seq<byte>)
      ensures key == ParseKey(text)
    {
      hide IsHex, HexValue;
      var clean: string := "";
      assert text[..0] == [];
      for i := 0 to |text|
        invariant clean == HexDigits(text[..i])
      {
        assert text[..i + 1][..i] == text[..i];
        if IsHex(text[i]) { clean := clean + [text[i]]; }
      }
      assert text[..|text|] == text;
      key := ReadPairs(clean);
    }

    static method ReadPairs(clean: string) returns (key: seq<byte>)
      requires forall i | 0 <= i < |clean| :: IsHex(clean[i])
      ensures key == Pairs(clean)
    {
      hide IsHex, PairByte;
      key := [];
      if |clean| % 2 == 0 {
        for i := 0 to |clean| / 2
          invariant |key| == i
          invariant forall j | 0 <= j < i :: key[j] == Pairs(clean)[j]
        {
          key := key + [PairByte(clean[2 * i], clean[2 * i + 1])];
        }
      }
    }

    /** Tries every single-byte key on the start of the region. */
    static method FindKey(data: seq<byte>) returns (key: nat, score: nat)
      ensures key == BestKey(data, 256) && score == ProbeScore(data, key)
    {
      hide Mask, KeyScore;
      score := ScoreKey(data, 1);
      key := 1;
      for k := 2 to 256
        invariant key == BestKey(data, k) && score == ProbeScore(data, key)
      {
        var current := ScoreKey(data, k);
        if current > score {
          score, key := current, k;
        }
      }
    }

    static method ScoreKey(data: seq<byte>, k: nat) returns (score: nat)
      requires 1 <= k < 256
      ensures score == ProbeScore(data, k)
    {
      hide Mask;
      score := 0;
      for i := 0 to Min(|data|, PROBE)
        invariant score == KeyScore(data, k as byte, i)
      {
        if Mask(data[i], k as byte) in CODE_OPCODES { score := score + 1; }
      }
    }

    /** Writes the region's plain bytes over it, from the front. */
    method WriteCyclic(va: u64, off: nat, size: nat, key: seq<byte>)
      requires key != [] && off + size <= file.Length
      modifies this`patches, this`raced, file
      ensures State() == Overwrite(old(State()), va, off, Cyclic(old(file[off..off + size]), key), false)
      ensures raced == (old(raced) || (analysing && size > 0))
    {
      hide Overwrite, Add64, Mask, Cyclic;
      ghost var s := State();
      ghost var region := s.file[off..off + size];
      assert file[off..off + size] == region;
      ghost var out := Cyclic(region, key);
      OverwriteNothing(s, va, off, false);
      assert out[..0] == [] && s.(analysing := s.analysing && !false) == s;
      for i := 0 to size
        invariant raced == (old(raced) || (analysing && i > 0))
        invariant State() == Overwrite(s, va, off, out[..i], false)
        invariant forall o | off + i <= o < off + size :: file[o] == s.file[o]
      {
        OverwriteNext(s, va, off, out, i, false);
        CyclicAt(region, key, i);
        assert file[off + i] == s.file[off + i] == region[i];
        Record(Add64(va, i), off + i, Mask(file[off + i], key[i % |key|]));
      }
      assert out[..size] == out;
    }

    method WriteRolling(va: u64, off: nat, size: nat, key: byte)
      requires off + size <= file.Length
      modifies this`patches, this`raced, file
      ensures State() == Overwrite(old(State()), va, off, Rolling(old(file[off..off + size]), key), false)
      ensures raced == (old(raced) || (analysing && size > 0))
    {
      hide Overwrite, Add64, Mask, Rolling;
      ghost var s := State();
      ghost var region := s.file[off..off + size];
      assert file[off..off + size] == region;
      ghost var out := Rolling(region, key);
      OverwriteNothing(s, va, off, false);
      assert out[..0] == [] && s.(analysing := s.analysing && !false) == s;
      var rolling := key;
      for i := 0 to size
        invariant raced == (old(raced) || (analysing && i > 0))
        invariant State() == Overwrite(s, va, off, out[..i], false)
        invariant forall o | off + i <= o < off + size :: file[o] == s.file[o]
        invariant rolling == if i == 0 then key else region[i - 1]
      {
        OverwriteNext(s, va, off, out, i, false);
        RollingAt(region, key, i);
        var cur := file[off + i];
        assert cur == s.file[off + i] == region[i];
        Record(Add64(va, i), off + i, Mask(cur, rolling));
        rolling := cur;
      }
      assert out[..size] == out;
    }

    method WriteUnpacked(va: u64, off: nat, size: nat, method_: string, key: seq<byte>) returns (known: bool)
      requires key != [] && off + size <= file.Length
      modifies this`patches, this`raced, file
      ensures known <==> Unpacked(old(file[off..off + size]), method_, key).Some?
      ensures State() == if known then
                           Overwrite(old(State()), va, off, Unpacked(old(file[off..off + size]), method_, key).value,
                                     false)
                         else old(State())
      ensures raced == (old(raced) || (analysing && size > 0 && known))
    {
      hide Overwrite, Cyclic, Rolling;
      if method_ in CYCLIC_METHODS {
        WriteCyclic(va, off, size, key);
      } else if method_ == "xor_rolling" {
        WriteRolling(va, off, size, key[0]);
      } else {
        return false;
      }
      return true;
    }

    static method FindOrReadKey(region: seq<byte>, method_: string, keyText: string) returns (c: KeyChoice)
      ensures c == ChooseKey(region, method_, keyText)
    {
      hide ParseKey, BestKey, ProbeScore;
      var key := ReadKey(keyText);
      if method_ == "auto" {
        var k, score := FindKey(region);
        if score < MIN_SCORE {
          return NotChosen(AutoKeyFailed(score));
        }
        key := [k as byte];
      }
      c := if key == [] then NotChosen(NoKey) else Chosen(key);
    }

    /** Unlike every other write, this one leaves the background analysis
        running over the bytes it changes. */
    method UnpackXor(va: u64, size: nat, method_: string, keyText: string) returns (r: OpResult)
      requires Valid()
      modifies this, file
      ensures Valid() && pristine == old(pristine)
      ensures raced == (old(raced) || (analysing && r.Done?))
      ensures (State(), r) == Unpack(mc.layout, old(State()), va, size, method_, keyText)
      ensures analysing == old(analysing)
    {
      hide Overwrite, Unpacked, ChooseKey, Records;
      if size == 0 || size > MAX_REGION {
        return Failed(BadSize);
      }
      var off := mc.layout(va);
      if off == None || off.value + size > file.Length {
        return Failed(NotMapped);
      }
      ghost var s := State();
      ghost var region := s.file[off.value..off.value + size];
      assert file[off.value..off.value + size] == region;
      var choice := FindOrReadKey(file[off.value..off.value + size], method_, keyText);
      if choice.NotChosen? {
        return Failed(choice.error);
      }
      var key := choice.key;
      var known := WriteUnpacked(va, off.value, size, method_, key);
      if !known {
        return Failed(UnknownMethod);
      }
      OverwriteRecords(pristine, s, va, off.value, Unpacked(region, method_, key).value, false);
      indexesDirty := true;
      r := Done([Hit(va, XorRegion, 0)], size, if method_ == "auto" then Some(key[0]) else None);
    }

    // ----- the whole pass

    method FullPass(fn: u64, dryRun: bool) returns (r: FullResult)
      requires Valid()
      modifies this, file
      ensures Valid() && pristine == old(pristine) && raced == old(raced)
      ensures (State(), r) == Passes.FullPass(mc, old(State()), fn, imports, dryRun)
      ensures dryRun ==> file[..] == old(file[..]) && patches == old(patches) && r.post == r.pre
    {
      hide Machine.Walk, Passes.Opaque, Passes.NopJunk, Passes.AntiDebug, Score;
      var pre := ObfuscationScore(fn);
      var opq := ResolveOpaque(fn, dryRun);
      var junk: Option<OpResult> := None;
      if !dryRun {
        var j := NopJunk(fn, pre >= 50, 4);
        junk := Some(j);
      }
      var anti := PatchAntiDebug(fn, ALL_ANTI, dryRun);
      var bytes := if dryRun then 0 else Changed(opq) + Changed(anti);
      if junk.Some? { bytes := bytes + Changed(junk.value); }
      var post := pre;
      if !dryRun { post := ObfuscationScore(fn); }
      r := FullResult(pre, post, bytes, opq, junk, anti);
    }
  }
}
