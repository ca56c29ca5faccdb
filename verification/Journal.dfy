/** Bytes of a loaded image, the undo journal, and what a byte write does to
    both. */
module Journal {
  import opened Words
  import opened Image

  /** One byte changed since load. */
  datatype Rec = Rec(va: u64, offset: nat, before: byte, after: byte)

  /** The part of a loaded binary that patching changes: its bytes, the journal,
      whether the derived indexes are stale, and whether the background analysis
      still reads the bytes. */
  datatype Bin = Bin(file: seq<byte>, patches: seq<Rec>, dirty: bool, analysing: bool)

  datatype Write = Write(va: u64, value: byte)

  /** A write to an unmapped address does nothing; any other is journaled, after
      the background analysis has been stopped. */
  function Poke(m: Layout, s: Bin, w: Write): (s': Bin)
    ensures |s'.file| == |s.file| && s'.dirty == s.dirty
  {
    match m(w.va)
    case None => s
    case Some(off) =>
      if off >= |s.file| then s
      else s.(file := s.file[off := w.value],
              patches := s.patches + [Rec(w.va, off, s.file[off], w.value)],
              analysing := false)
  }

  function PokeAll(m: Layout, s: Bin, ws: seq<Write>): (s': Bin)
    ensures |s'.file| == |s.file| && s'.dirty == s.dirty
  {
    if ws == [] then s else Poke(m, PokeAll(m, s, ws[..|ws| - 1]), ws[|ws| - 1])
  }

  lemma PokeAllSnoc(m: Layout, s: Bin, ws: seq<Write>, w: Write)
    ensures PokeAll(m, s, ws + [w]) == Poke(m, PokeAll(m, s, ws), w)
  {
    assert (ws + [w])[..|ws|] == ws;
  }

  lemma PokeAllNothing(m: Layout, s: Bin)
    ensures PokeAll(m, s, []) == s
  {
  }

  /** One more write of a list being carried out in order. */
  lemma PokeAllNext(m: Layout, s: Bin, ws: seq<Write>, b: nat)
    requires b < |ws|
    ensures PokeAll(m, s, ws[..b + 1]) == Poke(m, PokeAll(m, s, ws[..b]), ws[b])
  {
    assert ws[..b + 1] == ws[..b] + [ws[b]];
    PokeAllSnoc(m, s, ws[..b], ws[b]);
  }

  lemma {:induction false} PokeAllConcat(m: Layout, s: Bin, a: seq<Write>, b: seq<Write>)
    ensures PokeAll(m, s, a + b) == PokeAll(m, PokeAll(m, s, a), b)
  {
    hide Poke;
    if b == [] {
      assert a + b == a;
    } else {
      var b0, w := b[..|b| - 1], b[|b| - 1];
      PokeAllConcat(m, s, a, b0);
      assert b == b0 + [w] && a + b == (a + b0) + [w];
      PokeAllSnoc(m, PokeAll(m, s, a), b0, w);
      PokeAllSnoc(m, s, a + b0, w);
    }
  }

  /** Writes `bytes` over the file from offset `off` on, journaling each byte.
      `quiet` says whether the analysis is stopped first. */
  function Overwrite(s: Bin, va: u64, off: nat, bytes: seq<byte>, quiet: bool): (s': Bin)
    requires off + |bytes| <= |s.file|
    ensures |s'.file| == |s.file|
  {
    s.(file := s.file[..off] + bytes + s.file[off + |bytes|..],
       patches := s.patches + seq(|bytes|, i requires 0 <= i < |bytes| =>
                                  Rec(Add64(va, i), off + i, s.file[off + i], bytes[i])),
       analysing := s.analysing && !quiet)
  }

  /** A write that reaches a byte of the file adds one record, of the address, the
      place, the byte before and the byte after. */
  lemma ByteRecorded(m: Layout, s: Bin, w: Write)
    ensures var s', at := Poke(m, s, w), m(w.va);
            if at.Some? && at.value < |s.file|
            then && |s'.patches| == |s.patches| + 1 && s.patches <= s'.patches
                 && var r := s'.patches[|s.patches|];
                    r.va == w.va && r.offset == at.value && r.before == s.file[r.offset] && r.after == s'.file[r.offset]
            else s' == s
  {
  }

  /** A range adds one record for each byte, in order. */
  lemma RangeRecorded(s: Bin, va: u64, off: nat, bytes: seq<byte>, quiet: bool)
    requires off + |bytes| <= |s.file|
    ensures var s' := Overwrite(s, va, off, bytes, quiet);
            && |s'.patches| == |s.patches| + |bytes| && s.patches <= s'.patches
            && forall j | |s.patches| <= j < |s'.patches| ::
                 var r, k := s'.patches[j], j - |s.patches|;
                 && r.va == (va + k) % 0x1_0000_0000_0000_0000 && r.offset == off + k
                 && r.before == s.file[off + k] && r.after == s'.file[off + k]
  {
  }

  /** Walks the journal backwards, restoring the byte each record displaced. */
  function Undo(file: seq<byte>, recs: seq<Rec>): (r: seq<byte>)
    ensures |r| == |file|
    decreases |recs|
  {
    if recs == [] then file
    else
      var last := recs[|recs| - 1];
      Undo(if last.offset < |file| then file[last.offset := last.before] else file, recs[..|recs| - 1])
  }

  /** Applies the journal forwards. */
  function Replay(base: seq<byte>, recs: seq<Rec>): (r: seq<byte>)
    ensures |r| == |base|
  {
    if recs == [] then base
    else
      var last := recs[|recs| - 1];
      var r := Replay(base, recs[..|recs| - 1]);
      if last.offset < |r| then r[last.offset := last.after] else r
  }

  /** The journal invariant: `recs` lists, oldest first, the writes that turned
      `base` into `file`, each with the byte it displaced. */
  ghost predicate Records(base: seq<byte>, recs: seq<Rec>, file: seq<byte>) {
    if recs == [] then file == base
    else
      var last := recs[|recs| - 1];
      && last.offset < |file|
      && file[last.offset] == last.after
      && Records(base, recs[..|recs| - 1], file[last.offset := last.before])
  }

  /** Replaying forwards gives the current file. */
  lemma {:induction false} RecordsReplay(base: seq<byte>, recs: seq<Rec>, file: seq<byte>)
    requires Records(base, recs, file)
    ensures Replay(base, recs) == file
  {
    if recs != [] {
      var last := recs[|recs| - 1];
      RecordsReplay(base, recs[..|recs| - 1], file[last.offset := last.before]);
      assert file[last.offset := last.before][last.offset := last.after] == file;
    }
  }

  /** Undoing backwards gives the base back, whatever the writes overlapped. */
  lemma {:induction false} RecordsUndo(base: seq<byte>, recs: seq<Rec>, file: seq<byte>)
    requires Records(base, recs, file)
    ensures Undo(file, recs) == base
  {
    if recs != [] {
      var last := recs[|recs| - 1];
      RecordsUndo(base, recs[..|recs| - 1], file[last.offset := last.before]);
    }
  }

  lemma PokeRecords(m: Layout, base: seq<byte>, s: Bin, w: Write)
    requires Records(base, s.patches, s.file)
    ensures Records(base, Poke(m, s, w).patches, Poke(m, s, w).file)
  {
    var s' := Poke(m, s, w);
    if s' != s {
      var last := s'.patches[|s'.patches| - 1];
      assert s'.patches[..|s'.patches| - 1] == s.patches;
      assert s'.file[last.offset := last.before] == s.file;
    }
  }

  lemma {:induction false} PokeAllRecords(m: Layout, base: seq<byte>, s: Bin, ws: seq<Write>)
    requires Records(base, s.patches, s.file)
    ensures Records(base, PokeAll(m, s, ws).patches, PokeAll(m, s, ws).file)
  {
    if ws != [] {
      var ws0 := ws[..|ws| - 1];
      PokeAllRecords(m, base, s, ws0);
      PokeRecords(m, base, PokeAll(m, s, ws0), ws[|ws| - 1]);
    }
  }

  /** A run of bytes is written one after the other. */
  lemma OverwriteStep(s: Bin, va: u64, off: nat, bytes: seq<byte>, quiet: bool)
    requires bytes != [] && off + |bytes| <= |s.file|
    ensures var n := |bytes| - 1;
            var t := Overwrite(s, va, off, bytes[..n], quiet);
            var s' := Overwrite(s, va, off, bytes, quiet);
            && t.file[off + n] == s.file[off + n]
            && s'.file == t.file[off + n := bytes[n]]
            && s'.patches == t.patches + [Rec(Add64(va, n), off + n, t.file[off + n], bytes[n])]
            && s'.(file := t.file, patches := t.patches) == t
  {
    hide Add64;
    var n := |bytes| - 1;
    var t := Overwrite(s, va, off, bytes[..n], quiet);
    assert t.file[off + n] == s.file[off + n];
    assert Overwrite(s, va, off, bytes, quiet).file == t.file[off + n := bytes[n]];
  }

  /** The same, for a run being written from the front. */
  lemma OverwriteNext(s: Bin, va: u64, off: nat, bytes: seq<byte>, i: nat, quiet: bool)
    requires i < |bytes| && off + |bytes| <= |s.file|
    ensures var t := Overwrite(s, va, off, bytes[..i], quiet);
            && t.file[off + i] == s.file[off + i]
            && Overwrite(s, va, off, bytes[..i + 1], quiet)
               == t.(file := t.file[off + i := bytes[i]],
                     patches := t.patches + [Rec(Add64(va, i), off + i, s.file[off + i], bytes[i])])
  {
    hide Overwrite, Add64;
    assert bytes[..i + 1][..i] == bytes[..i];
    OverwriteStep(s, va, off, bytes[..i + 1], quiet);
  }

  lemma {:induction false} OverwriteRecords(base: seq<byte>, s: Bin, va: u64, off: nat, bytes: seq<byte>, quiet: bool)
    requires off + |bytes| <= |s.file|
    requires Records(base, s.patches, s.file)
    ensures Records(base, Overwrite(s, va, off, bytes, quiet).patches, Overwrite(s, va, off, bytes, quiet).file)
  {
    hide Overwrite;
    if bytes == [] {
      OverwriteNothing(s, va, off, quiet);
    } else {
      var n := |bytes| - 1;
      var t := Overwrite(s, va, off, bytes[..n], quiet);
      OverwriteRecords(base, s, va, off, bytes[..n], quiet);
      OverwriteStep(s, va, off, bytes, quiet);
      assert t.file[off + n := bytes[n]][off + n := t.file[off + n]] == t.file;
    }
  }

  lemma OverwriteNothing(s: Bin, va: u64, off: nat, quiet: bool)
    requires off <= |s.file|
    ensures Overwrite(s, va, off, [], quiet) == s.(analysing := s.analysing && !quiet)
  {
    assert Overwrite(s, va, off, [], quiet).file == s.file;
  }

  lemma OverwriteRegion(s: Bin, va: u64, off: nat, bytes: seq<byte>, quiet: bool)
    requires off + |bytes| <= |s.file|
    ensures var s' := Overwrite(s, va, off, bytes, quiet);
            && s'.file[off..off + |bytes|] == bytes
            && s'.file[..off] == s.file[..off]
            && s'.file[off + |bytes|..] == s.file[off + |bytes|..]
            && |s'.patches| == |s.patches| + |bytes|
  {
  }

  /** Writing the old bytes back restores the file. */
  lemma OverwriteBack(s: Bin, va: u64, off: nat, bytes: seq<byte>, quiet: bool)
    requires off + |bytes| <= |s.file|
    ensures var s1 := Overwrite(s, va, off, bytes, quiet);
            var s2 := Overwrite(s1.(dirty := true), va, off, s.file[off..off + |bytes|], quiet);
            s2.file == s.file && |s2.patches| == |s.patches| + 2 * |bytes|
  {
    var s1 := Overwrite(s, va, off, bytes, quiet);
    OverwriteRegion(s, va, off, bytes, quiet);
    var region := s.file[off..off + |bytes|];
    assert s.file == s.file[..off] + region + s.file[off + |bytes|..];
    var s2 := Overwrite(s1.(dirty := true), va, off, region, quiet);
    assert s2.file == s1.file[..off] + region + s1.file[off + |bytes|..];
  }

  // ----- the byte a list of writes leaves at one offset

  /** No write of `ws` lands on file offset `o`. */
  ghost predicate Misses(m: Layout, ws: seq<Write>, o: nat) {
    forall k | 0 <= k < |ws| :: m(ws[k].va) != Some(o)
  }

  lemma {:induction false} PokeAllMisses(m: Layout, s: Bin, ws: seq<Write>, o: nat)
    requires o < |s.file| && Misses(m, ws, o)
    ensures PokeAll(m, s, ws).file[o] == s.file[o]
  {
    if ws != [] {
      PokeAllMisses(m, s, ws[..|ws| - 1], o);
      assert m(ws[|ws| - 1].va) != Some(o);
    }
  }

  /** The last write to land on an offset decides the byte there. */
  lemma {:induction false} PokeAllHits(m: Layout, s: Bin, ws: seq<Write>, o: nat, k: nat)
    requires o < |s.file| && k < |ws|
    requires m(ws[k].va) == Some(o)
    requires forall j | k < j < |ws| :: m(ws[j].va) == Some(o) ==> ws[j].value == ws[k].value
    ensures PokeAll(m, s, ws).file[o] == ws[k].value
  {
    var n := |ws| - 1;
    if k < n {
      PokeAllHits(m, s, ws[..n], o, k);
    }
  }

  /** The byte left at an offset depends only on the byte that was there. */
  lemma {:induction false} PokeAllAt(m: Layout, s: Bin, t: Bin, ws: seq<Write>, o: nat)
    requires o < |s.file| == |t.file| && s.file[o] == t.file[o]
    ensures PokeAll(m, s, ws).file[o] == PokeAll(m, t, ws).file[o]
  {
    if ws != [] {
      PokeAllAt(m, s, t, ws[..|ws| - 1], o);
    }
  }
}
