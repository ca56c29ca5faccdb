/** Which bytes each rewriting pass changes: only bytes of the instructions it
    reports, and those become one of the shapes of `Redecode`. */
module Regions {
  import opened Words
  import opened Image
  import opened Decoder
  import opened Journal
  import opened Passes
  import opened DeadCode
  import opened Redecode

  /** A write to one of the bytes of an instruction. */
  ghost predicate Within(insn: Insn, x: Write) {
    exists b :: 0 <= b < insn.length && x.va == Add64(insn.va, b)
  }

  /** Each instruction's own writes, for the first `n` instructions. */
  function Flat(per: seq<seq<Write>>, n: nat): seq<Write>
    requires n <= |per|
  {
    if n == 0 then [] else Flat(per, n - 1) + per[n - 1]
  }

  /** A linear function with, per instruction, writes inside it. */
  ghost predicate Local(mc: Machine, file: seq<byte>, fn: u64, w: seq<Insn>, per: seq<seq<Write>>) {
    && mc.Laid(file, fn, w) && Linear(mc.layout, fn, Disp(w, |w|))
    && |per| == |w|
    && forall k, x | 0 <= k < |w| && x in per[k] :: Within(w[k], x)
  }

  /** File offsets of the `k`-th instruction's bytes. */
  ghost predicate InRegion(mc: Machine, fn: u64, w: seq<Insn>, k: nat, o: nat)
    requires k < |w| && mc.layout(fn).Some?
  {
    mc.layout(fn).value + Disp(w, k) <= o < mc.layout(fn).value + Disp(w, k) + w[k].length
  }

  /** Writes inside one instruction miss the bytes of every other. */
  lemma OthersMiss(mc: Machine, file: seq<byte>, fn: u64, w: seq<Insn>, per: seq<seq<Write>>, j: nat, o: nat)
    requires Local(mc, file, fn, w, per) && j < |w| && !InRegion(mc, fn, w, j, o)
    ensures Misses(mc.layout, per[j], o)
  {
    hide Add64, Disp, Machine.DecodeAt;
    forall i | 0 <= i < |per[j]|
      ensures mc.layout(per[j][i].va) != Some(o)
    {
      assert per[j][i] in per[j];
      var b :| 0 <= b < w[j].length && per[j][i].va == Add64(w[j].va, b);
      mc.InsnOffset(file, fn, w, j, b);
    }
  }

  /** A byte of instruction `k` ends up as that instruction's own writes leave
      it; with `k` equal to the number of instructions, a byte outside all of
      them is untouched. */
  lemma {:induction false} RegionAfter(mc: Machine, s: Bin, fn: u64, w: seq<Insn>,
                                       per: seq<seq<Write>>, n: nat, k: nat, o: nat)
    requires Local(mc, s.file, fn, w, per) && n <= |w| && k <= |w| && o < |s.file|
    requires forall j | 0 <= j < |w| && j != k :: !InRegion(mc, fn, w, j, o)
    ensures PokeAll(mc.layout, s, Flat(per, n)).file[o]
            == if k < n then PokeAll(mc.layout, s, per[k]).file[o] else s.file[o]
  {
    hide Add64, Disp, Machine.DecodeAt, Local, InRegion, Misses;
    if n == 0 {
      assert PokeAll(mc.layout, s, []) == s;
    } else {
      LocalBasics(mc, s.file, fn, w, per);
      RegionAfter(mc, s, fn, w, per, n - 1, k, o);
      var t := PokeAll(mc.layout, s, Flat(per, n - 1));
      PokeAllConcat(mc.layout, s, Flat(per, n - 1), per[n - 1]);
      if n - 1 == k {
        PokeAllAt(mc.layout, s, t, per[k], o);
      } else {
        OthersMiss(mc, s.file, fn, w, per, n - 1, o);
        PokeAllMisses(mc.layout, t, per[n - 1], o);
      }
    }
  }

  lemma LocalBasics(mc: Machine, file: seq<byte>, fn: u64, w: seq<Insn>, per: seq<seq<Write>>)
    requires Local(mc, file, fn, w, per)
    ensures |per| == |w| && mc.layout(fn).Some?
  {
  }

  /** Instructions do not overlap in the file. */
  lemma RegionsApart(mc: Machine, file: seq<byte>, fn: u64, w: seq<Insn>, per: seq<seq<Write>>, k: nat, o: nat)
    requires Local(mc, file, fn, w, per) && k < |w| && InRegion(mc, fn, w, k, o)
    ensures forall j | 0 <= j < |w| && j != k :: !InRegion(mc, fn, w, j, o)
  {
    hide Disp;
    forall j | 0 <= j < |w| && j != k
      ensures !InRegion(mc, fn, w, j, o)
    {
      if j < k { DispMonotone(w, j, k); } else { DispMonotone(w, k, j); }
    }
  }

  // ----- what each kind of edit leaves behind

  /** The bytes of instruction `k` after its own writes. */
  lemma InsnAfter(mc: Machine, s: Bin, fn: u64, w: seq<Insn>, per: seq<seq<Write>>, k: nat, b: nat)
    requires ReadsPrefix(mc.decode) && Local(mc, s.file, fn, w, per) && k < |w| && b < w[k].length
    ensures var o := mc.layout(fn).value + Disp(w, k) + b;
            && o < |s.file| && |w[k].bytes| == w[k].length && s.file[o] == w[k].bytes[b]
            && mc.layout(Add64(w[k].va, b)) == Some(o)
            && PokeAll(mc.layout, s, Flat(per, |w|)).file[o] == PokeAll(mc.layout, s, per[k]).file[o]
  {
    hide Add64, Disp, Machine.DecodeAt, PokeAll, Flat;
    assert mc.InsnAt(s.file, fn, w, k);
    mc.DecodedInsn(s.file, w[k].va);
    mc.InsnOffset(s.file, fn, w, k, 0);
    mc.InsnOffset(s.file, fn, w, k, b);
    var o := mc.layout(fn).value + Disp(w, k) + b;
    assert s.file[o] == s.file[o - b..o - b + w[k].length][b];
    RegionsApart(mc, s.file, fn, w, per, k, o);
    RegionAfter(mc, s, fn, w, per, |w|, k, o);
  }

  /** Writes `ws[j]` alone to the byte `b` of the instruction. */
  ghost predicate Sole(mc: Machine, ws: seq<Write>, j: nat, va: u64, b: nat) {
    && j < |ws| && ws[j].va == Add64(va, b)
    && forall i | j < i < |ws| :: mc.layout(ws[i].va) != mc.layout(ws[j].va)
  }

  lemma ByteWritten(mc: Machine, s: Bin, fn: u64, w: seq<Insn>, per: seq<seq<Write>>, k: nat, b: nat, j: nat)
    requires ReadsPrefix(mc.decode) && Local(mc, s.file, fn, w, per) && k < |w| && b < w[k].length
    requires Sole(mc, per[k], j, w[k].va, b)
    ensures var o := mc.layout(fn).value + Disp(w, k) + b;
            o < |s.file| && PokeAll(mc.layout, s, Flat(per, |w|)).file[o] == per[k][j].value
  {
    hide Add64, Disp, Machine.DecodeAt, PokeAll, Flat, Local;
    LocalBasics(mc, s.file, fn, w, per);
    InsnAfter(mc, s, fn, w, per, k, b);
    var o := mc.layout(fn).value + Disp(w, k) + b;
    PokeAllHits(mc.layout, s, per[k], o, j);
  }

  lemma ByteKept(mc: Machine, s: Bin, fn: u64, w: seq<Insn>, per: seq<seq<Write>>, k: nat, b: nat)
    requires ReadsPrefix(mc.decode) && Local(mc, s.file, fn, w, per) && k < |w| && b < w[k].length
    requires forall x | x in per[k] :: mc.layout(x.va) != mc.layout(Add64(w[k].va, b))
    ensures var o := mc.layout(fn).value + Disp(w, k) + b;
            && o < |s.file| && |w[k].bytes| == w[k].length
            && PokeAll(mc.layout, s, Flat(per, |w|)).file[o] == w[k].bytes[b]
  {
    hide Add64, Disp, Machine.DecodeAt, PokeAll, Flat, Local;
    InsnAfter(mc, s, fn, w, per, k, b);
    LocalBasics(mc, s.file, fn, w, per);
    forall i | 0 <= i < |per[k]|
      ensures mc.layout(per[k][i].va) != mc.layout(Add64(w[k].va, b))
    {
      assert per[k][i] in per[k];
    }
    PokeAllMisses(mc.layout, s, per[k], mc.layout(fn).value + Disp(w, k) + b);
  }

  /** Different bytes of an instruction have different offsets. */
  lemma BytesApart(mc: Machine, file: seq<byte>, fn: u64, w: seq<Insn>, k: nat, b: nat, c: nat)
    requires mc.Laid(file, fn, w) && Linear(mc.layout, fn, Disp(w, |w|))
    requires k < |w| && b < w[k].length && c < w[k].length && b != c
    ensures mc.layout(Add64(w[k].va, b)) != mc.layout(Add64(w[k].va, c))
  {
    hide Add64, Disp, Machine.DecodeAt;
    mc.InsnOffset(file, fn, w, k, b);
    mc.InsnOffset(file, fn, w, k, c);
  }

  /** The shape that a list of writes gives an instruction. */
  ghost predicate Gives(insn: Insn, ws: seq<Write>, shape: Shape) {
    match shape
    case Same => ws == []
    case AllNops => ws == Nops(insn)
    case ShortJmp => ws == [Write(insn.va, 0xEB)] && insn.length == 2
    case NearJmp => ws == [Write(insn.va, 0x90), Write(Add64(insn.va, 1), 0xE9)] && insn.length == 6
    case ZeroEax => ws == XorEax(insn) && insn.length >= 2
    case ZeroThenRest => ws == [Write(insn.va, 0x31), Write(Add64(insn.va, 1), 0xC0)] && insn.length >= 2
  }

  lemma GivesShape(mc: Machine, s: Bin, fn: u64, w: seq<Insn>, per: seq<seq<Write>>, k: nat, shape: Shape)
    requires ReadsPrefix(mc.decode) && Local(mc, s.file, fn, w, per) && k < |w|
    requires Gives(w[k], per[k], shape)
    ensures HasShape(PokeAll(mc.layout, s, Flat(per, |w|)).file, mc.layout(fn).value + Disp(w, k), w[k], shape)
  {
    hide Add64, Disp, Machine.DecodeAt, PokeAll, Flat, Linear;
    LocalBasics(mc, s.file, fn, w, per);
    var file', off, n := PokeAll(mc.layout, s, Flat(per, |w|)).file, mc.layout(fn).value + Disp(w, k), w[k].length;
    var ws, va := per[k], w[k].va;
    assert mc.InsnAt(s.file, fn, w, k);
    InsnAfter(mc, s, fn, w, per, k, n - 1);
    Add64Small(va, 0);
    match shape
    case Same =>
      forall o | off <= o < off + n
        ensures file'[o] == w[k].bytes[o - off]
      {
        ByteKept(mc, s, fn, w, per, k, o - off);
      }
      assert file'[off..off + n] == w[k].bytes;
    case AllNops =>
      forall o | off <= o < off + n
        ensures file'[o] == 0x90
      {
        NopsSole(mc, s.file, fn, w, k, o - off);
        ByteWritten(mc, s, fn, w, per, k, o - off, o - off);
      }
    case ShortJmp =>
      ByteWritten(mc, s, fn, w, per, k, 0, 0);
      BytesApart(mc, s.file, fn, w, k, 0, 1);
      ByteKept(mc, s, fn, w, per, k, 1);
    case NearJmp =>
      NearBytes(mc, s, fn, w, per, k);
    case ZeroThenRest =>
      RestBytes(mc, s, fn, w, per, k);
    case ZeroEax =>
      forall o | off <= o < off + n
        ensures file'[o] == ws[o - off].value
      {
        XorSole(mc, s.file, fn, w, k, o - off);
        ByteWritten(mc, s, fn, w, per, k, o - off, o - off);
      }
  }

  lemma NopsSole(mc: Machine, file: seq<byte>, fn: u64, w: seq<Insn>, k: nat, b: nat)
    requires mc.Laid(file, fn, w) && Linear(mc.layout, fn, Disp(w, |w|)) && k < |w| && b < w[k].length
    ensures Sole(mc, Nops(w[k]), b, w[k].va, b)
  {
    hide Add64, Disp, Machine.DecodeAt, Linear;
    forall i | b < i < w[k].length
      ensures mc.layout(Nops(w[k])[i].va) != mc.layout(Nops(w[k])[b].va)
    {
      BytesApart(mc, file, fn, w, k, b, i);
    }
  }

  lemma XorEaxAt(insn: Insn, b: nat)
    requires insn.length >= 2 && b < insn.length
    ensures |XorEax(insn)| == insn.length
    ensures XorEax(insn)[b] == Write(Add64(insn.va, b), if b == 0 then 0x31 else if b == 1 then 0xC0 else 0x90)
  {
    Add64Small(insn.va, 0);
  }

  lemma XorSole(mc: Machine, file: seq<byte>, fn: u64, w: seq<Insn>, k: nat, b: nat)
    requires mc.Laid(file, fn, w) && Linear(mc.layout, fn, Disp(w, |w|)) && k < |w|
    requires w[k].length >= 2 && b < w[k].length
    ensures Sole(mc, XorEax(w[k]), b, w[k].va, b)
    ensures XorEax(w[k])[b].value == if b == 0 then 0x31 else if b == 1 then 0xC0 else 0x90
  {
    hide Add64, Disp, Machine.DecodeAt, Linear, XorEax;
    XorEaxAt(w[k], b);
    forall i | b < i < w[k].length
      ensures mc.layout(XorEax(w[k])[i].va) != mc.layout(XorEax(w[k])[b].va)
    {
      XorEaxAt(w[k], i);
      BytesApart(mc, file, fn, w, k, b, i);
    }
  }

  lemma NearBytes(mc: Machine, s: Bin, fn: u64, w: seq<Insn>, per: seq<seq<Write>>, k: nat)
    requires ReadsPrefix(mc.decode) && Local(mc, s.file, fn, w, per) && k < |w|
    requires Gives(w[k], per[k], NearJmp)
    ensures HasShape(PokeAll(mc.layout, s, Flat(per, |w|)).file, mc.layout(fn).value + Disp(w, k), w[k], NearJmp)
  {
    hide Add64, Disp, Machine.DecodeAt, PokeAll, Flat, Linear;
    LocalBasics(mc, s.file, fn, w, per);
    var file', off := PokeAll(mc.layout, s, Flat(per, |w|)).file, mc.layout(fn).value + Disp(w, k);
    Add64Small(w[k].va, 0);
    InsnAfter(mc, s, fn, w, per, k, 5);
    BytesApart(mc, s.file, fn, w, k, 0, 1);
    ByteWritten(mc, s, fn, w, per, k, 0, 0);
    ByteWritten(mc, s, fn, w, per, k, 1, 1);
    forall o | off + 2 <= o < off + 6
      ensures file'[o] == w[k].bytes[o - off]
    {
      BytesApart(mc, s.file, fn, w, k, 0, o - off);
      BytesApart(mc, s.file, fn, w, k, 1, o - off);
      ByteKept(mc, s, fn, w, per, k, o - off);
    }
    assert file'[off + 2..off + 6] == w[k].bytes[2..6];
  }

  lemma RestBytes(mc: Machine, s: Bin, fn: u64, w: seq<Insn>, per: seq<seq<Write>>, k: nat)
    requires ReadsPrefix(mc.decode) && Local(mc, s.file, fn, w, per) && k < |w|
    requires Gives(w[k], per[k], ZeroThenRest)
    ensures HasShape(PokeAll(mc.layout, s, Flat(per, |w|)).file, mc.layout(fn).value + Disp(w, k), w[k], ZeroThenRest)
  {
    hide Add64, Disp, Machine.DecodeAt, PokeAll, Flat, Linear;
    LocalBasics(mc, s.file, fn, w, per);
    var file', off, n := PokeAll(mc.layout, s, Flat(per, |w|)).file, mc.layout(fn).value + Disp(w, k), w[k].length;
    Add64Small(w[k].va, 0);
    InsnAfter(mc, s, fn, w, per, k, n - 1);
    BytesApart(mc, s.file, fn, w, k, 0, 1);
    ByteWritten(mc, s, fn, w, per, k, 0, 0);
    ByteWritten(mc, s, fn, w, per, k, 1, 1);
    forall o | off + 2 <= o < off + n
      ensures file'[o] == w[k].bytes[o - off]
    {
      BytesApart(mc, s.file, fn, w, k, 0, o - off);
      BytesApart(mc, s.file, fn, w, k, 1, o - off);
      ByteKept(mc, s, fn, w, per, k, o - off);
    }
    assert file'[off + 2..off + n] == w[k].bytes[2..];
  }
}
