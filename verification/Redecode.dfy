/** Decoding a function again after a pass has rewritten some of its
    instructions: every original instruction start is found again, and a forced
    jump goes where the conditional one went. */
module Redecode {
  import opened Words
  import opened Image
  import opened Decoder
  import opened Journal
  import opened Passes

  /** What the bytes of one instruction may have become. */
  datatype Shape = Same | AllNops | ShortJmp | NearJmp | ZeroEax | ZeroThenRest

  ghost predicate HasShape(file: seq<byte>, off: nat, insn: Insn, shape: Shape) {
    && off + insn.length <= |file| && |insn.bytes| == insn.length
    && match shape
       case Same => file[off..off + insn.length] == insn.bytes
       case AllNops => forall o | off <= o < off + insn.length :: file[o] == 0x90
       case ShortJmp => insn.length == 2 && file[off] == 0xEB && file[off + 1] == insn.bytes[1]
       case NearJmp => insn.length == 6 && file[off] == 0x90 && file[off + 1] == 0xE9
                       && file[off + 2..off + 6] == insn.bytes[2..6]
       case ZeroEax => insn.length >= 2 && file[off] == 0x31 && file[off + 1] == 0xC0
                       && forall o | off + 2 <= o < off + insn.length :: file[o] == 0x90
       case ZeroThenRest => insn.length >= 2 && file[off] == 0x31 && file[off + 1] == 0xC0
                            && file[off + 2..off + insn.length] == insn.bytes[2..]
  }

  /** How many instructions the reshaped bytes decode to. */
  function Pieces(shape: Shape, length: nat): nat {
    match shape
    case Same => 1
    case AllNops => length
    case ShortJmp => 1
    case NearJmp => 2
    case ZeroEax => if length >= 2 then length - 1 else 0
    case ZeroThenRest => if length == 2 then 1 else 2
  }

  function PieceCount(w: seq<Insn>, shapes: seq<Shape>, i: nat): nat
    requires |shapes| == |w| && i <= |w|
  {
    if i == 0 then 0 else PieceCount(w, shapes, i - 1) + Pieces(shapes[i - 1], w[i - 1].length)
  }

  /** The bytes at offsets `off` on are mapped at `va` on, each with a whole
      decoding window after it. */
  ghost predicate Mapped(mc: Machine, size: nat, va: u64, off: nat, n: nat) {
    forall b | 0 <= b < n :: MappedAt(mc, size, va, off, b)
  }

  ghost predicate MappedAt(mc: Machine, size: nat, va: u64, off: nat, b: nat) {
    mc.layout(Add64(va, b)) == Some(off + b) && off + b + WINDOW <= size
  }

  // ----- stepping over one reshaped instruction

  /** A time-stamp read of four bytes or more: what is left behind its first two
      bytes is still a read. */
  lemma RestIsRead(mc: Machine, file: seq<byte>, insn: Insn, va: u64, off: nat)
    requires ReadsPrefix(mc.decode) && DropsPrefix(mc.decode)
    requires IsRead(mc.decode, insn.va, insn.bytes) && insn.length == |insn.bytes| >= 4
    requires mc.layout(va) == Some(off) && off + WINDOW <= |file| && insn.length <= WINDOW
    requires file[off..off + insn.length - 2] == insn.bytes[2..]
    ensures var r := mc.DecodeAt(file, va);
            r.Some? && r.value.mnemonic == Rdtsc && r.value.length == insn.length - 2
  {
    var d, rest := mc.decode, insn.bytes[1..][1..];
    assert IsRead(d, va, insn.bytes[1..]);
    assert IsRead(d, va, rest);
    assert rest == insn.bytes[2..];
    var buf := file[off..off + WINDOW];
    assert buf[..|rest|] == file[off..off + |rest|];
    assert d(va, rest).value.bytes == rest[..|rest|] == rest;
    assert d(va, buf) == d(va, rest);
  }

  lemma ReadEndsIn31(d: Decode, x64: bool, va: u64, bytes: seq<byte>)
    requires ReadsPrefix(d) && FindsDecode(d, x64) && IsRead(d, va, bytes)
    ensures |bytes| >= 2 && bytes[|bytes| - 1] == 0x31
  {
    hide RelTarget, Sext8, Sext32;
    assert d(va, bytes).value.bytes == bytes[..|bytes|] == bytes;
  }

  /** Behind a read of three bytes one byte survives, opcode 31: an XOR with what
      follows. */
  lemma RestIsXor(mc: Machine, x64: bool, file: seq<byte>, va: u64, off: nat)
    requires ReadsPrefix(mc.decode) && FindsDecode(mc.decode, x64)
    requires mc.layout(va) == Some(off) && off < |file| && file[off] == 0x31
    ensures var r := mc.DecodeAt(file, va); r.Some? ==> r.value.length >= 2 && r.value.mnemonic == Xor
  {
    hide RelTarget, Sext8, Sext32;
    if mc.DecodeAt(file, va).Some? {
      mc.DecodedInsn(file, va);
      assert mc.DecodeAt(file, va).value.bytes[0] == file[off];
    }
  }

  lemma StepPlain(mc: Machine, x64: bool, file: seq<byte>, va: u64, off: nat)
    requires WritesDecode(mc.decode, x64)
    requires mc.layout(va) == Some(off) && off + WINDOW <= |file|
    ensures file[off] == 0x90 ==> IsPlain(mc.DecodeAt(file, va), 1, Nop)
    ensures file[off] == 0x31 && file[off + 1] == 0xC0 ==> IsPlain(mc.DecodeAt(file, va), 2, Xor)
    ensures file[off] == 0xEB ==>
              IsDirectJmp(mc.DecodeAt(file, va), 2, RelTarget(x64, va, 2, Sext8(file[off + 1])))
    ensures file[off] == 0xE9 ==>
              IsDirectJmp(mc.DecodeAt(file, va), 5, RelTarget(x64, va, 5, Sext32(file[off + 1..off + 5])))
  {
    hide RelTarget, Sext8, Sext32;
    var buf := file[off..off + WINDOW];
    assert mc.DecodeAt(file, va) == mc.DecodeAt(file, va);
    SliceOfSlice(file, off, off + WINDOW, 1, 5);
  }

  lemma {:induction false} StepNops(mc: Machine, x64: bool, file: seq<byte>, va: u64, off: nat, n: nat)
    requires WritesDecode(mc.decode, x64)
    requires Mapped(mc, |file|, va, off, n) && off + n <= |file|
    requires forall o | off <= o < off + n :: file[o] == 0x90
    ensures mc.Steps(file, va, n) == Some(Add64(va, n))
  {
    hide Add64, WritesDecode, Machine.DecodeAt;
    if n == 0 {
      Add64Small(va, 0);
    } else {
      StepNops(mc, x64, file, va, off, n - 1);
      assert MappedAt(mc, |file|, va, off, n - 1);
      StepPlain(mc, x64, file, Add64(va, n - 1), off + (n - 1));
      Add64Assoc(va, n - 1, 1);
    }
  }

  /** Stepping once. */
  lemma StepOne(mc: Machine, file: seq<byte>, va: u64)
    requires mc.DecodeAt(file, va).Some?
    ensures mc.Steps(file, va, 1) == Some(Add64(va, mc.DecodeAt(file, va).value.length))
  {
    hide Add64, Machine.DecodeAt;
    assert mc.Steps(file, va, 0) == Some(va);
  }

  /** The reshaped bytes decode, in `Pieces` steps, to exactly the bytes of the
      original instruction. */
  lemma StepShape(mc: Machine, x64: bool, file: seq<byte>, insn: Insn, off: nat, shape: Shape)
    requires ReadsPrefix(mc.decode) && WritesDecode(mc.decode, x64)
    requires HasShape(file, off, insn, shape) && insn.length >= 1
    requires Mapped(mc, |file|, insn.va, off, insn.length)
    requires shape == Same ==> mc.DecodeAt(file, insn.va) == Some(insn)
    requires shape == ZeroThenRest ==>
               && DropsPrefix(mc.decode) && IsRead(mc.decode, insn.va, insn.bytes)
               && insn.length <= WINDOW && insn.length != 3
    ensures mc.Steps(file, insn.va, Pieces(shape, insn.length)) == Some(Add64(insn.va, insn.length))
  {
    hide Add64, WritesDecode, ReadsPrefix, DropsPrefix, IsRead, Machine.DecodeAt, RelTarget, Sext8, Sext32;
    var va, n := insn.va, insn.length;
    Add64Small(va, 0);
    assert MappedAt(mc, |file|, va, off, 0);
    match shape
    case Same => StepOne(mc, file, va);
    case AllNops => StepNops(mc, x64, file, va, off, n);
    case ShortJmp =>
      StepPlain(mc, x64, file, va, off);
      StepOne(mc, file, va);
    case NearJmp =>
      assert MappedAt(mc, |file|, va, off, 1);
      StepPlain(mc, x64, file, va, off);
      StepPlain(mc, x64, file, Add64(va, 1), off + 1);
      StepOne(mc, file, va);
      StepOne(mc, file, Add64(va, 1));
      mc.StepsAdd(file, va, 1, 1);
      Add64Assoc(va, 1, 5);
    case ZeroEax =>
      StepPlain(mc, x64, file, va, off);
      StepOne(mc, file, va);
      var (va2, off2) := (Add64(va, 2), off + 2);
      forall b | 0 <= b < n - 2
        ensures MappedAt(mc, |file|, va2, off2, b)
      {
        Add64Assoc(va, 2, b);
        assert MappedAt(mc, |file|, va, off, 2 + b);
      }
      StepNops(mc, x64, file, va2, off2, n - 2);
      mc.StepsAdd(file, va, 1, n - 2);
      Add64Assoc(va, 2, n - 2);
    case ZeroThenRest =>
      StepPlain(mc, x64, file, va, off);
      StepOne(mc, file, va);
      if n > 2 {
        assert MappedAt(mc, |file|, va, off, 2);
        RestIsRead(mc, file, insn, Add64(va, 2), off + 2);
        StepOne(mc, file, Add64(va, 2));
        mc.StepsAdd(file, va, 1, 1);
        Add64Assoc(va, 2, n - 2);
      }
  }

  // ----- the whole function

  /** `file'` is `file` with each instruction of `w` reshaped. */
  ghost predicate Reshaped(mc: Machine, file: seq<byte>, file': seq<byte>, fn: u64, w: seq<Insn>, shapes: seq<Shape>) {
    && mc.Laid(file, fn, w) && Linear(mc.layout, fn, Disp(w, |w|))
    && |file'| == |file| && |shapes| == |w|
    && (forall k | 0 <= k < |w| :: HasShape(file', mc.layout(fn).value + Disp(w, k), w[k], shapes[k]))
    && (forall k | 0 <= k < |w| && shapes[k] == ZeroThenRest :: IsRead(mc.decode, w[k].va, w[k].bytes))
  }

  /** The instruction after the `k`-th does not start where it did. */
  predicate Loses(w: seq<Insn>, shapes: seq<Shape>, k: nat)
    requires k < |w| == |shapes|
  {
    shapes[k] == ZeroThenRest && w[k].length == 3
  }

  predicate NoneLost(w: seq<Insn>, shapes: seq<Shape>, i: nat)
    requires i <= |w| == |shapes|
  {
    forall k | 0 <= k < i :: !Loses(w, shapes, k)
  }

  /** Where the next instruction starts there is still a window to decode, so
      all bytes of this one have a window too. */
  lemma InsnMapped(mc: Machine, file: seq<byte>, fn: u64, w: seq<Insn>, i: nat)
    requires ReadsPrefix(mc.decode) && mc.Laid(file, fn, w) && Linear(mc.layout, fn, Disp(w, |w|))
    requires i + 1 < |w|
    ensures Mapped(mc, |file|, w[i].va, mc.layout(fn).value + Disp(w, i), w[i].length)
  {
    hide Add64, Disp, Machine.DecodeAt;
    assert mc.InsnAt(file, fn, w, i + 1);
    mc.DecodedInsn(file, w[i + 1].va);
    mc.InsnOffset(file, fn, w, i + 1, 0);
    DispMonotone(w, i, i + 1);
    var off := mc.layout(fn).value + Disp(w, i);
    forall b | 0 <= b < w[i].length
      ensures MappedAt(mc, |file|, w[i].va, off, b)
    {
      mc.InsnOffset(file, fn, w, i, b);
    }
  }

  lemma SameShapeDecodes(mc: Machine, file: seq<byte>, file': seq<byte>, fn: u64, w: seq<Insn>,
                         shapes: seq<Shape>, i: nat)
    requires ReadsPrefix(mc.decode) && Reshaped(mc, file, file', fn, w, shapes)
    requires i < |w| && shapes[i] == Same
    ensures mc.DecodeAt(file', w[i].va) == Some(w[i])
  {
    hide Add64, Disp, Machine.DecodeAt;
    assert mc.InsnAt(file, fn, w, i);
    mc.DecodedInsn(file, w[i].va);
    mc.InsnOffset(file, fn, w, i, 0);
    mc.SameBytesSameInsn(file, file', w[i].va);
  }

  /** Stepping through the reshaped function reaches every original start up to
      the first one lost. */
  lemma {:induction false} StepsReachStarts(mc: Machine, x64: bool, file: seq<byte>, file': seq<byte>,
                                            fn: u64, w: seq<Insn>, shapes: seq<Shape>, i: nat)
    requires ReadsPrefix(mc.decode) && WritesDecode(mc.decode, x64) && DropsPrefix(mc.decode)
    requires Reshaped(mc, file, file', fn, w, shapes) && i < |w| && NoneLost(w, shapes, i)
    ensures mc.Steps(file', fn, PieceCount(w, shapes, i)) == Some(w[i].va)
  {
    hide Add64, WritesDecode, ReadsPrefix, DropsPrefix, IsRead, Machine.DecodeAt, Disp, HasShape;
    assert mc.InsnAt(file, fn, w, i);
    if i == 0 {
      Add64Small(fn, 0);
      assert Disp(w, 0) == 0 by { FirstDisp(w); }
    } else {
      StepsReachStarts(mc, x64, file, file', fn, w, shapes, i - 1);
      var off := mc.layout(fn).value + Disp(w, i - 1);
      InsnMapped(mc, file, fn, w, i - 1);
      assert !Loses(w, shapes, i - 1);
      assert mc.InsnAt(file, fn, w, i - 1);
      if shapes[i - 1] == Same { SameShapeDecodes(mc, file, file', fn, w, shapes, i - 1); }
      StepShape(mc, x64, file', w[i - 1], off, shapes[i - 1]);
      mc.StepsAdd(file', fn, PieceCount(w, shapes, i - 1), Pieces(shapes[i - 1], w[i - 1].length));
      mc.NextInsn(file, fn, w, i - 1);
    }
  }

  lemma FirstDisp(w: seq<Insn>)
    ensures Disp(w, 0) == 0
  {
  }

  /** The first piece of every shape decodes. */
  lemma StartDecodes(mc: Machine, x64: bool, file: seq<byte>, file': seq<byte>,
                     fn: u64, w: seq<Insn>, shapes: seq<Shape>, i: nat)
    requires ReadsPrefix(mc.decode) && WritesDecode(mc.decode, x64)
    requires Reshaped(mc, file, file', fn, w, shapes) && i < |w|
    ensures mc.DecodeAt(file', w[i].va).Some?
  {
    hide Add64, WritesDecode, Machine.DecodeAt, Disp, RelTarget, Sext8, Sext32;
    assert mc.InsnAt(file, fn, w, i);
    mc.DecodedInsn(file, w[i].va);
    mc.InsnOffset(file, fn, w, i, 0);
    var off := mc.layout(w[i].va).value;
    assert HasShape(file', off, w[i], shapes[i]);
    if shapes[i] == Same {
      SameShapeDecodes(mc, file, file', fn, w, shapes, i);
    } else {
      StepPlain(mc, x64, file', w[i].va, off);
    }
  }

  /** Decoding again finds every original start up to the first one lost, as
      instruction number `PieceCount`, unless the cap cuts the walk off before. */
  lemma RewalkKeepsStart(mc: Machine, x64: bool, file: seq<byte>, file': seq<byte>,
                         fn: u64, w: seq<Insn>, shapes: seq<Shape>, i: nat)
    requires ReadsPrefix(mc.decode) && WritesDecode(mc.decode, x64) && DropsPrefix(mc.decode)
    requires Reshaped(mc, file, file', fn, w, shapes) && i < |w| && NoneLost(w, shapes, i)
    ensures var w', k := mc.Walk(file', fn, WALK_CAP), PieceCount(w, shapes, i);
            && (k < |w'| <==> k < WALK_CAP)
            && (k < WALK_CAP ==> w'[k].va == w[i].va)
  {
    hide Add64, WritesDecode, DropsPrefix, NoneLost, Machine.DecodeAt, Machine.Walk, PieceCount;
    StepsReachStarts(mc, x64, file, file', fn, w, shapes, i);
    StartDecodes(mc, x64, file, file', fn, w, shapes, i);
    mc.WalkSteps(file', fn, WALK_CAP, PieceCount(w, shapes, i));
    mc.DecodedInsn(file', w[i].va);
  }

  // ----- a start that is lost

  lemma {:induction false} PiecesFit(w: seq<Insn>, shapes: seq<Shape>, i: nat)
    requires i <= |w| == |shapes|
    requires forall k | 0 <= k < |w| :: Pieces(shapes[k], w[k].length) <= w[k].length
    ensures PieceCount(w, shapes, i) <= Disp(w, i)
  {
    hide Pieces;
    if i > 0 {
      PiecesFit(w, shapes, i - 1);
      assert Pieces(shapes[i - 1], w[i - 1].length) <= w[i - 1].length;
    }
  }

  lemma PieceFits(file: seq<byte>, insn: Insn, off: nat, shape: Shape)
    requires insn.length >= 1 && HasShape(file, off, insn, shape)
    ensures Pieces(shape, insn.length) <= insn.length
  {
  }

  /** The `n`-th instruction of a walk of any length sits `Disp` bytes after the
      start, and a walk of the usual length is the front of it. */
  lemma LongWalk(mc: Machine, file: seq<byte>, fn: u64, max: nat, n: nat)
    requires ReadsPrefix(mc.decode) && WALK_CAP <= max && n < |mc.Walk(file, fn, WALK_CAP)|
    ensures n < |mc.Walk(file, fn, max)| && mc.Walk(file, fn, WALK_CAP)[n] == mc.Walk(file, fn, max)[n]
    ensures mc.Walk(file, fn, max)[n].va == Add64(fn, Disp(mc.Walk(file, fn, max), n))
  {
    hide Add64, Machine.Walk, Machine.DecodeAt, Disp;
    mc.WalkSteps(file, fn, WALK_CAP, n);
    mc.WalkSteps(file, fn, max, n);
    mc.WalkDisp(file, fn, max, n);
    mc.DecodedInsn(file, mc.Steps(file, fn, n).value);
  }

  lemma {:induction false} WalkLengths(mc: Machine, file: seq<byte>, va: u64, max: nat)
    requires ReadsPrefix(mc.decode)
    ensures forall n | 0 <= n < |mc.Walk(file, va, max)| :: 1 <= mc.Walk(file, va, max)[n].length <= 15
    decreases max
  {
    hide Add64, Machine.DecodeAt;
    if max > 0 {
      match mc.DecodeAt(file, va)
      case None =>
      case Some(insn) =>
        mc.DecodedInsn(file, va);
        WalkLengths(mc, file, Add64(va, insn.length), max - 1);
    }
  }

  /** Two places of a function, less than the address space apart. */
  lemma SamePlace(fn: u64, a: nat, b: nat)
    requires a < TWO64 && b < TWO64 && Add64(fn, a) == Add64(fn, b)
    ensures a == b
  {
    Add64Injective(fn, a, b);
  }

  /** Steps of the long walk that follow the surviving byte of a three-byte read
      pass over the next start. */
  lemma PassesOver(mc: Machine, file: seq<byte>, fn: u64, v: seq<Insn>, max: nat, k: nat, place: nat)
    requires ReadsPrefix(mc.decode) && v == mc.Walk(file, fn, max) && k < |v|
    requires Disp(v, k) == place && v[k].length == 2
    requires k + 1 < |v| ==> v[k + 1].length >= 2
    ensures forall n | 0 <= n < |v| :: Disp(v, n) != place + 3
  {
    WalkLengths(mc, file, fn, max);
    forall n | 0 <= n < |v| ensures Disp(v, n) != place + 3 {
      if n <= k {
        DispMonotone(v, n, k);
      } else if n > k + 1 {
        DispMonotone(v, k + 2, n);
      }
      assert Disp(v, k + 1) == place + 2;
    }
  }

  /** Some instruction of the walk starts at the address. */
  ghost predicate Found(w: seq<Insn>, va: u64) {
    exists n :: 0 <= n < |w| && w[n].va == va
  }

  /** Where the walk that is long enough gets to the first three-byte read: the
      cleared register, then the surviving byte. */
  lemma LostPlace(mc: Machine, x64: bool, file: seq<byte>, file': seq<byte>,
                  fn: u64, w: seq<Insn>, shapes: seq<Shape>, i: nat, max: nat)
    requires IsX86(mc.decode, x64) && Reshaped(mc, file, file', fn, w, shapes)
    requires i + 1 < |w| && NoneLost(w, shapes, i) && Loses(w, shapes, i)
    requires PieceCount(w, shapes, i) + 2 <= max && 15 * max < TWO64 && 15 * |w| < TWO64
    requires forall a | 0 <= a < |w| :: w[a].length <= 15
    ensures var v, k := mc.Walk(file', fn, max), PieceCount(w, shapes, i);
            && k < |v| && Disp(v, k) == Disp(w, i) && v[k].length == 2
            && (k + 1 < |v| ==> v[k + 1].length >= 2)
  {
    hide Add64, Machine.DecodeAt, Machine.Walk, Disp, PieceCount, NoneLost, Loses, Reshaped, IsX86, ReadsPrefix,
         FindsDecode, WritesDecode, DropsPrefix, Machine.Steps;
    X86Means(mc.decode, x64);
    ReshapedLaid(mc, file, file', fn, w, shapes, i);
    var k, v := PieceCount(w, shapes, i), mc.Walk(file', fn, max);
    StepsReachStarts(mc, x64, file, file', fn, w, shapes, i);
    LostDecodes(mc, x64, file, file', fn, w, shapes, i);
    TwoAt(mc, file', fn, max, k, w[i].va);
    DispBound(w, i);
    PlaceOf(mc, file', fn, max, k, w[i].va, Disp(w, i));
  }

  lemma PlaceOf(mc: Machine, file: seq<byte>, fn: u64, max: nat, k: nat, va: u64, place: nat)
    requires ReadsPrefix(mc.decode) && k <= |mc.Walk(file, fn, max)| && mc.Steps(file, fn, k) == Some(va)
    requires va == Add64(fn, place) && place < TWO64 && 15 * max < TWO64
    ensures Disp(mc.Walk(file, fn, max), k) == place
  {
    hide Add64, Machine.DecodeAt, Machine.Walk, Machine.Steps, Disp, ReadsPrefix;
    mc.WalkDisp(file, fn, max, k);
    WalkLengths(mc, file, fn, max);
    DispBound(mc.Walk(file, fn, max), k);
    SamePlace(fn, Disp(mc.Walk(file, fn, max), k), place);
  }

  /** The walked instructions at and after a place that stepping reaches. */
  lemma TwoAt(mc: Machine, file: seq<byte>, fn: u64, max: nat, k: nat, va: u64)
    requires k + 2 <= max && mc.Steps(file, fn, k) == Some(va) && mc.DecodeAt(file, va).Some?
    ensures var v := mc.Walk(file, fn, max);
            && k < |v| && mc.DecodeAt(file, va) == Some(v[k])
            && (k + 1 < |v| ==> mc.DecodeAt(file, Add64(va, v[k].length)) == Some(v[k + 1]))
  {
    hide Add64, Machine.DecodeAt, Machine.Walk, Machine.Steps;
    mc.WalkSteps(file, fn, max, k);
    mc.WalkSteps(file, fn, max, k + 1);
    mc.StepsAdd(file, fn, k, 1);
    StepOne(mc, file, va);
  }

  lemma ReshapedLaid(mc: Machine, file: seq<byte>, file': seq<byte>, fn: u64, w: seq<Insn>, shapes: seq<Shape>, a: nat)
    requires Reshaped(mc, file, file', fn, w, shapes) && a < |w|
    ensures w[a].va == Add64(fn, Disp(w, a)) && 1 <= w[a].length <= 15 && |w| <= WALK_CAP
    ensures |shapes| == |w| && Pieces(shapes[a], w[a].length) <= w[a].length
  {
    hide Add64, Disp, Machine.DecodeAt, HasShape;
    assert mc.InsnAt(file, fn, w, a);
    PieceFits(file', w[a], mc.layout(fn).value + Disp(w, a), shapes[a]);
  }

  /** What follows the first three-byte read starts at no instruction that
      decoding again finds: the surviving byte is opcode 31, which takes the
      next byte with it. */
  lemma RewalkLosesStart(mc: Machine, x64: bool, file: seq<byte>, file': seq<byte>,
                         fn: u64, w: seq<Insn>, shapes: seq<Shape>, i: nat)
    requires IsX86(mc.decode, x64) && Reshaped(mc, file, file', fn, w, shapes)
    requires i + 1 < |w| && NoneLost(w, shapes, i) && Loses(w, shapes, i)
    ensures !Found(mc.Walk(file', fn, WALK_CAP), w[i + 1].va)
  {
    hide Add64, Machine.DecodeAt, Machine.Walk, Disp, PieceCount, NoneLost, Reshaped, IsX86, ReadsPrefix,
         FindsDecode, WritesDecode, DropsPrefix, Pieces;
    X86Means(mc.decode, x64);
    ReshapedLaid(mc, file, file', fn, w, shapes, i);
    var k := PieceCount(w, shapes, i);
    forall a | 0 <= a < |w| ensures 1 <= w[a].length <= 15 && Pieces(shapes[a], w[a].length) <= w[a].length {
      ReshapedLaid(mc, file, file', fn, w, shapes, a);
    }
    ReshapedLaid(mc, file, file', fn, w, shapes, i + 1);
    PiecesFit(w, shapes, i);
    DispBound(w, i);
    NextDisp(w, i);
    var max := WALK_CAP + k + 2;
    var v, w' := mc.Walk(file', fn, max), mc.Walk(file', fn, WALK_CAP);
    LostPlace(mc, x64, file, file', fn, w, shapes, i, max);
    PassesOver(mc, file', fn, v, max, k, Disp(w, i));
    WalkLengths(mc, file', fn, max);
    forall n | 0 <= n < |w'| ensures w'[n].va != w[i + 1].va {
      LongWalk(mc, file', fn, max, n);
      DispBound(v, n);
      if w'[n].va == w[i + 1].va { SamePlace(fn, Disp(v, n), Disp(w, i + 1)); }
    }
  }

  lemma NextDisp(w: seq<Insn>, i: nat)
    requires i < |w|
    ensures Disp(w, i + 1) == Disp(w, i) + w[i].length
  {
  }

  lemma X86Means(d: Decode, x64: bool)
    requires IsX86(d, x64)
    ensures ReadsPrefix(d) && WritesDecode(d, x64) && FindsDecode(d, x64) && DropsPrefix(d)
  {
    hide ReadsPrefix, WritesDecode, FindsDecode, DropsPrefix;
  }

  /** What is decoded at a three-byte read after the pass, and two bytes on. */
  lemma LostDecodes(mc: Machine, x64: bool, file: seq<byte>, file': seq<byte>,
                    fn: u64, w: seq<Insn>, shapes: seq<Shape>, i: nat)
    requires ReadsPrefix(mc.decode) && WritesDecode(mc.decode, x64) && FindsDecode(mc.decode, x64)
    requires Reshaped(mc, file, file', fn, w, shapes) && i + 1 < |w| && Loses(w, shapes, i)
    ensures mc.DecodeAt(file', w[i].va).Some? && mc.DecodeAt(file', w[i].va).value.length == 2
    ensures var r := mc.DecodeAt(file', Add64(w[i].va, 2)); r.Some? ==> r.value.length >= 2
  {
    hide Add64, Disp, RelTarget, Sext8, Sext32, WritesDecode, FindsDecode;
    assert mc.InsnAt(file, fn, w, i);
    mc.DecodedInsn(file, w[i].va);
    mc.InsnOffset(file, fn, w, i, 0);
    InsnMapped(mc, file, fn, w, i);
    var off := mc.layout(w[i].va).value;
    assert HasShape(file', off, w[i], shapes[i]);
    StepPlain(mc, x64, file', w[i].va, off);
    assert MappedAt(mc, |file|, w[i].va, off, 2);
    ReadEndsIn31(mc.decode, x64, w[i].va, w[i].bytes);
    assert file'[off + 2..off + 3][0] == w[i].bytes[2..][0] == 0x31;
    var va2 := Add64(w[i].va, 2);
    RestIsXor(mc, x64, file', va2, off + 2);
  }

  // ----- forced jumps

  /** Moving a branch one byte on and making it one byte shorter keeps its
      destination, in wrapping arithmetic. */
  lemma RelTargetShift(x64: bool, va: u64, length: nat, disp: int)
    requires length >= 1
    ensures RelTarget(x64, Add64(va, 1), length - 1, disp) == RelTarget(x64, va, length, disp)
  {
    var q := (va + 1) / TWO64;
    assert va + length + disp == Add64(va, 1) + (length - 1) + disp + q * TWO64;
    ModShift(Add64(va, 1) + (length - 1) + disp, q);
  }

  /** A conditional jump reshaped to a forced one keeps its branch target: the
      short form at its own address, the near form one byte later, after a
      no-operation. */
  lemma ForcedJumpKeepsTarget(mc: Machine, x64: bool, file: seq<byte>, file': seq<byte>,
                              fn: u64, w: seq<Insn>, shapes: seq<Shape>, i: nat)
    requires IsX86(mc.decode, x64)
    requires Reshaped(mc, file, file', fn, w, shapes) && i < |w| && w[i].flow == Jcc
    ensures shapes[i] == ShortJmp ==>
              w[i].relTarget.Some? && IsDirectJmp(mc.DecodeAt(file', w[i].va), 2, w[i].relTarget.value)
    ensures shapes[i] == NearJmp && w[i].bytes[0] == 0x0F ==>
              && w[i].relTarget.Some?
              && IsPlain(mc.DecodeAt(file', w[i].va), 1, Nop)
              && (mc.Fetch(file, Add64(w[i].va, 1)).Some? ==>
                    IsDirectJmp(mc.DecodeAt(file', Add64(w[i].va, 1)), 5, w[i].relTarget.value))
    ensures shapes[i] == NearJmp && i + 1 < |w| ==> mc.Fetch(file, Add64(w[i].va, 1)).Some?
  {
    hide Add64, Disp, Machine.DecodeAt, RelTarget, Sext8, Sext32, WritesDecode;
    assert mc.InsnAt(file, fn, w, i);
    mc.DecodedInsn(file, w[i].va);
    mc.InsnOffset(file, fn, w, i, 0);
    var off := mc.layout(w[i].va).value;
    assert HasShape(file', off, w[i], shapes[i]);
    if shapes[i] == ShortJmp {
      StepPlain(mc, x64, file', w[i].va, off);
    } else if shapes[i] == NearJmp {
      mc.InsnOffset(file, fn, w, i, 1);
      if i + 1 < |w| {
        InsnMapped(mc, file, fn, w, i);
        assert MappedAt(mc, |file|, w[i].va, off, 1);
      }
      StepPlain(mc, x64, file', w[i].va, off);
      if w[i].bytes[0] == 0x0F && off + 1 + WINDOW <= |file| {
        StepPlain(mc, x64, file', Add64(w[i].va, 1), off + 1);
        assert file'[off + 1 + 1..off + 1 + 5] == w[i].bytes[2..6];
        RelTargetShift(x64, w[i].va, 6, Sext32(w[i].bytes[2..6]));
      }
    }
  }
}
