/** Instructions, the decoder the image passes rely on, and the linear walk
    over a function. The decoder itself is a parameter: what the passes need of
    it is the predicate `IsX86`, and `ToyIsX86` shows that it can be met. */
module Decoder {
  import opened Words
  import opened Image

  datatype Flow = NoFlow | Call | Jmp | Jcc | Ret

  datatype Mnemonic = Nop | Xor | Test | Push | Return | Int3 | Int | Rdtsc | Other

  datatype Operand =
    | Reg(reg: nat)
    | Mem(memBase: nat, disp: int)   // base 0 stands for "no base register"
    | Imm(imm: int)

  datatype Insn = Insn(
    va: u64,
    length: nat,
    bytes: seq<byte>,
    flow: Flow,
    mnemonic: Mnemonic,
    ops: seq<Operand>,
    relTarget: Option<u64>,      // direct branch destination
    ripRelTarget: Option<u64>)   // instruction-relative memory operand

  type Decode = (u64, seq<byte>) -> Option<Insn>

  /** Bytes handed to the decoder for one instruction. */
  const WINDOW: nat := 16

  /** Most instructions one walk decodes. */
  const WALK_CAP: nat := 8192

  // ----- branch displacements (Intel SDM volume 2A, chapter 3, Jcc and JMP)

  function Sext8(b: byte): int {
    if b < 0x80 then b as int else b as int - 0x100
  }

  function Sext32(bs: seq<byte>): int
    requires |bs| == 4
  {
    bs[0] as int + bs[1] as int * 0x100 + bs[2] as int * 0x1_0000 + Sext8(bs[3]) * 0x100_0000
  }

  /** Destination of a relative branch: the displacement counts from the end of
      the instruction, and 32-bit code keeps the low half. */
  function RelTarget(x64: bool, va: u64, length: nat, disp: int): u64 {
    var target := (va + length + disp) % TWO64;
    if x64 then target else target % TWO32
  }

  // ----- what a decoder must satisfy

  /** The result depends only on the bytes the instruction consumes. */
  ghost predicate ReadsPrefix(d: Decode) {
    && (forall va, buf | d(va, buf).Some? ::
          var insn := d(va, buf).value;
          insn.va == va && 1 <= insn.length <= 15 && insn.length <= |buf| && insn.bytes == buf[..insn.length])
    && (forall va, buf, buf' {:trigger d(va, buf), d(va, buf')} | d(va, buf).Some?
                               && d(va, buf).value.length <= |buf'|
                               && buf'[..d(va, buf).value.length] == d(va, buf).value.bytes ::
          d(va, buf') == d(va, buf))
  }

  ghost predicate IsPlain(r: Option<Insn>, length: nat, mnemonic: Mnemonic) {
    r.Some? && r.value.length == length && r.value.flow == NoFlow
    && r.value.mnemonic == mnemonic && r.value.relTarget == None
  }

  ghost predicate IsDirectJmp(r: Option<Insn>, length: nat, target: u64) {
    r.Some? && r.value.length == length && r.value.flow == Jmp && r.value.mnemonic == Other
    && r.value.relTarget == Some(target)
    && r.value.ripRelTarget == None && (r.value.ops != [] ==> !r.value.ops[0].Mem?)
  }

  /** The encodings the passes write. */
  ghost predicate WritesDecode(d: Decode, x64: bool) {
    && (forall va, buf | |buf| == WINDOW && buf[0] == 0x90 :: IsPlain(d(va, buf), 1, Nop))
    && (forall va, buf | |buf| == WINDOW && buf[0] == 0x31 && buf[1] == 0xC0 :: IsPlain(d(va, buf), 2, Xor))
    && (forall va, buf | |buf| == WINDOW && buf[0] == 0xEB ::
          IsDirectJmp(d(va, buf), 2, RelTarget(x64, va, 2, Sext8(buf[1]))))
    && (forall va, buf | |buf| == WINDOW && buf[0] == 0xE9 ::
          IsDirectJmp(d(va, buf), 5, RelTarget(x64, va, 5, Sext32(buf[1..5]))))
  }

  /** The instructions the passes look for. A conditional jump is never one byte
      long; its two-byte form ends in a displacement byte, and the form opening
      with 0F has six bytes, the last four the displacement. Traps and
      time-stamp reads do not branch; the latter end in 0F 31, behind any
      prefixes. Opcode 31 is an XOR and takes a second byte, and so does a call or
      jump with a memory operand. */
  ghost predicate FindsDecode(d: Decode, x64: bool) {
    forall va, buf | d(va, buf).Some? ::
      var insn := d(va, buf).value;
      && (insn.flow.Jcc? ==> insn.length >= 2)
      && (insn.flow.Jcc? && insn.length == 2 && |insn.bytes| == 2 ==>
            insn.relTarget == Some(RelTarget(x64, va, 2, Sext8(insn.bytes[1]))))
      && (insn.flow.Jcc? && insn.length >= 5 && |insn.bytes| == insn.length && insn.bytes[0] == 0x0F ==>
            insn.length == 6 && insn.relTarget == Some(RelTarget(x64, va, 6, Sext32(insn.bytes[2..6]))))
      && (insn.mnemonic in {Int3, Int, Rdtsc} ==> insn.flow == NoFlow)
      && (insn.mnemonic == Rdtsc && |insn.bytes| == insn.length ==>
            insn.length >= 2 && insn.bytes[insn.length - 2] == 0x0F && insn.bytes[insn.length - 1] == 0x31)
      && (|insn.bytes| == insn.length && insn.length >= 1 && insn.bytes[0] == 0x31 ==>
            insn.length >= 2 && insn.mnemonic == Xor)
      && (insn.flow in {Call, Jmp} ==>
            insn.ripRelTarget.Some? || (exists k :: 0 <= k < |insn.ops| && insn.ops[k].Mem?) ==> insn.length >= 2)
  }

  /** The bytes are a time-stamp read. */
  ghost predicate IsRead(d: Decode, va: u64, bytes: seq<byte>) {
    d(va, bytes).Some? && d(va, bytes).value.mnemonic == Rdtsc && d(va, bytes).value.length == |bytes|
  }

  /** A time-stamp read of more than two bytes opens with prefixes it ignores:
      without the first of them it still is one, wherever it stands. */
  ghost predicate DropsPrefix(d: Decode) {
    forall va, va', bytes {:trigger IsRead(d, va, bytes), IsRead(d, va', bytes[1..])}
      | IsRead(d, va, bytes) && |bytes| > 2 :: IsRead(d, va', bytes[1..])
  }

  ghost predicate IsX86(d: Decode, x64: bool) {
    ReadsPrefix(d) && WritesDecode(d, x64) && FindsDecode(d, x64) && DropsPrefix(d)
  }

  // ----- the linear walk

  /** Bytes taken by the first `i` instructions of `w`. */
  function Disp(w: seq<Insn>, i: nat): nat
    requires i <= |w|
  {
    if i == 0 then 0 else Disp(w, i - 1) + w[i - 1].length
  }

  lemma {:induction false} DispMonotone(w: seq<Insn>, i: nat, j: nat)
    requires i <= j <= |w|
    ensures Disp(w, i) <= Disp(w, j)
    ensures i < j ==> Disp(w, i) + w[i].length <= Disp(w, j)
    decreases j
  {
    if i < j {
      DispMonotone(w, i, j - 1);
    }
  }

  lemma {:induction false} DispBound(w: seq<Insn>, i: nat)
    requires i <= |w| && forall k | 0 <= k < |w| :: w[k].length <= 15
    ensures Disp(w, i) <= 15 * i
  {
    if i > 0 {
      DispBound(w, i - 1);
    }
  }

  datatype Machine = Machine(decode: Decode, layout: Layout) {
    function Fetch(file: seq<byte>, va: u64): Option<seq<byte>> {
      match layout(va)
      case None => None
      case Some(off) => if off + WINDOW > |file| then None else Some(file[off..off + WINDOW])
    }

    function DecodeAt(file: seq<byte>, va: u64): Option<Insn> {
      match Fetch(file, va)
      case None => None
      case Some(buf) =>
        match decode(va, buf)
        case None => None
        case Some(insn) => if insn.length == 0 then None else Some(insn)
    }

    /** Instructions decoded back to back from `va`. */
    function Walk(file: seq<byte>, va: u64, max: nat): (w: seq<Insn>)
      ensures |w| <= max
      decreases max, |file|
    {
      if max == 0 then []
      else
        match DecodeAt(file, va)
        case None => []
        case Some(insn) => [insn] + Walk(file, Add64(va, insn.length), max - 1)
    }

    /** The address reached after decoding `n` instructions from `va`. */
    function Steps(file: seq<byte>, va: u64, n: nat): Option<u64> {
      if n == 0 then Some(va)
      else
        match Steps(file, va, n - 1)
        case None => None
        case Some(at) =>
          match DecodeAt(file, at)
          case None => None
          case Some(insn) => Some(Add64(at, insn.length))
    }

    lemma {:induction false} StepsFront(file: seq<byte>, va: u64, n: nat)
      requires n > 0
      ensures Steps(file, va, n) == match DecodeAt(file, va)
                                    case None => None
                                    case Some(insn) => Steps(file, Add64(va, insn.length), n - 1)
    {
      hide Add64, DecodeAt;
      if n > 1 {
        StepsFront(file, va, n - 1);
      } else {
        assert Steps(file, va, 0) == Some(va);
      }
    }

    /** Adding step counts. */
    lemma {:induction false} StepsAdd(file: seq<byte>, va: u64, m: nat, n: nat)
      requires Steps(file, va, m).Some?
      ensures Steps(file, va, m + n) == Steps(file, Steps(file, va, m).value, n)
    {
      hide Add64, DecodeAt;
      if n > 0 {
        StepsAdd(file, va, m, n - 1);
      }
    }

    /** The walk is the sequence of instructions found by stepping. */
    lemma {:induction false} WalkSteps(file: seq<byte>, va: u64, max: nat, n: nat)
      ensures n < |Walk(file, va, max)| <==>
              n < max && Steps(file, va, n).Some? && DecodeAt(file, Steps(file, va, n).value).Some?
      ensures n < |Walk(file, va, max)| ==>
              DecodeAt(file, Steps(file, va, n).value) == Some(Walk(file, va, max)[n])
      decreases n
    {
      hide Add64, DecodeAt;
      if 0 < n && 0 < max {
        StepsFront(file, va, n);
        match DecodeAt(file, va)
        case None =>
        case Some(insn) => WalkSteps(file, Add64(va, insn.length), max - 1, n - 1);
      }
    }

    /** The walk the passes take: at most 8192 instructions, as many as decode. */
    lemma WholeWalk(file: seq<byte>, va: u64, n: nat)
      ensures n < |Walk(file, va, WALK_CAP)| <==>
              n < 8192 && Steps(file, va, n).Some? && DecodeAt(file, Steps(file, va, n).value).Some?
    {
      hide DecodeAt, Walk, Steps;
      WalkSteps(file, va, WALK_CAP, n);
    }

    /** The `i`-th walked instruction sits `Disp` bytes after the start. */
    lemma {:induction false} WalkDisp(file: seq<byte>, va: u64, max: nat, i: nat)
      requires i <= |Walk(file, va, max)|
      ensures Steps(file, va, i) == Some(Add64(va, Disp(Walk(file, va, max), i)))
    {
      hide Add64, DecodeAt;
      var w := Walk(file, va, max);
      if i == 0 {
        Add64Small(va, 0);
      } else {
        WalkDisp(file, va, max, i - 1);
        WalkSteps(file, va, max, i - 1);
        Add64Assoc(va, Disp(w, i - 1), w[i - 1].length);
      }
    }

    /** A decoded instruction carries its own address and bytes. */
    lemma DecodedInsn(file: seq<byte>, va: u64)
      requires ReadsPrefix(decode) && DecodeAt(file, va).Some?
      ensures var insn := DecodeAt(file, va).value;
              && insn.va == va && 1 <= insn.length <= 15
              && layout(va).Some?
              && var off := layout(va).value;
              && off + WINDOW <= |file|
              && insn.bytes == file[off..off + insn.length]
              && decode(va, file[off..off + WINDOW]) == Some(insn)
    {
      var off := layout(va).value;
      var insn := DecodeAt(file, va).value;
      assert decode(va, file[off..off + WINDOW]) == Some(insn);
      assert file[off..off + WINDOW][..insn.length] == file[off..off + insn.length];
    }

    /** An instruction whose bytes are untouched decodes as before. */
    lemma SameBytesSameInsn(file: seq<byte>, file': seq<byte>, va: u64)
      requires ReadsPrefix(decode) && DecodeAt(file, va).Some? && |file'| == |file|
      requires var off, n := layout(va).value, DecodeAt(file, va).value.length;
               off + n <= |file| && file'[off..off + n] == file[off..off + n]
      ensures DecodeAt(file', va) == DecodeAt(file, va)
    {
      DecodedInsn(file, va);
      var off, insn := layout(va).value, DecodeAt(file, va).value;
      var buf, buf' := file[off..off + WINDOW], file'[off..off + WINDOW];
      assert buf'[..insn.length] == file'[off..off + insn.length];
      assert decode(va, buf).Some?;
      assert decode(va, buf') == decode(va, buf);
    }

    /** Instruction `k` of `w` starts where the ones before it end, and decodes
        at its own address. */
    ghost predicate InsnAt(file: seq<byte>, va: u64, w: seq<Insn>, k: nat)
      requires k < |w|
    {
      && w[k].va == Add64(va, Disp(w, k))
      && DecodeAt(file, w[k].va) == Some(w[k])
      && 1 <= w[k].length <= 15
    }

    ghost predicate Laid(file: seq<byte>, va: u64, w: seq<Insn>) {
      |w| <= WALK_CAP && forall k | 0 <= k < |w| :: InsnAt(file, va, w, k)
    }

    /** A walk lays its instructions back to back. */
    lemma WalkIsLaid(file: seq<byte>, va: u64)
      requires ReadsPrefix(decode)
      ensures Laid(file, va, Walk(file, va, WALK_CAP))
    {
      hide Add64, DecodeAt, Disp;
      var w := Walk(file, va, WALK_CAP);
      forall k: nat | k < |w|
        ensures InsnAt(file, va, w, k)
      {
        WalkDisp(file, va, WALK_CAP, k);
        WalkSteps(file, va, WALK_CAP, k);
        DecodedInsn(file, Steps(file, va, k).value);
      }
    }

    /** Each instruction is followed by the next, or ends the laid bytes. */
    lemma NextInsn(file: seq<byte>, va: u64, w: seq<Insn>, a: nat)
      requires Laid(file, va, w) && a < |w|
      ensures Add64(w[a].va, w[a].length) == Add64(va, Disp(w, a + 1))
      ensures a + 1 < |w| ==> w[a + 1].va == Add64(w[a].va, w[a].length)
    {
      hide Add64, DecodeAt;
      assert InsnAt(file, va, w, a);
      Add64Assoc(va, Disp(w, a), w[a].length);
      if a + 1 < |w| {
        assert InsnAt(file, va, w, a + 1);
      }
    }

    /** File offset of byte `b` of instruction `a` of a linear function. */
    lemma InsnOffset(file: seq<byte>, va: u64, w: seq<Insn>, a: nat, b: nat)
      requires Laid(file, va, w) && Linear(layout, va, Disp(w, |w|))
      requires a < |w| && b < w[a].length
      ensures layout(Add64(w[a].va, b)) == Some(layout(va).value + Disp(w, a) + b)
      ensures b == 0 ==> layout(w[a].va) == Some(layout(va).value + Disp(w, a))
    {
      hide Add64, DecodeAt, Disp;
      assert InsnAt(file, va, w, a);
      Add64Assoc(va, Disp(w, a), b);
      DispMonotone(w, a, |w|);
      Add64Small(w[a].va, 0);
      assert layout(Add64(va, Disp(w, a) + b)) == Some(layout(va).value + (Disp(w, a) + b));
    }
  }

  // ----- the assumptions can be met

  /** Length of a time-stamp read behind any number of prefixes, within `room`
      bytes, or 0. */
  function ReadLength(buf: seq<byte>, room: nat): (n: nat)
    ensures n == 0 || 2 <= n <= room
    ensures n <= |buf|
    decreases room
  {
    if room >= 2 && |buf| >= 2 && buf[0] == 0x0F && buf[1] == 0x31 then 2
    else if room >= 1 && |buf| >= 1 && (buf[0] == 0xF3 || buf[0] == 0x66) then
      var n := ReadLength(buf[1..], room - 1);
      if n == 0 then 0 else n + 1
    else 0
  }

  lemma SamePrefix(a: seq<byte>, b: seq<byte>, n: nat)
    requires n <= |a| && n <= |b| && a[..n] == b[..n]
    ensures forall k | 0 <= k < n :: a[k] == b[k]
    ensures forall i, j | 0 <= i <= j <= n :: a[i..j] == b[i..j]
  {
    forall k | 0 <= k < n ensures a[k] == b[k] { assert a[..n][k] == b[..n][k]; }
  }

  /** Only the bytes counted matter, and more room changes nothing. */
  lemma {:induction false} ReadLengthStays(buf: seq<byte>, buf': seq<byte>, room: nat, room': nat)
    requires var n := ReadLength(buf, room); n > 0 && n <= |buf'| && buf'[..n] == buf[..n] && room <= room'
    ensures ReadLength(buf', room') == ReadLength(buf, room)
    decreases room
  {
    var n := ReadLength(buf, room);
    SamePrefix(buf, buf', n);
    if !(buf[0] == 0x0F && buf[1] == 0x31) {
      assert buf'[1..][..n - 1] == buf'[1..n] && buf[1..][..n - 1] == buf[1..n];
      ReadLengthStays(buf[1..], buf'[1..], room - 1, room' - 1);
    }
  }

  lemma {:induction false} ReadEnds(buf: seq<byte>, room: nat)
    requires ReadLength(buf, room) > 0
    ensures var n := ReadLength(buf, room); buf[n - 2] == 0x0F && buf[n - 1] == 0x31
    ensures buf[0] in {0x0F, 0xF3, 0x66}
    decreases room
  {
    if !(room >= 2 && buf[0] == 0x0F && buf[1] == 0x31) {
      ReadEnds(buf[1..], room - 1);
    }
  }

  /** A small fragment of x86: NOP, XOR EAX,EAX, the direct jumps, the short and
      near conditional jumps, RET, INT3, RDTSC (also with prefixes it ignores) and
      CALL through memory. */
  function ToyDecode(x64: bool, va: u64, buf: seq<byte>): Option<Insn> {
    if |buf| >= 1 && buf[0] == 0x90 then Some(Insn(va, 1, buf[..1], NoFlow, Nop, [], None, None))
    else if |buf| >= 1 && buf[0] == 0xC3 then Some(Insn(va, 1, buf[..1], Flow.Ret, Return, [], None, None))
    else if |buf| >= 1 && buf[0] == 0xCC then Some(Insn(va, 1, buf[..1], NoFlow, Int3, [], None, None))
    else if |buf| >= 2 && buf[0] == 0x31 && buf[1] == 0xC0 then
      Some(Insn(va, 2, buf[..2], NoFlow, Xor, [Reg(1), Reg(1)], None, None))
    else if ReadLength(buf, 15) > 0 then
      Some(Insn(va, ReadLength(buf, 15), buf[..ReadLength(buf, 15)], NoFlow, Rdtsc, [], None, None))
    else if |buf| >= 2 && buf[0] == 0xEB then
      Some(Insn(va, 2, buf[..2], Jmp, Other, [Imm(0)], Some(RelTarget(x64, va, 2, Sext8(buf[1]))), None))
    else if |buf| >= 2 && 0x70 <= buf[0] <= 0x7F then
      Some(Insn(va, 2, buf[..2], Jcc, Other, [Imm(0)], Some(RelTarget(x64, va, 2, Sext8(buf[1]))), None))
    else if |buf| >= 5 && buf[0] == 0xE9 then
      Some(Insn(va, 5, buf[..5], Jmp, Other, [Imm(0)], Some(RelTarget(x64, va, 5, Sext32(buf[1..5]))), None))
    else if |buf| >= 6 && buf[0] == 0x0F && 0x80 <= buf[1] <= 0x8F then
      Some(Insn(va, 6, buf[..6], Jcc, Other, [Imm(0)], Some(RelTarget(x64, va, 6, Sext32(buf[2..6]))), None))
    else if |buf| >= 6 && buf[0] == 0xFF && buf[1] == 0x15 then
      Some(Insn(va, 6, buf[..6], Call, Other, [Mem(1, Sext32(buf[2..6]))], None,
                Some(RelTarget(true, va, 6, Sext32(buf[2..6])))))
    else None
  }

  function Toy(x64: bool): Decode {
    (va: u64, buf: seq<byte>) => ToyDecode(x64, va, buf)
  }

  lemma ToyReadsPrefix(x64: bool, va: u64, buf: seq<byte>, buf': seq<byte>)
    requires ToyDecode(x64, va, buf).Some?
    requires ToyDecode(x64, va, buf).value.length <= |buf'|
    requires buf'[..ToyDecode(x64, va, buf).value.length] == ToyDecode(x64, va, buf).value.bytes
    ensures ToyDecode(x64, va, buf') == ToyDecode(x64, va, buf)
  {
    var n := ToyDecode(x64, va, buf).value.length;
    assert buf[..n] == buf'[..n];
    SamePrefix(buf, buf', n);
    if ToyDecode(x64, va, buf).value.mnemonic == Rdtsc {
      ReadLengthStays(buf, buf', 15, 15);
      ReadEnds(buf, 15);
    }
    hide RelTarget, Sext8, Sext32;
  }

  lemma ToyFinds(x64: bool, va: u64, buf: seq<byte>)
    requires ToyDecode(x64, va, buf).Some?
    ensures var insn := ToyDecode(x64, va, buf).value;
            && insn.va == va && 1 <= insn.length <= 15 && insn.length <= |buf| && insn.bytes == buf[..insn.length]
            && (insn.flow.Jcc? ==> insn.length >= 2)
            && (insn.flow.Jcc? && insn.length == 2 ==>
                  insn.relTarget == Some(RelTarget(x64, va, 2, Sext8(insn.bytes[1]))))
            && (insn.flow.Jcc? && insn.length >= 5 ==>
                  insn.length == 6 && insn.relTarget == Some(RelTarget(x64, va, 6, Sext32(insn.bytes[2..6]))))
            && (insn.mnemonic in {Int3, Int, Rdtsc} ==> insn.flow == NoFlow)
            && (insn.mnemonic == Rdtsc ==>
                  insn.length >= 2 && insn.bytes[insn.length - 2] == 0x0F && insn.bytes[insn.length - 1] == 0x31)
            && (insn.bytes[0] == 0x31 ==> insn.length >= 2 && insn.mnemonic == Xor)
            && (insn.ripRelTarget.Some? || (exists k :: 0 <= k < |insn.ops| && insn.ops[k].Mem?) ==> insn.length >= 2)
  {
    hide ReadLength, RelTarget, Sext8, Sext32;
    if |buf| >= 6 { assert buf[..6][2..6] == buf[2..6]; }
    if ReadLength(buf, 15) > 0 { ReadEnds(buf, 15); }
  }

  lemma ToyIsRead(x64: bool, va: u64, bytes: seq<byte>)
    ensures IsRead(Toy(x64), va, bytes) <==> 0 < ReadLength(bytes, 15) == |bytes|
  {
    if ReadLength(bytes, 15) > 0 { ReadEnds(bytes, 15); }
  }

  lemma ToyDropsPrefix(x64: bool, va: u64, va': u64, bytes: seq<byte>)
    requires IsRead(Toy(x64), va, bytes) && |bytes| > 2
    ensures IsRead(Toy(x64), va', bytes[1..])
  {
    hide ToyDecode;
    ToyIsRead(x64, va, bytes);
    ToyIsRead(x64, va', bytes[1..]);
    ReadLengthStays(bytes[1..], bytes[1..], 14, 15);
  }

  lemma ToyWrites(x64: bool, va: u64, buf: seq<byte>)
    requires |buf| == WINDOW
    ensures buf[0] == 0x90 ==> IsPlain(ToyDecode(x64, va, buf), 1, Nop)
    ensures buf[0] == 0x31 && buf[1] == 0xC0 ==> IsPlain(ToyDecode(x64, va, buf), 2, Xor)
    ensures buf[0] == 0xEB ==>
              IsDirectJmp(ToyDecode(x64, va, buf), 2, RelTarget(x64, va, 2, Sext8(buf[1])))
    ensures buf[0] == 0xE9 ==>
              IsDirectJmp(ToyDecode(x64, va, buf), 5, RelTarget(x64, va, 5, Sext32(buf[1..5])))
  {
  }

  lemma ToyIsX86(x64: bool)
    ensures IsX86(Toy(x64), x64)
  {
    hide ToyDecode, ReadLength, RelTarget, Sext8, Sext32;
    var d := Toy(x64);
    assert ReadsPrefix(d) by {
      forall va, buf | d(va, buf).Some? { ToyFinds(x64, va, buf); }
      forall va, buf, buf' | d(va, buf).Some?
                             && d(va, buf).value.length <= |buf'|
                             && buf'[..d(va, buf).value.length] == d(va, buf).value.bytes
        ensures d(va, buf') == d(va, buf)
      {
        ToyReadsPrefix(x64, va, buf, buf');
      }
    }
    assert WritesDecode(d, x64) by {
      forall va, buf: seq<byte> | |buf| == WINDOW { ToyWrites(x64, va, buf); }
    }
    assert FindsDecode(d, x64) by {
      forall va, buf | d(va, buf).Some? { ToyFinds(x64, va, buf); }
    }
    assert DropsPrefix(d) by {
      forall va, va', bytes | IsRead(d, va, bytes) && |bytes| > 2
        ensures IsRead(d, va', bytes[1..])
      {
        ToyDropsPrefix(x64, va, va', bytes);
      }
    }
  }
}
