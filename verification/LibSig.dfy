/** Library signatures: compiling a pattern, scanning the executable sections
    for it, and finding the function around a hit. */
module LibSig {
  import opened Words
  import opened Hex
  import opened Image

  // ----- compiling a pattern

  /** What a pattern asks for at one position. */
  datatype Want = Any | Exactly(value: byte)

  /** The grammar: blanks are skipped, `??` is any byte, two hex digits are that
      byte, and anything else is no pattern. */
  function Parse(s: string): Option<seq<Want>>
    decreases |s|
  {
    if s == [] then Some([])
    else if s[0] == ' ' then Parse(s[1..])
    else if |s| >= 2 && s[0] == '?' && s[1] == '?' then
      match Parse(s[2..])
      case None => None
      case Some(rest) => Some([Any] + rest)
    else if |s| >= 2 && IsHex(s[0]) && IsHex(s[1]) then
      match Parse(s[2..])
      case None => None
      case Some(rest) => Some([Exactly(PairByte(s[0], s[1]))] + rest)
    else None
  }

  /** The compiled form: a concrete byte is stored under mask 1, which selects
      only its lowest bit, and a wildcard under mask 0. */
  function ByteOf(w: Want): byte {
    match w case Any => 0 case Exactly(v) => v
  }

  function MaskOf(w: Want): byte {
    match w case Any => 0 case Exactly(_) => 1
  }

  function Bytes(ws: seq<Want>): (r: seq<byte>)
    ensures |r| == |ws|
  {
    seq(|ws|, i requires 0 <= i < |ws| => ByteOf(ws[i]))
  }

  function Masks(ws: seq<Want>): (r: seq<byte>)
    ensures |r| == |ws|
  {
    seq(|ws|, i requires 0 <= i < |ws| => MaskOf(ws[i]))
  }

  datatype Signature = Signature(name: string, pattern: string, offset: u32)

  datatype Compiled = Compiled(name: string, bytes: seq<byte>, mask: seq<byte>, anchor: u32)

  function CompileResult(sig: Signature): (r: Option<Compiled>)
    ensures r.Some? ==> |r.value.bytes| == |r.value.mask| > 0
  {
    match Parse(sig.pattern)
    case None => None
    case Some(ws) => if ws == [] then None else Some(Compiled(sig.name, Bytes(ws), Masks(ws), sig.offset))
  }

  /** What is still to be compiled of the text from `i` on. */
  ghost predicate CompiledSoFar(s: string, i: nat, done: seq<Want>)
    requires i <= |s|
  {
    Parse(s) == match Parse(s[i..]) case None => None case Some(rest) => Some(done + rest)
  }

  method Compile(sig: Signature) returns (r: Option<Compiled>)
    ensures r == CompileResult(sig)
  {
    hide PairByte, IsHex;
    var s := sig.pattern;
    var bytes, mask: seq<byte> := [], [];
    ghost var done: seq<Want> := [];
    var i := 0;
    assert s[0..] == s;
    assert CompiledSoFar(s, 0, done) by { PrependNothing(Parse(s)); }
    while i < |s|
      invariant 0 <= i <= |s|
      invariant bytes == Bytes(done) && mask == Masks(done)
      invariant CompiledSoFar(s, i, done)
    {
      assert s[i..][1..] == s[i + 1..];
      if s[i] == ' ' {
        i := i + 1;
      } else {
        if s[i] == '?' {
          if i + 1 >= |s| || s[i + 1] != '?' {
            QuestionIsNotHex();
            return None;
          }
          bytes, mask := bytes + [0], mask + [0];
          CompileStep(s, i, done, Any);
          done := done + [Any];
        } else {
          if !IsHex(s[i]) || i + 1 >= |s| || !IsHex(s[i + 1]) {
            return None;
          }
          bytes, mask := bytes + [PairByte(s[i], s[i + 1])], mask + [1];
          CompileStep(s, i, done, Exactly(PairByte(s[i], s[i + 1])));
          done := done + [Exactly(PairByte(s[i], s[i + 1]))];
        }
        i := i + 2;
      }
    }
    assert s[i..] == [];
    assert done + [] == done;
    if bytes == [] {
      return None;
    }
    return Some(Compiled(sig.name, bytes, mask, sig.offset));
  }

  lemma QuestionIsNotHex()
    ensures !IsHex('?')
  {
  }

  lemma PrependNothing(p: Option<seq<Want>>)
    ensures p == match p case None => None case Some(rest) => Some([] + rest)
  {
    if p.Some? { assert [] + p.value == p.value; }
  }

  lemma CompileStep(s: string, i: nat, done: seq<Want>, w: Want)
    requires i + 2 <= |s| && CompiledSoFar(s, i, done)
    requires Parse(s[i..]) == match Parse(s[i + 2..]) case None => None case Some(rest) => Some([w] + rest)
    ensures CompiledSoFar(s, i + 2, done + [w])
  {
    match Parse(s[i + 2..])
    case None =>
    case Some(rest) => assert done + ([w] + rest) == done + [w] + rest;
  }

  // ----- what a pattern says

  /** One position as it is written, behind some blanks: two question marks, or
      two digits. */
  datatype Item = Wild(blanks: nat) | Given(blanks: nat, printed: Printed) {
    function Text(): string {
      Blanks(blanks) + if Wild? then "??" else [printed.Hi(), printed.Lo()]
    }

    function Asked(): Want {
      if Wild? then Any else Exactly(printed.value)
    }
  }

  function Blanks(n: nat): string {
    if n == 0 then "" else " " + Blanks(n - 1)
  }

  function PatternText(items: seq<Item>): string {
    if items == [] then "" else items[0].Text() + PatternText(items[1..])
  }

  function Asked(items: seq<Item>): seq<Want> {
    if items == [] then [] else [items[0].Asked()] + Asked(items[1..])
  }

  lemma {:induction false} BlanksSkipped(n: nat, rest: string)
    ensures Parse(Blanks(n) + rest) == Parse(rest)
  {
    hide Parse;
    if n == 0 {
      assert "" + rest == rest;
    } else {
      BlanksSkipped(n - 1, rest);
      assert (Blanks(n) + rest)[1..] == Blanks(n - 1) + rest;
      OneBlankSkipped(Blanks(n) + rest);
    }
  }

  lemma OneBlankSkipped(s: string)
    requires s != [] && s[0] == ' '
    ensures Parse(s) == Parse(s[1..])
  {
    hide IsHex, PairByte;
  }

  lemma DigitIsNoSign(c: char)
    requires IsHex(c)
    ensures c != ' ' && c != '?'
  {
  }

  lemma ItemParsed(item: Item, rest: string)
    ensures Parse(item.Text() + rest)
            == match Parse(rest) case None => None case Some(ws) => Some([item.Asked()] + ws)
  {
    hide IsHex, PairByte, Printed.Hi, Printed.Lo, Blanks;
    var sign := if item.Wild? then "??" else [item.printed.Hi(), item.printed.Lo()];
    BlanksSkipped(item.blanks, sign + rest);
    assert item.Text() + rest == Blanks(item.blanks) + (sign + rest);
    assert (sign + rest)[2..] == rest;
    if item.Given? {
      PairReadsBack(item.printed);
      DigitIsNoSign(item.printed.Hi());
    }
  }

  lemma ParseNothing()
    ensures Parse("") == Some([])
  {
  }

  /** Main result: a pattern reads back as what it was written for. */
  lemma {:induction false} PatternReadsBack(items: seq<Item>, tail: nat)
    ensures Parse(PatternText(items) + Blanks(tail)) == Some(Asked(items))
  {
    hide Parse, Item.Text, Item.Asked;
    if items == [] {
      BlanksSkipped(tail, "");
      assert Blanks(tail) + "" == "" + Blanks(tail);
      ParseNothing();
    } else {
      PatternReadsBack(items[1..], tail);
      ItemParsed(items[0], PatternText(items[1..]) + Blanks(tail));
      assert PatternText(items) + Blanks(tail) == items[0].Text() + (PatternText(items[1..]) + Blanks(tail));
    }
  }

  /** And whatever is a pattern is written that way. */
  lemma {:induction false} EveryPattern(s: string) returns (items: seq<Item>, tail: nat)
    requires Parse(s).Some?
    ensures s == PatternText(items) + Blanks(tail)
    decreases |s|
  {
    hide IsHex, PairByte, Printed.Hi, Printed.Lo;
    if s == [] {
      items, tail := [], 0;
    } else if s[0] == ' ' {
      items, tail := EveryPattern(s[1..]);
      items, tail := OneBlankMore(s[1..], items, tail);
      assert s == " " + s[1..];
    } else {
      var rest, more := EveryPattern(s[2..]);
      var item := FirstItem(s);
      items, tail := [item] + rest, more;
      assert items[1..] == rest;
      assert s == s[..2] + s[2..];
    }
  }

  lemma FirstItem(s: string) returns (item: Item)
    requires Parse(s).Some? && s != [] && s[0] != ' '
    ensures |s| >= 2 && item.Text() == s[..2]
  {
    hide PairByte;
    if s[0] == '?' {
      item := Wild(0);
      assert "" + "??" == s[..2];
    } else {
      var p := PairIsPrinted(s[0], s[1]);
      item := Given(0, p);
      assert "" + [s[0], s[1]] == s[..2];
    }
  }

  lemma OneBlankMore(s: string, items: seq<Item>, tail: nat) returns (items': seq<Item>, tail': nat)
    requires s == PatternText(items) + Blanks(tail)
    ensures " " + s == PatternText(items') + Blanks(tail')
  {
    hide Printed.Hi, Printed.Lo;
    if items == [] {
      items', tail' := items, tail + 1;
    } else {
      var item := items[0].(blanks := items[0].blanks + 1);
      items', tail' := [item] + items[1..], tail;
      assert items'[1..] == items[1..];
      assert item.Text() == " " + items[0].Text();
    }
  }

  /** A given byte is compiled under mask 1, a wildcard to zeros. */
  lemma CompiledAs(sig: Signature, items: seq<Item>, tail: nat)
    requires items != [] && sig.pattern == PatternText(items) + Blanks(tail)
    ensures CompileResult(sig).Some?
    ensures var c := CompileResult(sig).value;
            && c.name == sig.name && c.anchor == sig.offset && |c.bytes| == |c.mask| == |items|
            && forall k | 0 <= k < |items| ::
                 && c.bytes[k] == (if items[k].Wild? then 0 else items[k].printed.value)
                 && c.mask[k] == if items[k].Wild? then 0 else 1
  {
    hide Parse, PatternText, Blanks;
    PatternReadsBack(items, tail);
    AskedAt(items);
  }

  lemma {:induction false} AskedAt(items: seq<Item>)
    ensures |Asked(items)| == |items| && forall k | 0 <= k < |items| :: Asked(items)[k] == items[k].Asked()
  {
    hide Item.Asked;
    if items != [] { AskedAt(items[1..]); }
  }

  // ----- matching

  function Masked(x: byte, m: byte): byte {
    x & m
  }

  predicate ByteMatches(x: byte, want: byte, mask: byte) {
    Masked(x, mask) == Masked(want, mask)
  }

  /** The compiled signature fits the data at offset `i`. */
  predicate FitsAt(c: Compiled, data: seq<byte>, i: nat)
    requires |c.bytes| == |c.mask|
  {
    i + |c.bytes| <= |data| && forall b | 0 <= b < |c.bytes| :: ByteMatches(data[i + b], c.bytes[b], c.mask[b])
  }

  /** The pattern as written occurs at offset `i`. */
  predicate OccursAt(ws: seq<Want>, data: seq<byte>, i: nat) {
    i + |ws| <= |data| && forall b | 0 <= b < |ws| :: ws[b] == Any || data[i + b] == ws[b].value
  }

  /** The least offset from `from` on at which the signature fits. */
  function FirstFit(c: Compiled, data: seq<byte>, from: nat): (r: Option<nat>)
    requires |c.bytes| == |c.mask|
    ensures r.Some? ==> from <= r.value && FitsAt(c, data, r.value)
    ensures r.Some? ==> forall i | from <= i < r.value :: !FitsAt(c, data, i)
    ensures r.None? ==> forall i | from <= i :: !FitsAt(c, data, i)
    decreases |data| - from
  {
    if from + |c.bytes| > |data| || from >= |data| then
      if FitsAt(c, data, from) then Some(from) else None
    else if FitsAt(c, data, from) then Some(from)
    else FirstFit(c, data, from + 1)
  }

  method TestAt(c: Compiled, data: seq<byte>, i: nat) returns (m: bool)
    requires |c.bytes| == |c.mask| && i + |c.bytes| <= |data|
    ensures m <==> FitsAt(c, data, i)
  {
    hide Masked;
    for b := 0 to |c.bytes|
      invariant forall k | 0 <= k < b :: ByteMatches(data[i + k], c.bytes[k], c.mask[k])
    {
      if Masked(data[i + b], c.mask[b]) != Masked(c.bytes[b], c.mask[b]) {
        return false;
      }
    }
    return true;
  }

  /** Scans for the leftmost fit. */
  method FindFirst(c: Compiled, data: seq<byte>) returns (r: Option<nat>)
    requires |c.bytes| == |c.mask| > 0
    ensures r == FirstFit(c, data, 0)
  {
    hide ByteMatches;
    var i := 0;
    while i + |c.bytes| <= |data|
      invariant forall k | 0 <= k < i :: !FitsAt(c, data, k)
    {
      var m := TestAt(c, data, i);
      if m {
        LeastFit(c, data, i);
        return Some(i);
      }
      i := i + 1;
    }
    return None;
  }

  lemma LeastFit(c: Compiled, data: seq<byte>, i: nat)
    requires |c.bytes| == |c.mask| && FitsAt(c, data, i) && forall k | 0 <= k < i :: !FitsAt(c, data, k)
    ensures FirstFit(c, data, 0) == Some(i)
  {
    hide ByteMatches;
  }

  // ----- what a fit means

  /** No genuine occurrence is missed. */
  lemma OccurrenceFits(sig: Signature, ws: seq<Want>, data: seq<byte>, i: nat)
    requires Parse(sig.pattern) == Some(ws) && ws != [] && OccursAt(ws, data, i)
    ensures FitsAt(CompileResult(sig).value, data, i)
    ensures var r := FirstFit(CompileResult(sig).value, data, 0); r.Some? && r.value <= i
  {
    var c := CompileResult(sig).value;
    hide Masked;
    forall b | 0 <= b < |ws|
      ensures ByteMatches(data[i + b], c.bytes[b], c.mask[b])
    {
      if ws[b] == Any { MaskedByZero(data[i + b], 0); }
    }
  }

  lemma MaskedByZero(x: byte, y: byte)
    ensures Masked(x, 0) == Masked(y, 0)
  {
  }

  /** A byte other than `v` that mask 1 cannot tell from it. */
  function Lookalike(v: byte): byte {
    v ^ 2
  }

  lemma LookalikeFits(v: byte)
    ensures Lookalike(v) != v && ByteMatches(Lookalike(v), v, 1)
  {
  }

  ghost predicate EveryFitOccurs(c: Compiled, ws: seq<Want>)
    requires |c.bytes| == |c.mask|
  {
    forall data, i | FitsAt(c, data, i) :: OccursAt(ws, data, i)
  }

  /** Every hit is a genuine occurrence only for patterns made of wildcards
      alone: as soon as one byte is given, some data fits without it. */
  lemma EveryFitOccursIff(sig: Signature, ws: seq<Want>)
    requires Parse(sig.pattern) == Some(ws) && ws != []
    ensures EveryFitOccurs(CompileResult(sig).value, ws) <==> forall b | 0 <= b < |ws| :: ws[b] == Any
  {
    var c := CompileResult(sig).value;
    hide Masked, Lookalike;
    if b :| 0 <= b < |ws| && ws[b] != Any {
      var data := Bytes(ws)[b := Lookalike(ws[b].value)];
      LookalikeFits(ws[b].value);
      assert FitsAt(c, data, 0) by {
        forall k | 0 <= k < |ws|
          ensures ByteMatches(data[0 + k], c.bytes[k], c.mask[k])
        {
        }
      }
      assert data[0 + b] != ws[b].value;
      assert !OccursAt(ws, data, 0);
    }
  }

  /** With mask 0xFF for given bytes a fit would be an occurrence. */
  lemma FullMaskIsExact(ws: seq<Want>, name: string, anchor: u32, data: seq<byte>, i: nat)
    ensures var full := seq(|ws|, k requires 0 <= k < |ws| => if ws[k] == Any then 0 as byte else 0xFF);
            FitsAt(Compiled(name, Bytes(ws), full, anchor), data, i) <==> OccursAt(ws, data, i)
  {
    hide Masked;
    var full := seq(|ws|, k requires 0 <= k < |ws| => if ws[k] == Any then 0 as byte else 0xFF);
    if i + |ws| <= |data| {
      forall b | 0 <= b < |ws|
        ensures ByteMatches(data[i + b], Bytes(ws)[b], full[b]) <==> ws[b] == Any || data[i + b] == ws[b].value
      {
        MaskedByZero(data[i + b], Bytes(ws)[b]);
        MaskedByAll(data[i + b]);
        MaskedByAll(Bytes(ws)[b]);
      }
    }
  }

  lemma MaskedByAll(x: byte)
    ensures Masked(x, 0xFF) == x
  {
  }

  // ----- the enclosing function

  datatype Function = Function(va: u64, size: nat) {
    predicate Holds(at: u64) {
      va <= at < Add64(va, size)
    }
  }

  ghost predicate Sorted(fns: seq<Function>) {
    forall i, j | 0 <= i < j < |fns| :: fns[i].va <= fns[j].va
  }

  /** The last function that starts at or before `at`, if it reaches that far. */
  function Enclosing(fns: seq<Function>, at: u64): Option<u64> {
    if fns == [] then None
    else
      var f := fns[|fns| - 1];
      if f.va > at then Enclosing(fns[..|fns| - 1], at)
      else if f.Holds(at) then Some(f.va) else None
  }

  /** Found by binary search in the list sorted by start. */
  method EnclosingFunction(fns: seq<Function>, at: u64) returns (r: Option<u64>)
    requires Sorted(fns)
    ensures r == Enclosing(fns, at)
  {
    hide Add64;
    var lo, hi := 0, |fns|;
    while lo < hi
      invariant 0 <= lo <= hi <= |fns|
      invariant forall k | 0 <= k < lo :: fns[k].va <= at
      invariant forall k | hi <= k < |fns| :: fns[k].va > at
    {
      var mid := lo + (hi - lo) / 2;
      if at < fns[mid].va { hi := mid; } else { lo := mid + 1; }
    }
    DropLater(fns, lo, at);
    if lo == 0 {
      assert fns[..0] == [];
      return None;
    }
    var f := fns[lo - 1];
    assert fns[..lo][lo - 1] == f;
    return if f.Holds(at) then Some(f.va) else None;
  }

  lemma {:induction false} DropLater(fns: seq<Function>, u: nat, at: u64)
    requires u <= |fns| && forall k | u <= k < |fns| :: fns[k].va > at
    ensures Enclosing(fns, at) == Enclosing(fns[..u], at)
    decreases |fns|
  {
    hide Add64;
    if u < |fns| {
      DropLater(fns[..|fns| - 1], u, at);
      assert fns[..|fns| - 1][..u] == fns[..u];
    } else {
      assert fns[..u] == fns;
    }
  }

  /** Functions in order, each ending before the next starts and before the end
      of the address space. */
  ghost predicate SortedDisjoint(fns: seq<Function>) {
    && (forall i | 0 <= i < |fns| :: fns[i].va + fns[i].size < TWO64)
    && forall i, j | 0 <= i < j < |fns| :: fns[i].va + fns[i].size <= fns[j].va && fns[i].va <= fns[j].va
  }

  /** A plain search from the front. */
  function LinearSearch(fns: seq<Function>, at: u64): Option<u64> {
    if fns == [] then None
    else if fns[0].Holds(at) then Some(fns[0].va)
    else LinearSearch(fns[1..], at)
  }

  lemma {:induction false} LinearFinds(fns: seq<Function>, at: u64, k: nat)
    requires k < |fns| && fns[k].Holds(at) && forall j | 0 <= j < k :: !fns[j].Holds(at)
    ensures LinearSearch(fns, at) == Some(fns[k].va)
  {
    hide Function.Holds;
    if k > 0 {
      LinearFinds(fns[1..], at, k - 1);
    }
  }

  lemma {:induction false} LinearFails(fns: seq<Function>, at: u64)
    requires forall j | 0 <= j < |fns| :: !fns[j].Holds(at)
    ensures LinearSearch(fns, at) == None
  {
    hide Function.Holds;
    if fns != [] {
      LinearFails(fns[1..], at);
    }
  }

  lemma EnclosingPlace(fns: seq<Function>, at: u64, u: nat)
    requires u <= |fns| && (forall k | u <= k < |fns| :: fns[k].va > at) && (u > 0 ==> fns[u - 1].va <= at)
    ensures Enclosing(fns, at) == if u > 0 && fns[u - 1].Holds(at) then Some(fns[u - 1].va) else None
  {
    hide Function.Holds;
    DropLater(fns, u, at);
    if u > 0 { assert fns[..u][u - 1] == fns[u - 1]; }
  }

  /** Main result: for sorted disjoint functions the binary search finds what a
      linear search finds. */
  lemma BinaryIsLinear(fns: seq<Function>, at: u64)
    requires SortedDisjoint(fns)
    ensures Enclosing(fns, at) == LinearSearch(fns, at)
  {
    hide Add64;
    forall i | 0 <= i < |fns|
      ensures fns[i].Holds(at) <==> fns[i].va <= at < fns[i].va + fns[i].size
    {
      Add64Small(fns[i].va, fns[i].size);
    }
    var u := |fns|;
    while u > 0 && fns[u - 1].va > at
      invariant 0 <= u <= |fns| && forall k | u <= k < |fns| :: fns[k].va > at
    {
      u := u - 1;
    }
    EnclosingPlace(fns, at, u);
    if u > 0 && fns[u - 1].Holds(at) {
      LinearFinds(fns, at, u - 1);
    } else {
      LinearFails(fns, at);
    }
  }

  // ----- the scan

  datatype CodeSection = CodeSection(executable: bool, span: Section)

  datatype Hit = Hit(name: string, va: u64, function_: Option<u64>)

  datatype Target = Target(ok: bool, base: u64, sections: seq<CodeSection>, file: seq<byte>, fns: seq<Function>)

  predicate Scannable(img: Target, s: CodeSection) {
    s.executable && s.span.rawSize != 0 && s.span.rawOffset + s.span.rawSize <= |img.file|
  }

  function Span(s: CodeSection): nat {
    if s.span.rawSize <= s.span.virtualSize then s.span.rawSize else s.span.virtualSize
  }

  function Data(img: Target, s: CodeSection): seq<byte>
    requires Scannable(img, s)
  {
    img.file[s.span.rawOffset..s.span.rawOffset + Span(s)]
  }

  /** The hit reported for a fit at offset `i`: the anchor is taken off again, but
      not below the section's start. */
  function HitAt(img: Target, s: CodeSection, c: Compiled, i: nat): Hit {
    var rel := (if i >= c.anchor then i - c.anchor else 0) % TWO32;
    var va := Add64(img.base, s.span.rva + rel);
    Hit(c.name, va, Enclosing(img.fns, va))
  }

  /** One hit for a signature in a section, at its leftmost fit, or none. */
  function HitFor(img: Target, s: CodeSection, c: Compiled): seq<Hit>
    requires |c.bytes| == |c.mask| && Scannable(img, s)
  {
    match FirstFit(c, Data(img, s), 0)
    case None => []
    case Some(i) => [HitAt(img, s, c, i)]
  }

  ghost predicate WellFormed(cs: seq<Compiled>) {
    forall k | 0 <= k < |cs| :: |cs[k].bytes| == |cs[k].mask| > 0
  }

  function SectionHits(img: Target, s: CodeSection, cs: seq<Compiled>, n: nat): seq<Hit>
    requires n <= |cs| && forall k | 0 <= k < |cs| :: |cs[k].bytes| == |cs[k].mask| > 0
  {
    if n == 0 || !Scannable(img, s) then []
    else SectionHits(img, s, cs, n - 1) + HitFor(img, s, cs[n - 1])
  }

  function AllHits(img: Target, cs: seq<Compiled>, n: nat): seq<Hit>
    requires n <= |img.sections| && forall k | 0 <= k < |cs| :: |cs[k].bytes| == |cs[k].mask| > 0
  {
    if n == 0 then []
    else AllHits(img, cs, n - 1) + SectionHits(img, img.sections[n - 1], cs, |cs|)
  }

  /** The signatures that compile, in order. */
  function CompileAll(sigs: seq<Signature>): (cs: seq<Compiled>)
    ensures forall k | 0 <= k < |cs| :: |cs[k].bytes| == |cs[k].mask| > 0
  {
    if sigs == [] then []
    else
      var c := CompileResult(sigs[|sigs| - 1]);
      CompileAll(sigs[..|sigs| - 1]) + if c.Some? then [c.value] else []
  }

  /** Main result: per executable section and compiled signature one hit, at the
      least offset that fits, or none when none does. */
  method Scan(img: Target, sigs: seq<Signature>) returns (hits: seq<Hit>)
    requires Sorted(img.fns)
    ensures hits == if img.ok then AllHits(img, CompileAll(sigs), |img.sections|) else []
  {
    hide CompileResult, HitFor, Enclosing, FirstFit;
    hits := [];
    if !img.ok {
      return;
    }
    var compiled: seq<Compiled> := [];
    assert sigs[..0] == [];
    for i := 0 to |sigs|
      invariant compiled == CompileAll(sigs[..i])
    {
      assert sigs[..i + 1][..i] == sigs[..i];
      var c := Compile(sigs[i]);
      if c.Some? { compiled := compiled + [c.value]; }
    }
    assert sigs[..|sigs|] == sigs;
    for k := 0 to |img.sections|
      invariant hits == AllHits(img, compiled, k)
    {
      var more := ScanSection(img, img.sections[k], compiled);
      hits := hits + more;
    }
  }

  method ScanSection(img: Target, s: CodeSection, cs: seq<Compiled>) returns (hits: seq<Hit>)
    requires Sorted(img.fns) && WellFormed(cs)
    ensures hits == SectionHits(img, s, cs, |cs|)
  {
    hide Enclosing, FirstFit, Add64;
    hits := [];
    if !Scannable(img, s) {
      return;
    }
    var data := img.file[s.span.rawOffset..s.span.rawOffset + Span(s)];
    for k := 0 to |cs|
      invariant hits == SectionHits(img, s, cs, k)
    {
      var first := FindFirst(cs[k], data);
      if first.Some? {
        var rel := (if first.value >= cs[k].anchor then first.value - cs[k].anchor else 0) % TWO32;
        var va := Add64(img.base, s.span.rva + rel);
        var f := EnclosingFunction(img.fns, va);
        hits := hits + [Hit(cs[k].name, va, f)];
      }
    }
  }

  lemma {:induction false} SectionHitsHas(img: Target, s: CodeSection, cs: seq<Compiled>, n: nat, k: nat)
    requires WellFormed(cs) && k < n <= |cs| && Scannable(img, s)
    ensures forall h | h in HitFor(img, s, cs[k]) :: h in SectionHits(img, s, cs, n)
  {
    hide HitFor;
    if k < n - 1 {
      SectionHitsHas(img, s, cs, n - 1, k);
    }
  }

  lemma {:induction false} AllHitsHas(img: Target, cs: seq<Compiled>, n: nat, j: nat)
    requires WellFormed(cs) && j < n <= |img.sections|
    ensures forall h | h in SectionHits(img, img.sections[j], cs, |cs|) :: h in AllHits(img, cs, n)
  {
    hide SectionHits;
    if j < n - 1 {
      AllHitsHas(img, cs, n - 1, j);
    }
  }

  lemma {:induction false} CompileAllHas(sigs: seq<Signature>, m: nat)
    requires m < |sigs| && CompileResult(sigs[m]).Some?
    ensures CompileResult(sigs[m]).value in CompileAll(sigs)
  {
    hide CompileResult;
    if m < |sigs| - 1 {
      CompileAllHas(sigs[..|sigs| - 1], m);
    }
  }

  /** Main result: wherever a signature's pattern really occurs in the scanned
      part of a section, the scan reports that signature for the section, at
      that place or one further left. */
  lemma NoOccurrenceMissed(img: Target, sigs: seq<Signature>, m: nat, ws: seq<Want>, j: nat, i: nat)
    requires img.ok && m < |sigs| && j < |img.sections| && Scannable(img, img.sections[j])
    requires Parse(sigs[m].pattern) == Some(ws) && ws != [] && OccursAt(ws, Data(img, img.sections[j]), i)
    ensures exists at :: 0 <= at <= i
                         && HitAt(img, img.sections[j], CompileResult(sigs[m]).value, at)
                            in AllHits(img, CompileAll(sigs), |img.sections|)
  {
    hide FirstFit, HitAt, FitsAt, OccursAt, Parse;
    var s, c, cs := img.sections[j], CompileResult(sigs[m]).value, CompileAll(sigs);
    OccurrenceFits(sigs[m], ws, Data(img, s), i);
    CompileAllHas(sigs, m);
    var k :| 0 <= k < |cs| && cs[k] == c;
    SectionHitsHas(img, s, cs, |cs|, k);
    AllHitsHas(img, cs, |img.sections|, j);
    var at := FirstFit(c, Data(img, s), 0).value;
    assert HitFor(img, s, c) == [HitAt(img, s, c, at)];
    assert HitAt(img, s, c, at) in HitFor(img, s, cs[k]);
  }

  // ----- exactly what is reported

  function Low(x: byte): byte {
    x & 1
  }

  /** Within the `size` bytes from `begin` on, the pattern agrees at offset `at` in
      the lowest bit of every given byte. */
  ghost predicate AgreesAt(ws: seq<Want>, file: seq<byte>, begin: nat, size: nat, at: nat)
    requires begin + size <= |file|
  {
    && at + |ws| <= size
    && forall b | 0 <= b < |ws| :: ws[b] == Any || Low(file[begin + (at + b)]) == Low(ws[b].value)
  }

  ghost predicate AgreesFirst(ws: seq<Want>, file: seq<byte>, begin: nat, size: nat, at: nat)
    requires begin + size <= |file|
  {
    AgreesAt(ws, file, begin, size, at) && forall k | 0 <= k < at :: !AgreesAt(ws, file, begin, size, k)
  }

  /** The hit for a signature in an executable section that the file holds: the
      anchor is taken off the first place that agrees, but not below 0. */
  ghost predicate IsHit(img: Target, sig: Signature, s: CodeSection, h: Hit) {
    && s.executable && s.span.rawSize > 0 && s.span.rawOffset + s.span.rawSize <= |img.file|
    && Parse(sig.pattern).Some? && Parse(sig.pattern).value != []
    && exists at: nat :: HitFrom(img, sig, s, at, h)
  }

  ghost predicate HitFrom(img: Target, sig: Signature, s: CodeSection, at: nat, h: Hit)
    requires s.span.rawOffset + s.span.rawSize <= |img.file| && Parse(sig.pattern).Some?
  {
    && AgreesFirst(Parse(sig.pattern).value, img.file, s.span.rawOffset,
                   if s.span.rawSize < s.span.virtualSize then s.span.rawSize else s.span.virtualSize, at)
    && h.name == sig.name && h.function_ == Enclosing(img.fns, h.va)
    && h.va == (img.base + s.span.rva + if at >= sig.offset then at - sig.offset else 0) % TWO64
  }

  lemma ByteAgrees(x: byte, w: Want)
    ensures ByteMatches(x, ByteOf(w), MaskOf(w)) <==> w == Any || Low(x) == Low(w.value)
  {
  }

  lemma FitAgrees(img: Target, sig: Signature, s: CodeSection, at: nat)
    requires Scannable(img, s) && CompileResult(sig).Some?
    ensures FitsAt(CompileResult(sig).value, Data(img, s), at)
            <==> AgreesAt(Parse(sig.pattern).value, img.file, s.span.rawOffset, Span(s), at)
  {
    hide Parse, ByteMatches, Low;
    var ws, c, data := Parse(sig.pattern).value, CompileResult(sig).value, Data(img, s);
    if at + |ws| <= |data| {
      forall b | 0 <= b < |ws|
        ensures ByteMatches(data[at + b], c.bytes[b], c.mask[b])
                <==> ws[b] == Any || Low(img.file[s.span.rawOffset + (at + b)]) == Low(ws[b].value)
      {
        ByteAgrees(data[at + b], ws[b]);
        assert data[at + b] == img.file[s.span.rawOffset + (at + b)];
      }
    }
  }

  /** The leftmost fit is the first place that agrees. */
  lemma FirstAgrees(img: Target, sig: Signature, s: CodeSection, at: nat)
    requires Scannable(img, s) && CompileResult(sig).Some?
    ensures FirstFit(CompileResult(sig).value, Data(img, s), 0) == Some(at)
            <==> AgreesFirst(Parse(sig.pattern).value, img.file, s.span.rawOffset, Span(s), at)
  {
    hide Parse, FitsAt, AgreesAt, CompileResult, Data, Span;
    ParsedSomething(sig);
    SpanInside(img, s);
    var ws, c, data := Parse(sig.pattern).value, CompileResult(sig).value, Data(img, s);
    forall k: nat ensures FitsAt(c, data, k) <==> AgreesAt(ws, img.file, s.span.rawOffset, Span(s), k) {
      FitAgrees(img, sig, s, k);
    }
  }

  lemma ParsedSomething(sig: Signature)
    ensures CompileResult(sig).Some? <==> Parse(sig.pattern).Some? && Parse(sig.pattern).value != []
    ensures CompileResult(sig).Some? ==> CompileResult(sig).value.name == sig.name
                                         && CompileResult(sig).value.anchor == sig.offset
  {
    hide Parse;
  }

  lemma SpanInside(img: Target, s: CodeSection)
    requires Scannable(img, s)
    ensures s.span.rawOffset + Span(s) <= |img.file| && |Data(img, s)| == Span(s) < TWO32
  {
  }

  lemma HitForIff(img: Target, sig: Signature, s: CodeSection, h: Hit)
    requires Scannable(img, s) && CompileResult(sig).Some?
    ensures h in HitFor(img, s, CompileResult(sig).value) <==> IsHit(img, sig, s, h)
  {
    hide Parse, FirstFit, AgreesFirst, Enclosing, CompileResult, Data;
    var c, data := CompileResult(sig).value, Data(img, s);
    ParsedSomething(sig);
    SpanInside(img, s);
    forall at: nat
      ensures FirstFit(c, data, 0) == Some(at)
              <==> AgreesFirst(Parse(sig.pattern).value, img.file, s.span.rawOffset, Span(s), at)
    {
      FirstAgrees(img, sig, s, at);
    }
    var first := FirstFit(c, data, 0);
    if first.Some? {
      FitInside(c, data, first.value);
      if h in HitFor(img, s, c) { assert HitFrom(img, sig, s, first.value, h); }
    }
  }

  lemma FitInside(c: Compiled, data: seq<byte>, i: nat)
    requires |c.bytes| == |c.mask| && FirstFit(c, data, 0) == Some(i)
    ensures i <= |data|
  {
  }

  lemma {:induction false} CompileAllFrom(sigs: seq<Signature>, c: Compiled)
    requires c in CompileAll(sigs)
    ensures exists m :: 0 <= m < |sigs| && CompileResult(sigs[m]) == Some(c)
  {
    hide CompileResult;
    var n := |sigs| - 1;
    if c in CompileAll(sigs[..n]) {
      CompileAllFrom(sigs[..n], c);
      var m :| 0 <= m < n && CompileResult(sigs[..n][m]) == Some(c);
      assert sigs[m] == sigs[..n][m];
    }
  }

  lemma {:induction false} SectionHitsFrom(img: Target, s: CodeSection, cs: seq<Compiled>, n: nat, h: Hit)
    requires WellFormed(cs) && n <= |cs| && h in SectionHits(img, s, cs, n)
    ensures Scannable(img, s) && exists k :: 0 <= k < n && h in HitFor(img, s, cs[k])
  {
    hide HitFor;
    if h !in HitFor(img, s, cs[n - 1]) { SectionHitsFrom(img, s, cs, n - 1, h); }
  }

  lemma {:induction false} AllHitsFrom(img: Target, cs: seq<Compiled>, n: nat, h: Hit)
    requires WellFormed(cs) && n <= |img.sections| && h in AllHits(img, cs, n)
    ensures exists j :: 0 <= j < n && h in SectionHits(img, img.sections[j], cs, |cs|)
  {
    hide SectionHits;
    if h !in SectionHits(img, img.sections[n - 1], cs, |cs|) { AllHitsFrom(img, cs, n - 1, h); }
  }

  /** Main result: the scan reports exactly the hits of each signature in each
      section. */
  lemma ScanIff(img: Target, sigs: seq<Signature>, h: Hit)
    ensures h in AllHits(img, CompileAll(sigs), |img.sections|)
            <==> exists m, j :: 0 <= m < |sigs| && 0 <= j < |img.sections| && IsHit(img, sigs[m], img.sections[j], h)
  {
    hide HitFor, CompileResult, SectionHits, AllHits, IsHit, CompileAll;
    var cs := CompileAll(sigs);
    if h in AllHits(img, cs, |img.sections|) {
      AllHitsFrom(img, cs, |img.sections|, h);
      var j :| 0 <= j < |img.sections| && h in SectionHits(img, img.sections[j], cs, |cs|);
      SectionHitsFrom(img, img.sections[j], cs, |cs|, h);
      var k :| 0 <= k < |cs| && h in HitFor(img, img.sections[j], cs[k]);
      CompileAllFrom(sigs, cs[k]);
      var m :| 0 <= m < |sigs| && CompileResult(sigs[m]) == Some(cs[k]);
      HitForIff(img, sigs[m], img.sections[j], h);
    }
    if m, j :| 0 <= m < |sigs| && 0 <= j < |img.sections| && IsHit(img, sigs[m], img.sections[j], h) {
      HitCompiles(img, sigs[m], img.sections[j], h);
      HitForIff(img, sigs[m], img.sections[j], h);
      CompileAllHas(sigs, m);
      var k :| 0 <= k < |cs| && cs[k] == CompileResult(sigs[m]).value;
      SectionHitsHas(img, img.sections[j], cs, |cs|, k);
      AllHitsHas(img, cs, |img.sections|, j);
    }
  }

  lemma HitCompiles(img: Target, sig: Signature, s: CodeSection, h: Hit)
    requires IsHit(img, sig, s, h)
    ensures Scannable(img, s) && CompileResult(sig).Some?
  {
    hide Parse, HitFrom;
  }
}
