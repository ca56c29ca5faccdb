/** XOR unpacking of a mapped region: the ciphers, the key search, and the
    operation on a loaded image. */
module XorRegion {
  import opened Words
  import opened Hex
  import opened Image
  import opened Journal
  import opened Passes

  const MAX_REGION: nat := 0x40_0000

  // ----- the two ciphers

  function Mask(a: byte, k: byte): byte {
    a ^ k
  }

  lemma MaskTwice(a: byte, k: byte)
    ensures Mask(Mask(a, k), k) == a
  {
  }

  /** Each byte with the key byte at its position, the key repeating. */
  function Cyclic(data: seq<byte>, key: seq<byte>): (r: seq<byte>)
    requires key != []
    ensures |r| == |data|
  {
    seq(|data|, i requires 0 <= i < |data| => Mask(data[i], key[i % |key|]))
  }

  /** Each byte with the ciphertext byte before it, the first with the key. */
  function Rolling(data: seq<byte>, key: byte): (r: seq<byte>)
    ensures |r| == |data|
  {
    seq(|data|, i requires 0 <= i < |data| => Mask(data[i], if i == 0 then key else data[i - 1]))
  }

  lemma RollingAt(data: seq<byte>, key: byte, i: nat)
    requires i < |data|
    ensures Rolling(data, key)[i] == Mask(data[i], if i == 0 then key else data[i - 1])
  {
  }

  lemma CyclicAt(data: seq<byte>, key: seq<byte>, i: nat)
    requires key != [] && i < |data|
    ensures Cyclic(data, key)[i] == Mask(data[i], key[i % |key|])
  {
  }

  /** The chained encoding that `Rolling` is meant to undo: each plain byte with
      the ciphertext byte before it. */
  function Chain(plain: seq<byte>, key: byte): (r: seq<byte>)
    ensures |r| == |plain|
  {
    if plain == [] then []
    else
      var init := Chain(plain[..|plain| - 1], key);
      init + [Mask(plain[|plain| - 1], if init == [] then key else init[|init| - 1])]
  }

  /** Applying the cyclic mode twice restores the region. */
  lemma CyclicTwice(data: seq<byte>, key: seq<byte>)
    requires key != []
    ensures Cyclic(Cyclic(data, key), key) == data
  {
    hide Mask;
    forall i | 0 <= i < |data|
      ensures Cyclic(Cyclic(data, key), key)[i] == data[i]
    {
      MaskTwice(data[i], key[i % |key|]);
    }
  }

  lemma {:induction false} ChainAt(plain: seq<byte>, key: byte, i: nat)
    requires i < |plain|
    ensures Chain(plain, key)[i] == Mask(plain[i], if i == 0 then key else Chain(plain, key)[i - 1])
  {
    hide Mask;
    var n := |plain| - 1;
    if i < n {
      ChainAt(plain[..n], key, i);
    }
  }

  /** Rolling mode inverts the chained encoding. */
  lemma RollingInvertsChain(plain: seq<byte>, key: byte)
    ensures Rolling(Chain(plain, key), key) == plain
  {
    hide Mask, Chain;
    var c := Chain(plain, key);
    forall i | 0 <= i < |plain|
      ensures Rolling(c, key)[i] == plain[i]
    {
      ChainAt(plain, key, i);
      MaskTwice(plain[i], if i == 0 then key else c[i - 1]);
    }
  }

  lemma {:induction false} ChainInvertsRollingAt(data: seq<byte>, key: byte, i: nat)
    requires i < |data|
    ensures Chain(Rolling(data, key), key)[i] == data[i]
  {
    hide Mask, Chain;
    ChainAt(Rolling(data, key), key, i);
    if i > 0 {
      ChainInvertsRollingAt(data, key, i - 1);
    }
    MaskTwice(data[i], if i == 0 then key else data[i - 1]);
  }

  /** And the chained encoding inverts rolling mode, so the two are bijections. */
  lemma ChainInvertsRolling(data: seq<byte>, key: byte)
    ensures Chain(Rolling(data, key), key) == data
  {
    hide Rolling, Chain;
    forall i | 0 <= i < |data|
      ensures Chain(Rolling(data, key), key)[i] == data[i]
    {
      ChainInvertsRollingAt(data, key, i);
    }
  }

  // ----- the key text

  /** The hex digits of the text; everything else is dropped. */
  function HexDigits(text: string): (r: string)
    ensures forall i | 0 <= i < |r| :: IsHex(r[i])
  {
    if text == [] then []
    else HexDigits(text[..|text| - 1]) + if IsHex(text[|text| - 1]) then [text[|text| - 1]] else []
  }

  /** One byte per pair of digits; an odd number of digits is no key. */
  function Pairs(digits: string): seq<byte>
    requires forall i | 0 <= i < |digits| :: IsHex(digits[i])
  {
    if |digits| % 2 != 0 then []
    else seq(|digits| / 2, i requires 0 <= i < |digits| / 2 =>
             PairByte(digits[2 * i], digits[2 * i + 1]))
  }

  function ParseKey(text: string): seq<byte> {
    Pairs(HexDigits(text))
  }

  // ----- what the key text says

  /** A byte of the key as it may be written: two digits, with other text before
      and between them. */
  datatype KeyByte = KeyByte(printed: Printed, before: string, between: string) {
    function Text(): string { before + [printed.Hi()] + between + [printed.Lo()] }

    ghost predicate Clean() { NoHex(before) && NoHex(between) }
  }

  ghost predicate NoHex(s: string) {
    forall i | 0 <= i < |s| :: s[i] !in "0123456789abcdefABCDEF"
  }

  function KeyText(ks: seq<KeyByte>): string {
    if ks == [] then "" else KeyText(ks[..|ks| - 1]) + ks[|ks| - 1].Text()
  }

  function Values(ks: seq<KeyByte>): (r: seq<byte>)
    ensures |r| == |ks|
  {
    seq(|ks|, i requires 0 <= i < |ks| => ks[i].printed.value)
  }

  ghost predicate AllClean(ks: seq<KeyByte>) {
    forall i | 0 <= i < |ks| :: ks[i].Clean()
  }

  lemma HexChars(c: char)
    ensures IsHex(c) <==> c in "0123456789abcdefABCDEF"
  {
    var all := "0123456789abcdefABCDEF";
    if IsHex(c) {
      var n, upper := HexIsDigit(c);
      assert c == (if upper then UPPER[n] else LOWER[n]);
      if !upper || n < 10 { assert c == all[n]; } else { assert c == all[n + 6]; }
    }
  }

  lemma {:induction false} HexDigitsConcat(a: string, b: string)
    ensures HexDigits(a + b) == HexDigits(a) + HexDigits(b)
  {
    if b == [] {
      assert a + b == a;
    } else {
      HexDigitsConcat(a, b[..|b| - 1]);
      assert (a + b)[..|a + b| - 1] == a + b[..|b| - 1];
    }
  }

  lemma {:induction false} NoDigits(s: string)
    requires NoHex(s)
    ensures HexDigits(s) == []
  {
    if s != [] {
      NoDigits(s[..|s| - 1]);
      HexChars(s[|s| - 1]);
    }
  }

  lemma OneDigit(c: char)
    requires IsHex(c)
    ensures HexDigits([c]) == [c]
  {
    assert [c][..0] == [];
  }

  lemma KeyByteDigits(k: KeyByte)
    requires k.Clean()
    ensures HexDigits(k.Text()) == [k.printed.Hi(), k.printed.Lo()]
  {
    hide HexDigits, NoHex, Printed.Hi, Printed.Lo, PairByte;
    var hi, lo := k.printed.Hi(), k.printed.Lo();
    PairReadsBack(k.printed);
    NoDigits(k.before);
    NoDigits(k.between);
    OneDigit(hi);
    OneDigit(lo);
    HexDigitsConcat(k.before, [hi]);
    HexDigitsConcat(k.before + [hi], k.between);
    HexDigitsConcat(k.before + [hi] + k.between, [lo]);
  }

  lemma {:induction false} KeyDigits(ks: seq<KeyByte>)
    requires AllClean(ks)
    ensures var d := HexDigits(KeyText(ks));
            && |d| == 2 * |ks|
            && forall i | 0 <= i < |ks| :: d[2 * i] == ks[i].printed.Hi() && d[2 * i + 1] == ks[i].printed.Lo()
  {
    hide HexDigits, Printed.Hi, Printed.Lo, KeyByte.Text, KeyByte.Clean;
    if ks == [] {
      NoDigits("");
    } else {
      var front, last := ks[..|ks| - 1], ks[|ks| - 1];
      KeyDigits(front);
      HexDigitsConcat(KeyText(front), last.Text());
      KeyByteDigits(last);
    }
  }

  /** Main result: a key reads back as the bytes it was written for, whatever
      separates their digits; one digit more, and there is no key. */
  lemma KeyReadsBack(ks: seq<KeyByte>, tail: string)
    requires AllClean(ks) && NoHex(tail)
    ensures ParseKey(KeyText(ks) + tail) == Values(ks)
    ensures forall gap, c | NoHex(gap) && IsHex(c) :: ParseKey(KeyText(ks) + gap + [c] + tail) == []
  {
    hide HexDigits, NoHex, Printed.Hi, Printed.Lo, PairByte, AllClean, IsHex;
    KeyDigits(ks);
    NoDigits(tail);
    HexDigitsConcat(KeyText(ks), tail);
    var d := HexDigits(KeyText(ks));
    assert HexDigits(KeyText(ks) + tail) == d + [] == d;
    forall i | 0 <= i < |ks| ensures PairByte(d[2 * i], d[2 * i + 1]) == ks[i].printed.value {
      PairReadsBack(ks[i].printed);
    }
    assert Pairs(d) == Values(ks);
    forall gap, c | NoHex(gap) && IsHex(c) ensures ParseKey(KeyText(ks) + gap + [c] + tail) == [] {
      NoDigits(gap);
      OneDigit(c);
      HexDigitsConcat(KeyText(ks), gap);
      HexDigitsConcat(KeyText(ks) + gap, [c]);
      HexDigitsConcat(KeyText(ks) + gap + [c], tail);
      assert HexDigits(KeyText(ks) + gap + [c] + tail) == d + [] + [c] + [];
    }
  }

  /** A text taken apart: whole key bytes, and at most one digit besides. */
  ghost predicate TakenApart(text: string, ks: seq<KeyByte>, gap: string, odd: string, tail: string) {
    && text == KeyText(ks) + gap + odd + tail
    && AllClean(ks) && NoHex(gap) && NoHex(tail)
    && (odd == "" || (|odd| == 1 && IsHex(odd[0])))
  }

  lemma PairComplete(text: string, ks: seq<KeyByte>, gap: string, odd: string, tail: string, c: char)
      returns (k: KeyByte)
    requires TakenApart(text, ks, gap, odd, tail) && odd != "" && IsHex(c)
    ensures TakenApart(text + [c], ks + [k], "", "", "")
  {
    hide IsHex, Printed.Hi, Printed.Lo;
    var p := PairIsPrinted(odd[0], c);
    k := KeyByte(p, gap, tail);
    assert (ks + [k])[..|ks|] == ks;
    assert KeyText(ks + [k]) == KeyText(ks) + k.Text();
    assert k.Text() == gap + odd + tail + [c];
    assert KeyText(ks) + (gap + odd + tail + [c]) == KeyText(ks) + gap + odd + tail + [c];
  }

  lemma OneMore(text: string, ks: seq<KeyByte>, gap: string, odd: string, tail: string, c: char)
    requires TakenApart(text, ks, gap, odd, tail)
    ensures !IsHex(c) ==> TakenApart(text + [c], ks, gap, odd, tail + [c])
    ensures IsHex(c) && odd == "" ==> TakenApart(text + [c], ks, gap + tail, [c], "")
  {
    hide IsHex, KeyText, AllClean;
    HexChars(c);
    assert KeyText(ks) + gap + odd + (tail + [c]) == KeyText(ks) + gap + odd + tail + [c];
    if odd == "" { assert KeyText(ks) + (gap + tail) + [c] + "" == KeyText(ks) + gap + odd + tail + [c]; }
  }

  /** And every text is of one of these two forms. */
  lemma {:induction false} EveryKeyText(text: string) returns (ks: seq<KeyByte>, gap: string, odd: string, tail: string)
    ensures TakenApart(text, ks, gap, odd, tail)
  {
    hide IsHex, TakenApart;
    if text == [] {
      ks, gap, odd, tail := [], "", "", "";
      NothingApart();
    } else {
      var c := text[|text| - 1];
      ks, gap, odd, tail := EveryKeyText(text[..|text| - 1]);
      assert text == text[..|text| - 1] + [c];
      OneMore(text[..|text| - 1], ks, gap, odd, tail, c);
      if !IsHex(c) {
        tail := tail + [c];
      } else if odd == "" {
        gap, odd, tail := gap + tail, [c], "";
      } else {
        var k := PairComplete(text[..|text| - 1], ks, gap, odd, tail, c);
        ks, gap, odd, tail := ks + [k], "", "", "";
      }
    }
  }

  lemma NothingApart()
    ensures TakenApart("", [], "", "", "")
  {
  }

  // ----- the key search

  const CODE_OPCODES: set<byte> := {
    0x48, 0x49, 0x4C, 0x55, 0x53, 0x56, 0x41, 0x89,
    0x8B, 0xE8, 0xE9, 0xEB, 0xC3, 0xCC, 0x90}

  const PROBE: nat := 256
  const MIN_SCORE: nat := 20

  /** How many of the first `n` bytes become common opcodes under key `k`. */
  function KeyScore(data: seq<byte>, k: byte, n: nat): (r: nat)
    requires n <= |data|
    ensures r <= n
  {
    if n == 0 then 0
    else KeyScore(data, k, n - 1) + if Mask(data[n - 1], k) in CODE_OPCODES then 1 else 0
  }

  function ProbeScore(data: seq<byte>, k: nat): (r: nat)
    requires 1 <= k < 256
    ensures r <= PROBE
  {
    KeyScore(data, k as byte, Min(|data|, PROBE))
  }

  /** `k` has the highest score among the keys below `n`, and none before it
      does as well. */
  ghost predicate IsBestKey(data: seq<byte>, k: nat, n: nat)
    requires 1 < n <= 256
  {
    && 1 <= k < n
    && (forall j | 1 <= j < n :: ProbeScore(data, j) <= ProbeScore(data, k))
    && (forall j | 1 <= j < k :: ProbeScore(data, j) < ProbeScore(data, k))
  }

  /** The least of the best keys among 1 .. n-1. */
  function BestKey(data: seq<byte>, n: nat): (k: nat)
    requires 1 < n <= 256
    ensures IsBestKey(data, k, n)
  {
    if n == 2 then 1
    else
      var k := BestKey(data, n - 1);
      if ProbeScore(data, n - 1) > ProbeScore(data, k) then n - 1 else k
  }

  /** Automatic mode gives up exactly when no key scores 20. */
  lemma AutoFailsIff(data: seq<byte>)
    ensures ProbeScore(data, BestKey(data, 256)) < MIN_SCORE <==>
            forall k | 1 <= k < 256 :: ProbeScore(data, k) < MIN_SCORE
  {
    assert IsBestKey(data, BestKey(data, 256), 256);
  }

  // ----- the operation

  const CYCLIC_METHODS: set<string> := {"xor_single", "xor_multi", "auto", ""}

  function Unpacked(region: seq<byte>, method_: string, key: seq<byte>): (r: Option<seq<byte>>)
    requires key != []
    ensures r.Some? ==> |r.value| == |region|
  {
    if method_ in CYCLIC_METHODS then Some(Cyclic(region, key))
    else if method_ == "xor_rolling" then Some(Rolling(region, key[0]))
    else None
  }

  datatype KeyChoice = Chosen(key: seq<byte>) | NotChosen(error: OpError)

  /** The key to use: found by scoring in automatic mode, otherwise read from
      the text. */
  function ChooseKey(region: seq<byte>, method_: string, keyText: string): (c: KeyChoice)
    ensures c.Chosen? ==> c.key != []
  {
    var best := BestKey(region, 256);
    if method_ == "auto" && ProbeScore(region, best) < MIN_SCORE
    then NotChosen(AutoKeyFailed(ProbeScore(region, best)))
    else
      var key := if method_ == "auto" then [best as byte] else ParseKey(keyText);
      if key == [] then NotChosen(NoKey) else Chosen(key)
  }

  /** The background analysis is not stopped first. */
  function Unpack(m: Layout, s: Bin, va: u64, size: nat, method_: string, keyText: string): (Bin, OpResult) {
    if size == 0 || size > MAX_REGION then (s, Failed(BadSize))
    else
      match m(va)
      case None => (s, Failed(NotMapped))
      case Some(off) =>
        if off + size > |s.file| then (s, Failed(NotMapped))
        else
          var region := s.file[off..off + size];
          match ChooseKey(region, method_, keyText)
          case NotChosen(error) => (s, Failed(error))
          case Chosen(key) =>
            match Unpacked(region, method_, key)
            case None => (s, Failed(UnknownMethod))
            case Some(out) =>
              (Overwrite(s, va, off, out, false).(dirty := true),
               Done([Hit(va, XorRegion, 0)], size, if method_ == "auto" then Some(key[0]) else None))
  }

  /** The region lies in the file. */
  predicate HasRegion(m: Layout, s: Bin, va: u64, size: nat) {
    0 < size <= 0x40_0000 && m(va).Some? && m(va).value + size <= |s.file|
  }

  lemma KeyChosen(region: seq<byte>, method_: string, ks: seq<KeyByte>, tail: string)
    requires method_ != "auto" && ks != [] && AllClean(ks) && NoHex(tail)
    ensures ChooseKey(region, method_, KeyText(ks) + tail) == Chosen(Values(ks))
  {
    hide ParseKey, KeyText, AllClean, ProbeScore;
    KeyReadsBack(ks, tail);
  }

  /** A cyclic run with a key. */
  lemma CyclicRun(m: Layout, s: Bin, va: u64, size: nat, method_: string, keyText: string, key: seq<byte>)
    requires HasRegion(m, s, va, size) && method_ in {"xor_single", "xor_multi", "", "auto"} && key != []
    requires var off := m(va).value; ChooseKey(s.file[off..off + size], method_, keyText) == Chosen(key)
    ensures var off := m(va).value;
            var out := Cyclic(s.file[off..off + size], key);
            Unpack(m, s, va, size, method_, keyText)
            == (Overwrite(s, va, off, out, false).(dirty := true),
                Done([Hit(va, XorRegion, 0)], size, if method_ == "auto" then Some(key[0]) else None))
  {
    hide Overwrite, Cyclic, ChooseKey;
  }

  /** Each byte of the region is XORed with the key byte whose turn it is; nothing
      else changes. */
  ghost predicate MaskedBy(file: seq<byte>, file': seq<byte>, off: nat, size: nat, key: seq<byte>)
    requires key != []
  {
    && |file'| == |file|
    && forall o | 0 <= o < |file| ::
         file'[o] == if off <= o < off + size then file[o] ^ key[(o - off) % |key|] else file[o]
  }

  /** The bytes after a cyclic run. */
  lemma CyclicBytes(s: Bin, va: u64, off: nat, size: nat, key: seq<byte>)
    requires off + size <= |s.file| && key != []
    ensures var file' := Overwrite(s, va, off, Cyclic(s.file[off..off + size], key), false).file;
            MaskedBy(s.file, file', off, size, key)
  {
    hide Overwrite, Cyclic, MaskedBy;
    var out := Cyclic(s.file[off..off + size], key);
    OverwriteRegion(s, va, off, out, false);
    RegionMasked(s.file, Overwrite(s, va, off, out, false).file, off, size, key);
  }

  lemma RegionMasked(file: seq<byte>, file': seq<byte>, off: nat, size: nat, key: seq<byte>)
    requires off + size <= |file| == |file'| && key != []
    requires file'[off..off + size] == Cyclic(file[off..off + size], key)
    requires file'[..off] == file[..off] && file'[off + size..] == file[off + size..]
    ensures MaskedBy(file, file', off, size, key)
  {
    hide Cyclic;
    var region := file[off..off + size];
    CyclicIs(region, key);
    RegionReplaced(file, file', off, Cyclic(region, key));
    forall o | off <= o < off + size ensures file'[o] == file[o] ^ key[(o - off) % |key|] {
      assert region[o - off] == file[o];
    }
  }

  /** Main result: with a written key the cyclic modes mask each byte of the region
      with the key byte whose turn it is, and touch nothing else. */
  lemma UnpackCyclic(m: Layout, s: Bin, va: u64, size: nat, method_: string, ks: seq<KeyByte>, tail: string)
    requires HasRegion(m, s, va, size) && method_ in {"xor_single", "xor_multi", ""}
    requires ks != [] && AllClean(ks) && NoHex(tail)
    ensures var (s1, r) := Unpack(m, s, va, size, method_, KeyText(ks) + tail);
            var off := m(va).value;
            && r == Done([Hit(va, XorRegion, 0)], size, None) && s1.dirty
            && MaskedBy(s.file, s1.file, off, size, Values(ks))
  {
    hide Overwrite, Cyclic, ChooseKey, KeyText, AllClean, NoHex, Unpack, Values, MaskedBy;
    var off := m(va).value;
    KeyChosen(s.file[off..off + size], method_, ks, tail);
    CyclicRun(m, s, va, size, method_, KeyText(ks) + tail, Values(ks));
    CyclicBytes(s, va, off, size, Values(ks));
  }

  lemma CyclicIs(data: seq<byte>, key: seq<byte>)
    requires key != []
    ensures |Cyclic(data, key)| == |data|
    ensures forall i | 0 <= i < |data| :: Cyclic(data, key)[i] == data[i] ^ key[i % |key|]
  {
  }

  lemma RegionReplaced(file: seq<byte>, file': seq<byte>, off: nat, out: seq<byte>)
    requires off + |out| <= |file| == |file'| && file'[off..off + |out|] == out
    requires file'[..off] == file[..off] && file'[off + |out|..] == file[off + |out|..]
    ensures forall o | 0 <= o < |file| :: file'[o] == if off <= o < off + |out| then out[o - off] else file[o]
  {
    forall o | 0 <= o < |file|
      ensures file'[o] == if off <= o < off + |out| then out[o - off] else file[o]
    {
      if o < off {
        assert file'[..off][o] == file'[o] && file[..off][o] == file[o];
      } else if o < off + |out| {
        assert file'[off..off + |out|][o - off] == file'[o];
      } else {
        var rest := off + |out|;
        assert file'[rest..][o - rest] == file'[o] && file[rest..][o - rest] == file[o];
      }
    }
  }

  /** Unpacking twice with a cyclic key puts every byte of the image back, while
      the journal keeps both runs. */
  lemma UnpackTwice(m: Layout, s: Bin, va: u64, size: nat, method_: string, ks: seq<KeyByte>, tail: string)
    requires HasRegion(m, s, va, size) && method_ in {"xor_single", "xor_multi", ""}
    requires ks != [] && AllClean(ks) && NoHex(tail)
    ensures var key := KeyText(ks) + tail;
            var s1 := Unpack(m, s, va, size, method_, key).0;
            var (s2, r2) := Unpack(m, s1, va, size, method_, key);
            && r2.Done? && s2.file == s.file
            && |s2.patches| == |s.patches| + 2 * size
  {
    hide Overwrite, Cyclic, ChooseKey, KeyText, AllClean, NoHex;
    var off, key := m(va).value, Values(ks);
    var region := s.file[off..off + size];
    KeyChosen(region, method_, ks, tail);
    OverwriteRegion(s, va, off, Cyclic(region, key), false);
    CyclicTwice(region, key);
    KeyChosen(Cyclic(region, key), method_, ks, tail);
    OverwriteBack(s, va, off, Cyclic(region, key), false);
  }

  /** Whatever produced the region by chaining from the first key byte, rolling
      mode recovers it. */
  lemma UnpackRolling(m: Layout, s: Bin, va: u64, size: nat, ks: seq<KeyByte>, tail: string, plain: seq<byte>)
    requires HasRegion(m, s, va, size) && ks != [] && AllClean(ks) && NoHex(tail)
    requires s.file[m(va).value..m(va).value + size] == Chain(plain, ks[0].printed.value)
    ensures var (s1, r) := Unpack(m, s, va, size, "xor_rolling", KeyText(ks) + tail);
            && r == Done([Hit(va, XorRegion, 0)], size, None)
            && s1.file[m(va).value..m(va).value + size] == plain
  {
    hide Overwrite, Rolling, ChooseKey, KeyText, AllClean, NoHex, Chain;
    var off, key := m(va).value, Values(ks);
    KeyChosen(s.file[off..off + size], "xor_rolling", ks, tail);
    RollingInvertsChain(plain, key[0]);
    OverwriteRegion(s, va, off, plain, false);
  }

  /** Main result on failures: the size is checked first, then the region, then
      the key, then the method; a run that fails leaves the image alone. */
  lemma UnpackErrors(m: Layout, s: Bin, va: u64, size: nat, method_: string, keyText: string)
    ensures var (s1, r) := Unpack(m, s, va, size, method_, keyText);
            && (!r.Done? ==> s1 == s)
            && (r == Failed(BadSize) <==> size < 1 || size > 4 * 1024 * 1024)
            && (r == Failed(NotMapped)
                <==> 1 <= size <= 4 * 1024 * 1024 && (m(va).None? || m(va).value + size > |s.file|))
            && (HasRegion(m, s, va, size) && method_ != "auto" ==>
                  && (r == Failed(NoKey) <==> ParseKey(keyText) == [])
                  && (r == Failed(UnknownMethod) <==>
                        ParseKey(keyText) != [] && method_ !in {"xor_single", "xor_multi", "", "xor_rolling"}))
  {
    hide Overwrite, Cyclic, Rolling, ParseKey, ProbeScore, BestKey;
  }

  // ----- automatic mode

  /** Where the first 256 bytes become common opcodes under key `k`. */
  ghost function OpcodesUnder(data: seq<byte>, k: byte, n: nat): set<nat> {
    set i: nat | i < n && OpcodeAt(data, k, i)
  }

  ghost predicate OpcodeAt(data: seq<byte>, k: byte, i: nat) {
    i < |data| && IsOpcode(data[i] ^ k)
  }

  lemma OpcodesGrow(data: seq<byte>, k: byte, n: nat)
    ensures |OpcodesUnder(data, k, n + 1)| == |OpcodesUnder(data, k, n)| + if OpcodeAt(data, k, n) then 1 else 0
    ensures OpcodesUnder(data, k, 0) == {}
  {
    hide OpcodeAt;
    assert OpcodesUnder(data, k, n + 1) == OpcodesUnder(data, k, n) + if OpcodeAt(data, k, n) then {n} else {};
  }

  predicate IsOpcode(b: byte) {
    b in {0x48, 0x49, 0x4C, 0x55, 0x53, 0x56, 0x41, 0x89, 0x8B, 0xE8, 0xE9, 0xEB, 0xC3, 0xCC, 0x90}
  }

  lemma OpcodeMeans(b: byte, k: byte)
    ensures Mask(b, k) in CODE_OPCODES <==> IsOpcode(b ^ k)
  {
  }

  lemma {:induction false} KeyScoreCounts(data: seq<byte>, k: byte, n: nat)
    requires n <= |data|
    ensures KeyScore(data, k, n) == |OpcodesUnder(data, k, n)|
  {
    hide Mask, IsOpcode, CODE_OPCODES, OpcodesUnder;
    if n > 0 {
      KeyScoreCounts(data, k, n - 1);
      OpcodeMeans(data[n - 1], k);
      OpcodesGrow(data, k, n - 1);
    } else {
      OpcodesGrow(data, k, 0);
    }
  }

  /** How well key `k` does. */
  ghost function Merit(data: seq<byte>, k: nat): nat
    requires 1 <= k < 256
  {
    |OpcodesUnder(data, k as byte, 256)|
  }

  lemma MeritIsScore(data: seq<byte>, k: nat)
    requires 1 <= k < 256
    ensures ProbeScore(data, k) == Merit(data, k)
  {
    hide Mask, KeyScore, IsOpcode;
    var n := Min(|data|, 256);
    KeyScoreCounts(data, k as byte, n);
    assert OpcodesUnder(data, k as byte, n) == OpcodesUnder(data, k as byte, 256);
  }

  /** Main result: automatic mode finds a key exactly when some key makes twenty of
      the first 256 bytes common opcodes; it is the least of the best, and the
      whole region is masked with it. */
  lemma UnpackAuto(m: Layout, s: Bin, va: u64, size: nat, keyText: string)
    requires HasRegion(m, s, va, size)
    ensures var (s1, r) := Unpack(m, s, va, size, "auto", keyText);
            var off := m(va).value;
            var region := s.file[off..off + size];
            && (r.Done? <==> exists k | 1 <= k < 256 :: Merit(region, k) >= 20)
            && (r.Done? ==> exists k | 1 <= k < 256 ::
                  IsLeastBest(region, k) && UnpackedWith(s, va, off, size, s1, r, k))
  {
    hide Overwrite, Cyclic, KeyScore, Merit, ProbeScore, BestKey, Unpack, IsLeastBest, UnpackedWith;
    var off := m(va).value;
    var region := s.file[off..off + size];
    LeastBest(region);
    var best := BestKey(region, 256);
    if Merit(region, best) >= 20 {
      AutoSucceeds(m, s, va, size, keyText);
    } else {
      AutoGivesUp(m, s, va, size, keyText);
    }
  }

  /** Every byte of the region is masked with the key, which is reported. */
  ghost predicate UnpackedWith(s: Bin, va: u64, off: nat, size: nat, s1: Bin, r: OpResult, k: nat)
    requires 1 <= k < 256
  {
    && r == Done([Hit(va, XorRegion, 0)], size, Some(k as byte))
    && MaskedBy(s.file, s1.file, off, size, [k as byte])
  }

  lemma AutoSucceeds(m: Layout, s: Bin, va: u64, size: nat, keyText: string)
    requires HasRegion(m, s, va, size)
    requires var region := s.file[m(va).value..m(va).value + size]; ProbeScore(region, BestKey(region, 256)) >= 20
    ensures var (s1, r) := Unpack(m, s, va, size, "auto", keyText);
            var off := m(va).value;
            r.Done? && UnpackedWith(s, va, off, size, s1, r, BestKey(s.file[off..off + size], 256))
  {
    hide Overwrite, Cyclic, ProbeScore, BestKey, Unpack, MaskedBy, ChooseKey;
    var off := m(va).value;
    AutoChooses(s.file[off..off + size], keyText);
    var best := BestKey(s.file[off..off + size], 256);
    CyclicRun(m, s, va, size, "auto", keyText, [best as byte]);
    CyclicBytes(s, va, off, size, [best as byte]);
  }

  ghost predicate IsLeastBest(data: seq<byte>, k: nat)
    requires 1 <= k < 256
  {
    && (forall j | 1 <= j < 256 :: Merit(data, j) <= Merit(data, k))
    && (forall j | 1 <= j < k :: Merit(data, j) < Merit(data, k))
  }

  lemma LeastBest(data: seq<byte>)
    ensures var k := BestKey(data, 256);
            && IsLeastBest(data, k) && ProbeScore(data, k) == Merit(data, k)
            && (Merit(data, k) >= 20 <==> exists j | 1 <= j < 256 :: Merit(data, j) >= 20)
  {
    hide Merit, ProbeScore, BestKey;
    forall k | 1 <= k < 256 ensures ProbeScore(data, k) == Merit(data, k) { MeritIsScore(data, k); }
    assert IsBestKey(data, BestKey(data, 256), 256);
  }

  lemma AutoChooses(region: seq<byte>, keyText: string)
    requires ProbeScore(region, BestKey(region, 256)) >= 20
    ensures ChooseKey(region, "auto", keyText) == Chosen([BestKey(region, 256) as byte])
  {
    hide ProbeScore, BestKey, ParseKey;
  }

  lemma AutoGivesUp(m: Layout, s: Bin, va: u64, size: nat, keyText: string)
    requires HasRegion(m, s, va, size)
    requires var region := s.file[m(va).value..m(va).value + size]; ProbeScore(region, BestKey(region, 256)) < 20
    ensures !Unpack(m, s, va, size, "auto", keyText).1.Done?
  {
    hide Overwrite, Cyclic, ProbeScore, BestKey;
  }
}
