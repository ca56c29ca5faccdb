/** Packer verdict: weighted findings about sections, entry point, marker strings,
    imports, TLS and overlay, and the gate that turns them into packed or not. */
module Packer {
  import opened Words
  import opened Image

  type octet = x: int | 0 <= x < 256

  // ----- sampling a section before its entropy is taken

  const SAMPLE: nat := 256 * 1024

  /** Every byte of a small section, every stride-th byte of a large one. */
  function Stride(len: nat): (r: nat)
    ensures r >= 1
  {
    if len <= SAMPLE then 1 else len / SAMPLE
  }

  function Sampled<T>(data: seq<T>, i: nat, stride: nat): seq<T>
    requires stride > 0
    decreases |data| - i
  {
    if i >= |data| then [] else [data[i]] + Sampled(data, i + stride, stride)
  }

  function Occurrences(s: seq<octet>, b: octet): nat {
    multiset(s)[b]
  }

  lemma OccurrencesSnoc(s: seq<octet>, v: octet, b: octet)
    ensures Occurrences(s + [v], b) == Occurrences(s, b) + if b == v then 1 else 0
  {
    assert multiset(s + [v]) == multiset(s) + multiset{v};
  }

  function Sample<T>(data: seq<T>): seq<T> {
    Sampled(data, 0, Stride(|data|))
  }

  /** The histogram the entropy is computed from, and how many bytes it counts. */
  method Histogram(data: seq<octet>) returns (freq: array<nat>, n: nat)
    ensures freq.Length == 256
    ensures n == |Sample(data)|
    ensures forall b: octet :: freq[b] == Occurrences(Sample(data), b)
  {
    hide Stride, Occurrences;
    freq := new nat[256](_ => 0);
    n := 0;
    var stride := Stride(|data|);
    var i := 0;
    ghost var taken: seq<octet> := [];
    forall b: octet ensures Occurrences([], b) == 0 { NoOccurrences(b); }
    assert [] + Sampled(data, 0, stride) == Sampled(data, 0, stride);
    while i < |data|
      invariant n == |taken|
      invariant taken + Sampled(data, i, stride) == Sample(data)
      invariant forall b: octet :: freq[b] == Occurrences(taken, b)
    {
      var v := data[i];
      forall b: octet ensures Occurrences(taken + [v], b) == Occurrences(taken, b) + if b == v then 1 else 0 {
        OccurrencesSnoc(taken, v, b);
      }
      Regroup(taken, v, Sampled(data, i + stride, stride));
      freq[v] := freq[v] + 1;
      n := n + 1;
      taken := taken + [v];
      i := i + stride;
    }
    assert taken + [] == taken;
  }

  lemma NoOccurrences(b: octet)
    ensures Occurrences([], b) == 0
  {
  }

  lemma Regroup<T>(a: seq<T>, x: T, b: seq<T>)
    ensures a + ([x] + b) == (a + [x]) + b
  {
  }

  lemma OneMore(n: int, stride: int)
    ensures (n + 1) * stride == n * stride + stride
  {
  }

  lemma Scale(a: int, b: int, stride: int)
    requires a <= b && stride >= 0
    ensures a * stride <= b * stride
  {
  }

  lemma {:induction false} SampledCount<T>(data: seq<T>, i: nat, stride: nat)
    requires stride > 0 && i <= |data| + stride
    ensures |data| - i <= |Sampled(data, i, stride)| * stride
    ensures i <= |data| ==> |Sampled(data, i, stride)| * stride < |data| - i + stride
    decreases |data| - i
  {
    if i < |data| {
      SampledCount(data, i + stride, stride);
      OneMore(|Sampled(data, i + stride, stride)|, stride);
    }
  }

  lemma {:induction false} SampledIsPoint<T>(data: seq<T>, i: nat, stride: nat, k: nat)
    requires stride > 0 && k < |Sampled(data, i, stride)|
    ensures i + k * stride < |data| && Sampled(data, i, stride)[k] == data[i + k * stride]
    decreases k
  {
    if k == 0 {
      assert k * stride == 0;
    } else {
      OneMore(k - 1, stride);
      SampledIsPoint(data, i + stride, stride, k - 1);
    }
  }

  lemma AtLeast(n: int, stride: int, len: int, most: int)
    requires stride > 0 && most * stride <= len <= n * stride
    ensures n >= most
  {
    OneMore(n, stride);
    if n < most { Scale(n + 1, most, stride); }
  }

  lemma AtMost(n: int, stride: int, len: int, most: int)
    requires stride > 0 && n * stride < len + stride && len <= most * stride
    ensures n <= most
  {
    OneMore(most, stride);
    if n > most { Scale(most + 1, n, stride); }
  }

  /** The stride of a large section, and what twice the sample would span. */
  lemma StrideSpan(len: nat)
    requires len > SAMPLE
    ensures SAMPLE * Stride(len) <= len <= (2 * SAMPLE) * Stride(len)
  {
  }

  lemma WholeStride(len: nat)
    requires len <= SAMPLE
    ensures Stride(len) == 1
  {
  }

  /** Small sections are counted whole; large ones are thinned to between 256 Ki
      and twice as many bytes, the k-th of them at offset k times the stride. */
  lemma SampleBounds<T>(data: seq<T>)
    ensures var s := Sample(data);
            && (|data| <= 262144 ==> s == data)
            && (|data| > 262144 ==> 262144 <= |s| <= 524288)
            && forall k | 0 <= k < |s| :: k * Stride(|data|) < |data| && s[k] == data[k * Stride(|data|)]
  {
    hide Sampled, Stride;
    var stride := Stride(|data|);
    var s := Sample(data);
    SampledCount(data, 0, stride);
    forall k | 0 <= k < |s| ensures k * stride < |data| && s[k] == data[k * stride] {
      SampledIsPoint(data, 0, stride, k);
    }
    if |data| > SAMPLE {
      StrideSpan(|data|);
      AtLeast(|s|, stride, |data|, SAMPLE);
      AtMost(|s|, stride, |data|, 2 * SAMPLE);
    } else {
      WholeStride(|data|);
    }
  }

  // ----- findings

  datatype Finding =
    | SectionName | ExecEntropy | DataEntropy | WritableExec | Layout | EntryStub
    | Marker | UpxMagic | TinyImports | NoImports | Tls | Overlay

  /** The loaders' section names: at most 16 characters (8 in a PE), or two such
      halves joined by a dot. */
  predicate IsLoaded(name: string) {
    || |name| <= 16
    || exists i | 0 <= i < |name| :: name[i] == '.' && i <= 16 && |name| - i - 1 <= 16
  }

  type Name = name: string | IsLoaded(name) witness ""

  /** `protector` is empty when no family is identified; `section` is the name
      the text of an entropy finding quotes. */
  datatype Detection = Detection(finding: Finding, protector: string, section: Name)

  /** In hundredths. */
  function Weight(d: Detection): nat {
    match d.finding
    case SectionName => if d.protector == "Generic packed section" then 35 else 55
    case ExecEntropy => 45
    case DataEntropy => 12
    case WritableExec => 15
    case Layout => 30
    case EntryStub => 50
    case Marker => 35
    case UpxMagic => 50
    case TinyImports => 35
    case NoImports => 25
    case Tls => 5
    case Overlay => 5
  }

  /** The running score, family and findings. */
  datatype Tally = Tally(score: nat, family: string, best: nat, detections: seq<Detection>)

  const START := Tally(0, "", 0, [])

  function Note(t: Tally, d: Detection): Tally {
    var w := Weight(d);
    var t := t.(score := t.score + w, detections := t.detections + [d]);
    if d.protector != "" && w > t.best then t.(best := w, family := d.protector) else t
  }

  function NoteAll(t: Tally, ds: seq<Detection>): Tally {
    if ds == [] then t else Note(NoteAll(t, ds[..|ds| - 1]), ds[|ds| - 1])
  }

  const PHRASE := "executable section"

  /** Entropy findings are told apart by their text, which quotes the section's
      name. */
  predicate Strong(d: Detection) {
    match d.finding
    case ExecEntropy => true
    case DataEntropy => Mentions(d.section, PHRASE)
    case Tls => false
    case Overlay => false
    case _ => true
  }

  datatype Verdict = Verdict(packed: bool, family: string, confidence: nat, detections: seq<Detection>)

  const CLEAN := Verdict(false, "", 0, [])

  function Judge(t: Tally): Verdict {
    var confidence := if t.score > 100 then 100 else t.score;
    var strong := t.family != "" || exists d <- t.detections :: Strong(d);
    var packed := (confidence >= 55 && strong) || t.family != "";
    Verdict(packed, if packed && t.family == "" then "Unknown packer" else t.family, confidence, t.detections)
  }

  // ----- the image

  /** A section with its flags; `entropy` is the entropy of its sampled bytes,
      `family` the packer its name is known for, or empty. */
  datatype Profile = Profile(
    name: Name, span: Section, executable: bool, writable: bool, entropy: real, family: string)

  /** `stub` is the family of the first entry signature found, or empty;
      `entryEntropy` the entropy of the entry section's first bytes. */
  datatype Pe = Pe(
    ok: bool, sections: seq<Profile>, entryRva: u32, entryEntropy: real, stub: string,
    imports: nat, loadsByName: bool, tlsSize: u32, file: seq<octet>)

  datatype Marked = Marked(name: string, bytes: seq<octet>)

  predicate InFile(s: Profile, size: nat) {
    s.span.rawSize > 0 && s.span.rawOffset as int + s.span.rawSize as int <= size
  }

  function EntropyOf(s: Profile, size: nat): real {
    if InFile(s, size) then s.entropy else 0.0
  }

  function When(c: bool, d: Detection): seq<Detection> {
    if c then [d] else []
  }

  function OfSection(s: Profile, size: nat): seq<Detection> {
    var entropy := EntropyOf(s, size);
    When(s.family != "", Detection(SectionName, s.family, ""))
    + (if entropy >= 7.5 && s.executable then [Detection(ExecEntropy, "", s.name)]
       else When(entropy >= 7.0 && !s.executable && s.span.rawSize > 4096, Detection(DataEntropy, "", s.name)))
    + When(s.executable && s.writable && s.span.rawSize > 0, Detection(WritableExec, "", ""))
  }

  function OfSections(sections: seq<Profile>, size: nat): seq<Detection> {
    if sections == [] then []
    else OfSections(sections[..|sections| - 1], size) + OfSection(sections[|sections| - 1], size)
  }

  /** The index of the first executable section. */
  function FirstExecutable(sections: seq<Profile>): Option<nat> {
    if sections == [] then None
    else
      var rest := FirstExecutable(sections[..|sections| - 1]);
      if rest.Some? then rest
      else if sections[|sections| - 1].executable then Some(|sections| - 1) else None
  }

  /** The index of the last section that contains the entry point. */
  function EntrySection(sections: seq<Profile>, rva: u32): (r: Option<nat>)
    ensures r.Some? ==> r.value < |sections|
  {
    if sections == [] then None
    else if sections[|sections| - 1].span.Contains(rva) then Some(|sections| - 1)
    else EntrySection(sections[..|sections| - 1], rva)
  }

  /** The factor four is applied in 32-bit arithmetic. */
  predicate Odd(s: Profile, image: Pe) {
    || (s.span.virtualSize as int > (s.span.rawSize as int * 4) % TWO32 && s.span.rawSize > 0)
    || (InFile(s, |image.file|) && image.entryEntropy > 6.8)
    || s.family != ""
  }

  function OfEntry(image: Pe): seq<Detection> {
    var entry, first := EntrySection(image.sections, image.entryRva), FirstExecutable(image.sections);
    When(entry.Some? && first.Some? && entry.value > first.value && Odd(image.sections[entry.value], image),
         Detection(Layout, "", ""))
  }

  predicate MatchAt(file: seq<octet>, bytes: seq<octet>, i: nat) {
    i + |bytes| <= |file| && file[i..i + |bytes|] == bytes
  }

  /** The least offset from `begin` on at which the bytes occur. */
  method FindBytes(file: seq<octet>, bytes: seq<octet>, begin: nat) returns (r: Option<nat>)
    ensures r.Some? ==> begin <= r.value && MatchAt(file, bytes, r.value) && bytes != []
    ensures r.Some? ==> forall i: nat | begin <= i < r.value :: !MatchAt(file, bytes, i)
    ensures r.None? ==> bytes == [] || forall i: nat | begin <= i :: !MatchAt(file, bytes, i)
  {
    if bytes == [] || |file| < |bytes| {
      return None;
    }
    var i := begin;
    while i + |bytes| <= |file|
      invariant begin <= i
      invariant forall k: nat | begin <= k < i :: !MatchAt(file, bytes, k)
      decreases |file| - i
    {
      if file[i..i + |bytes|] == bytes {
        return Some(i);
      }
      i := i + 1;
    }
    return None;
  }

  function Find(file: seq<octet>, bytes: seq<octet>, begin: nat): (r: Option<nat>)
    ensures r.Some? ==> begin <= r.value
    decreases |file| - begin
  {
    if bytes == [] || begin + |bytes| > |file| then None
    else if MatchAt(file, bytes, begin) then Some(begin)
    else Find(file, bytes, begin + 1)
  }

  lemma {:induction false} FindIsLeast(file: seq<octet>, bytes: seq<octet>, begin: nat, r: Option<nat>)
    requires r.Some? ==> begin <= r.value && MatchAt(file, bytes, r.value) && bytes != []
    requires r.Some? ==> forall i: nat | begin <= i < r.value :: !MatchAt(file, bytes, i)
    requires r.None? ==> bytes == [] || forall i: nat | begin <= i :: !MatchAt(file, bytes, i)
    ensures r == Find(file, bytes, begin)
    decreases |file| - begin
  {
    if bytes != [] && begin + |bytes| <= |file| && !MatchAt(file, bytes, begin) {
      FindIsLeast(file, bytes, begin + 1, r);
    }
  }

  /** Each marker is searched for after the previous one found. */
  function OfMarkers(markers: seq<Marked>, file: seq<octet>, cursor: nat): seq<Detection>
    decreases |markers|
  {
    if markers == [] then []
    else
      var at := Find(file, markers[0].bytes, cursor);
      if at.Some? then [Detection(Marker, markers[0].name, "")] + OfMarkers(markers[1..], file, at.value + 1)
      else OfMarkers(markers[1..], file, cursor)
  }

  const UPX_MAGIC: seq<octet> := [0x55, 0x50, 0x58, 0x21]

  function OfImports(image: Pe): seq<Detection> {
    if image.imports < 10 && image.loadsByName then [Detection(TinyImports, "", "")]
    else When(image.imports == 0 && image.sections != [], Detection(NoImports, "", ""))
  }

  function EndOfRaw(sections: seq<Profile>): nat {
    if sections == [] then 0
    else
      var rest, s := EndOfRaw(sections[..|sections| - 1]), sections[|sections| - 1];
      var end := s.span.rawOffset as int + s.span.rawSize as int;
      if end > rest then end else rest
  }

  predicate HasOverlay(image: Pe) {
    0 < EndOfRaw(image.sections) && |image.file| > EndOfRaw(image.sections) + 512
  }

  function Rest(image: Pe): seq<Detection> {
    When(Find(image.file, UPX_MAGIC, 0).Some?, Detection(UpxMagic, "UPX", ""))
    + OfImports(image)
    + When(image.tlsSize > 0, Detection(Tls, "", ""))
    + When(HasOverlay(image), Detection(Overlay, "", ""))
  }

  /** Everything found, in the order it is found. */
  function Findings(image: Pe, markers: seq<Marked>): seq<Detection> {
    OfSections(image.sections, |image.file|)
    + OfEntry(image)
    + When(image.stub != "", Detection(EntryStub, image.stub, ""))
    + OfMarkers(markers, image.file, 0)
    + Rest(image)
  }

  lemma {:induction false} NoteAppend(t: Tally, a: seq<Detection>, b: seq<Detection>)
    ensures NoteAll(NoteAll(t, a), b) == NoteAll(t, a + b)
    decreases |b|
  {
    if b == [] {
      assert a + b == a;
    } else {
      NoteAppend(t, a, b[..|b| - 1]);
      assert (a + b)[..|a + b| - 1] == a + b[..|b| - 1];
    }
  }

  lemma NoteOne(t: Tally, c: bool, d: Detection)
    ensures NoteAll(t, When(c, d)) == if c then Note(t, d) else t
  {
    assert [d][..0] == [];
  }

  lemma OfMarkersStep(markers: seq<Marked>, k: nat, file: seq<octet>, cursor: nat)
    requires k < |markers|
    ensures var at := Find(file, markers[k].bytes, cursor);
            OfMarkers(markers[k..], file, cursor)
            == When(at.Some?, Detection(Marker, markers[k].name, ""))
               + OfMarkers(markers[k + 1..], file, if at.Some? then at.value + 1 else cursor)
  {
    assert markers[k..][1..] == markers[k + 1..];
    var rest := OfMarkers(markers[k + 1..], file, cursor);
    assert [] + rest == rest;
  }

  method NoteSection(t0: Tally, s: Profile, size: nat) returns (t: Tally)
    ensures t == NoteAll(t0, OfSection(s, size))
  {
    hide NoteAll, Note, When;
    t := t0;
    var entropy := if InFile(s, size) then s.entropy else 0.0;
    var named, loud, wide :=
      Detection(SectionName, s.family, ""), Detection(ExecEntropy, "", s.name), Detection(DataEntropy, "", s.name);
    var weak := entropy >= 7.0 && !s.executable && s.span.rawSize > 4096;
    NoteOne(t, s.family != "", named);
    if s.family != "" {
      t := Note(t, named);
    }
    ghost var a := When(s.family != "", named);
    ghost var b := if entropy >= 7.5 && s.executable then When(true, loud) else When(weak, wide);
    NoteOne(t, true, loud);
    NoteOne(t, weak, wide);
    NoteAppend(t0, a, b);
    if entropy >= 7.5 && s.executable {
      t := Note(t, loud);
    } else if weak {
      t := Note(t, wide);
    }
    var both := s.executable && s.writable && s.span.rawSize > 0;
    NoteOne(t, both, Detection(WritableExec, "", ""));
    NoteAppend(t0, a + b, When(both, Detection(WritableExec, "", "")));
    if both {
      t := Note(t, Detection(WritableExec, "", ""));
    }
    WhenTrue(loud);
  }

  lemma WhenTrue(d: Detection)
    ensures When(true, d) == [d]
  {
  }

  method NoteSections(image: Pe) returns (t: Tally, first: Option<nat>, entry: Option<nat>)
    ensures t == NoteAll(START, OfSections(image.sections, |image.file|))
    ensures first == FirstExecutable(image.sections)
    ensures entry == EntrySection(image.sections, image.entryRva)
  {
    hide OfSection, NoteAll, Section.Contains;
    var sections, size := image.sections, |image.file|;
    t, first, entry := START, None, None;
    assert sections[..0] == [];
    NoteNothing(START);
    for i := 0 to |sections|
      invariant t == NoteAll(START, OfSections(sections[..i], size))
      invariant first == FirstExecutable(sections[..i])
      invariant entry == EntrySection(sections[..i], image.entryRva)
    {
      var s := sections[i];
      assert sections[..i + 1][..i] == sections[..i];
      if s.executable && first.None? {
        first := Some(i);
      }
      if s.span.Contains(image.entryRva) {
        entry := Some(i);
      }
      NoteAppend(START, OfSections(sections[..i], size), OfSection(s, size));
      t := NoteSection(t, s, size);
    }
    assert sections[..|sections|] == sections;
  }

  lemma NoteNothing(t: Tally)
    ensures NoteAll(t, []) == t
  {
  }

  method NoteMarkers(t0: Tally, markers: seq<Marked>, file: seq<octet>) returns (t: Tally)
    ensures t == NoteAll(t0, OfMarkers(markers, file, 0))
  {
    hide NoteAll, Note, When, Find, MatchAt;
    t := t0;
    var cursor := 0;
    ghost var noted: seq<Detection> := [];
    assert markers[0..] == markers;
    NoteNothing(t0);
    assert [] + OfMarkers(markers, file, 0) == OfMarkers(markers, file, 0);
    for k := 0 to |markers|
      invariant t == NoteAll(t0, noted)
      invariant noted + OfMarkers(markers[k..], file, cursor) == OfMarkers(markers, file, 0)
    {
      var d := Detection(Marker, markers[k].name, "");
      OfMarkersStep(markers, k, file, cursor);
      var at := FindBytes(file, markers[k].bytes, cursor);
      FindIsLeast(file, markers[k].bytes, cursor, at);
      ghost var one := When(at.Some?, d);
      NoteOne(t, at.Some?, d);
      NoteAppend(t0, noted, one);
      ghost var rest := OfMarkers(markers[k + 1..], file, if at.Some? then at.value + 1 else cursor);
      assert noted + (one + rest) == (noted + one) + rest;
      noted := noted + one;
      if at.Some? {
        t := Note(t, d);
        cursor := at.value + 1;
      }
    }
    assert noted + [] == noted;
  }

  /** The weak findings about the file as a whole, and the import findings. */
  method NoteRest(t0: Tally, image: Pe) returns (t: Tally)
    ensures t == NoteAll(t0, Rest(image))
  {
    hide NoteAll, Note, When, Find, MatchAt, EndOfRaw;
    t := t0;
    var upx := FindBytes(image.file, UPX_MAGIC, 0);
    FindIsLeast(image.file, UPX_MAGIC, 0, upx);
    NoteOne(t, upx.Some?, Detection(UpxMagic, "UPX", ""));
    ghost var a := When(upx.Some?, Detection(UpxMagic, "UPX", ""));
    if upx.Some? {
      t := Note(t, Detection(UpxMagic, "UPX", ""));
    }
    var tiny, none := image.imports < 10 && image.loadsByName, image.imports == 0 && image.sections != [];
    NoteAppend(t0, a, OfImports(image));
    NoteOne(t, true, Detection(TinyImports, "", ""));
    WhenTrue(Detection(TinyImports, "", ""));
    NoteOne(t, none, Detection(NoImports, "", ""));
    if tiny {
      t := Note(t, Detection(TinyImports, "", ""));
    } else if none {
      t := Note(t, Detection(NoImports, "", ""));
    }
    t := NoteTail(t0, a + OfImports(image), t, image);
  }

  method NoteTail(ghost t0: Tally, ghost done: seq<Detection>, t1: Tally, image: Pe) returns (t: Tally)
    requires t1 == NoteAll(t0, done)
    ensures t == NoteAll(t0, done + When(image.tlsSize > 0, Detection(Tls, "", ""))
                             + When(HasOverlay(image), Detection(Overlay, "", "")))
  {
    hide NoteAll, Note, When;
    t := t1;
    var tls, overlay := Detection(Tls, "", ""), Detection(Overlay, "", "");
    NoteOne(t, image.tlsSize > 0, tls);
    ghost var b := When(image.tlsSize > 0, tls);
    NoteAppend(t0, done, b);
    if image.tlsSize > 0 {
      t := Note(t, tls);
    }
    var end := RawEnd(image.sections);
    NoteOne(t, HasOverlay(image), overlay);
    NoteAppend(t0, done + b, When(HasOverlay(image), overlay));
    if end > 0 && |image.file| > end + 512 {
      t := Note(t, overlay);
    }
  }

  method RawEnd(sections: seq<Profile>) returns (end: nat)
    ensures end == EndOfRaw(sections)
  {
    end := 0;
    assert sections[..0] == [];
    for i := 0 to |sections|
      invariant end == EndOfRaw(sections[..i])
    {
      assert sections[..i + 1][..i] == sections[..i];
      var last := sections[i].span.rawOffset as int + sections[i].span.rawSize as int;
      end := if last > end then last else end;
    }
    assert sections[..|sections|] == sections;
  }

  function Report(image: Pe, markers: seq<Marked>): Verdict {
    if image.ok then Judge(NoteAll(START, Findings(image, markers))) else CLEAN
  }

  method Analyze(image: Pe, markers: seq<Marked>) returns (v: Verdict)
    ensures v == Report(image, markers)
  {
    hide NoteAll, Note, When, OfSections, OfMarkers, Rest, Odd;
    if !image.ok {
      return CLEAN;
    }
    var t, first, entry := NoteSections(image);
    ghost var a := OfSections(image.sections, |image.file|);
    var moved := entry.Some? && first.Some? && entry.value > first.value && Odd(image.sections[entry.value], image);
    NoteOne(t, moved, Detection(Layout, "", ""));
    NoteAppend(START, a, OfEntry(image));
    if moved {
      t := Note(t, Detection(Layout, "", ""));
    }
    a := a + OfEntry(image);
    NoteOne(t, image.stub != "", Detection(EntryStub, image.stub, ""));
    NoteAppend(START, a, When(image.stub != "", Detection(EntryStub, image.stub, "")));
    if image.stub != "" {
      t := Note(t, Detection(EntryStub, image.stub, ""));
    }
    a := a + When(image.stub != "", Detection(EntryStub, image.stub, ""));
    NoteAppend(START, a, OfMarkers(markers, image.file, 0));
    t := NoteMarkers(t, markers, image.file);
    NoteAppend(START, a + OfMarkers(markers, image.file, 0), Rest(image));
    t := NoteRest(t, image);
    v := Judge(t);
  }

  // ----- what the verdict means

  function Score(ds: seq<Detection>): nat {
    if ds == [] then 0 else Score(ds[..|ds| - 1]) + Weight(ds[|ds| - 1])
  }

  /** The family of the heaviest finding that names one; of the first such. */
  ghost predicate IsBest(ds: seq<Detection>, family: string, best: nat) {
    if forall d <- ds :: d.protector == "" then family == "" && best == 0
    else exists i | 0 <= i < |ds| :: IsBestAt(ds, i) && family == ds[i].protector && best == Weight(ds[i])
  }

  ghost predicate IsFamily(ds: seq<Detection>, family: string) {
    exists i | 0 <= i < |ds| :: IsBestAt(ds, i) && family == ds[i].protector
  }

  ghost predicate IsBestAt(ds: seq<Detection>, i: nat)
    requires i < |ds|
  {
    && ds[i].protector != ""
    && (forall k | 0 <= k < |ds| && ds[k].protector != "" :: Weight(ds[k]) <= Weight(ds[i]))
    && (forall k | 0 <= k < i && ds[k].protector != "" :: Weight(ds[k]) < Weight(ds[i]))
  }

  lemma BestSnoc(ds: seq<Detection>, d: Detection, family: string, best: nat)
    requires IsBest(ds, family, best)
    ensures d.protector != "" && Weight(d) > best ==> IsBest(ds + [d], d.protector, Weight(d))
    ensures !(d.protector != "" && Weight(d) > best) ==> IsBest(ds + [d], family, best)
  {
    hide Weight;
    WeightPositive(d);
    var all := ds + [d];
    assert all[|ds|] == d;
    if forall x <- ds :: x.protector == "" {
      if d.protector != "" {
        assert IsBestAt(all, |ds|);
      }
    } else {
      var i :| 0 <= i < |ds| && IsBestAt(ds, i) && family == ds[i].protector && best == Weight(ds[i]);
      assert all[i] == ds[i];
      if d.protector != "" && Weight(d) > best {
        assert IsBestAt(all, |ds|);
      } else {
        assert IsBestAt(all, i);
      }
    }
  }

  lemma WeightPositive(d: Detection)
    ensures Weight(d) > 0
  {
  }

  lemma {:induction false} TallyIs(ds: seq<Detection>)
    ensures var t := NoteAll(START, ds);
            t.score == Score(ds) && t.detections == ds && IsBest(ds, t.family, t.best)
  {
    hide Weight, IsBest, NoteAll, Score;
    if ds == [] {
      NoneBest();
      NoteNothing(START);
      assert Score(ds) == 0 by { NoScore(); }
    } else {
      var front, last := ds[..|ds| - 1], ds[|ds| - 1];
      assert front + [last] == ds;
      TallyIs(front);
      TallySnoc(front, last);
      var t := NoteAll(START, front);
      BestSnoc(front, last, t.family, t.best);
    }
  }

  lemma NoScore()
    ensures Score([]) == 0
  {
  }

  lemma TallySnoc(front: seq<Detection>, last: Detection)
    ensures NoteAll(START, front + [last]) == Note(NoteAll(START, front), last)
    ensures Score(front + [last]) == Score(front) + Weight(last)
  {
    assert (front + [last])[..|front|] == front;
  }

  lemma NoneBest()
    ensures IsBest([], "", 0)
  {
  }

  /** Only the strong kinds of findings name a family. */
  predicate Sound(d: Detection) {
    d.protector != "" ==> Strong(d)
  }

  predicate AllSound(ds: seq<Detection>) {
    forall d <- ds :: Sound(d)
  }

  lemma {:induction false} SectionsSound(sections: seq<Profile>, size: nat)
    ensures AllSound(OfSections(sections, size))
  {
    hide EntropyOf, Mentions;
    if sections != [] {
      SectionsSound(sections[..|sections| - 1], size);
    }
  }

  lemma {:induction false} MarkersSound(markers: seq<Marked>, file: seq<octet>, cursor: nat)
    ensures AllSound(OfMarkers(markers, file, cursor))
    decreases |markers|
  {
    hide Find;
    if markers != [] {
      var at := Find(file, markers[0].bytes, cursor);
      MarkersSound(markers[1..], file, if at.Some? then at.value + 1 else cursor);
    }
  }

  lemma FindingsSound(image: Pe, markers: seq<Marked>)
    ensures AllSound(Findings(image, markers))
  {
    hide OfSections, OfMarkers, Rest, OfEntry, When, AllSound;
    var a, b := OfSections(image.sections, |image.file|), OfMarkers(markers, image.file, 0);
    var stub := When(image.stub != "", Detection(EntryStub, image.stub, ""));
    SectionsSound(image.sections, |image.file|);
    MarkersSound(markers, image.file, 0);
    RestSound(image);
    WhenSound(image.stub != "", Detection(EntryStub, image.stub, ""));
    SoundAppend(a, OfEntry(image));
    SoundAppend(a + OfEntry(image), stub);
    SoundAppend(a + OfEntry(image) + stub, b);
    SoundAppend(a + OfEntry(image) + stub + b, Rest(image));
  }

  lemma SoundAppend(a: seq<Detection>, b: seq<Detection>)
    requires AllSound(a) && AllSound(b)
    ensures AllSound(a + b)
  {
    hide Sound;
  }

  lemma WhenSound(c: bool, d: Detection)
    requires Sound(d)
    ensures AllSound(When(c, d))
  {
  }

  lemma RestSound(image: Pe)
    ensures AllSound(Rest(image)) && AllSound(OfEntry(image))
  {
    hide Find, HasOverlay, Odd, EntrySection, FirstExecutable, Mentions;
  }

  /** Main result: an image is packed exactly when some finding names a family, or
      the findings weigh at least 55 and one of them is strong. */
  lemma PackedIff(image: Pe, markers: seq<Marked>)
    ensures var ds := Findings(image, markers);
            Judge(NoteAll(START, ds)).packed
            <==> (exists d <- ds :: d.protector != "") || (Score(ds) >= 55 && exists d <- ds :: Strong(d))
  {
    hide Findings, Strong, NoteAll, Score;
    var ds := Findings(image, markers);
    TallyIs(ds);
  }

  /** A packed image always has a strong finding, a family is reported exactly for
      packed images, and it is that of the heaviest finding naming one. */
  lemma PackedMeans(image: Pe, markers: seq<Marked>)
    ensures var ds := Findings(image, markers);
            var v := Judge(NoteAll(START, ds));
            && (v.packed ==> exists d <- ds :: Strong(d))
            && (v.packed <==> v.family != "")
            && ((exists d <- ds :: d.protector != "") ==> IsFamily(ds, v.family))
            && v.detections == ds && v.confidence == if Score(ds) > 100 then 100 else Score(ds)
  {
    hide Findings, Strong, NoteAll, Score, Weight;
    var ds := Findings(image, markers);
    TallyIs(ds);
    FindingsSound(image, markers);
    PackedIff(image, markers);
    if exists d <- ds :: d.protector != "" {
      var d :| d in ds && d.protector != "";
      assert Sound(d);
    }
  }

  /** No section name the loaders produce contains the phrase. */
  lemma NoPhrase(name: Name)
    ensures !Mentions(name, PHRASE)
  {
    assert |PHRASE| == 18 && forall k | 0 <= k < 18 :: PHRASE[k] != '.';
    forall i | 0 <= i <= |name| ensures !(PHRASE <= name[i..]) {
      if |name| - i >= 18 {
        var j :| 0 <= j < |name| && name[j] == '.' && j <= 16 && |name| - j - 1 <= 16;
        assert i <= j < i + 18 && name[i..][j - i] == '.';
      }
    }
  }

  /** So the gate does tell the weak findings from the strong ones by kind. */
  lemma StrongIff(d: Detection)
    ensures Strong(d) <==> !d.finding.DataEntropy? && !d.finding.Tls? && !d.finding.Overlay?
  {
    NoPhrase(d.section);
  }

  /** Data entropy, TLS and overlay alone never pack, however much of them there
      is. */
  lemma WeakNeverPacks(image: Pe, markers: seq<Marked>)
    requires forall d <- Findings(image, markers) :: d.finding.DataEntropy? || d.finding.Tls? || d.finding.Overlay?
    ensures !Judge(NoteAll(START, Findings(image, markers))).packed
  {
    hide Findings, NoteAll, Strong, Score, Judge;
    PackedMeans(image, markers);
    forall d <- Findings(image, markers) ensures !Strong(d) { StrongIff(d); }
  }

  // ----- the marker strings

  lemma {:induction false} FindExact(file: seq<octet>, bytes: seq<octet>, begin: nat)
    ensures Find(file, bytes, begin).Some? <==> bytes != [] && exists i: nat | begin <= i :: MatchAt(file, bytes, i)
    decreases |file| - begin
  {
    if bytes != [] && begin + |bytes| <= |file| && !MatchAt(file, bytes, begin) {
      FindExact(file, bytes, begin + 1);
    }
  }

  /** Some marker is reported exactly when some marker occurs in the file. */
  lemma {:induction false} MarkersFoundIff(markers: seq<Marked>, file: seq<octet>)
    ensures OfMarkers(markers, file, 0) != [] <==> exists m <- markers :: Find(file, m.bytes, 0).Some?
    decreases |markers|
  {
    hide Find;
    if markers != [] {
      MarkersFoundIff(markers[1..], file);
      assert forall m :: m in markers <==> m == markers[0] || m in markers[1..];
    }
  }

  /** An image that contains a named marker anywhere is packed. */
  lemma MarkerPacks(image: Pe, markers: seq<Marked>, m: Marked, i: nat)
    requires m in markers && m.bytes != [] && MatchAt(image.file, m.bytes, i)
    requires forall x <- markers :: x.name != ""
    ensures Judge(NoteAll(START, Findings(image, markers))).packed
  {
    hide OfSections, EndOfRaw, Odd, Find, MatchAt, NoteAll, Score, Strong;
    FindExact(image.file, m.bytes, 0);
    MarkersFoundIff(markers, image.file);
    PackedIff(image, markers);
    MarkersNamed(markers, image.file, 0);
    var d := OfMarkers(markers, image.file, 0)[0];
    assert d in Findings(image, markers);
  }

  lemma {:induction false} MarkersNamed(markers: seq<Marked>, file: seq<octet>, cursor: nat)
    requires forall x <- markers :: x.name != ""
    ensures forall d <- OfMarkers(markers, file, cursor) :: d.protector != ""
    decreases |markers|
  {
    hide Find;
    if markers != [] {
      var at := Find(file, markers[0].bytes, cursor);
      MarkersNamed(markers[1..], file, if at.Some? then at.value + 1 else cursor);
    }
  }

  // ----- which markers are reported

  ghost predicate Occurs(file: seq<octet>, bytes: seq<octet>, from: nat) {
    bytes != [] && exists i: nat | from <= i :: MatchAt(file, bytes, i)
  }

  /** Where the search for the marker after the first `n` starts. */
  function CursorAt(markers: seq<Marked>, file: seq<octet>, n: nat): nat
    requires n <= |markers|
  {
    if n == 0 then 0
    else
      var cursor := CursorAt(markers, file, n - 1);
      var at := Find(file, markers[n - 1].bytes, cursor);
      if at.Some? then at.value + 1 else cursor
  }

  /** Of the first `n` markers those that occur where their search starts or
      later. */
  ghost function Listed(markers: seq<Marked>, file: seq<octet>, n: nat): seq<Detection>
    requires n <= |markers|
  {
    if n == 0 then []
    else
      Listed(markers, file, n - 1)
      + When(Occurs(file, markers[n - 1].bytes, CursorAt(markers, file, n - 1)),
             Detection(Marker, markers[n - 1].name, ""))
  }

  lemma {:induction false} ListedUpTo(markers: seq<Marked>, file: seq<octet>, n: nat)
    requires n <= |markers|
    ensures Listed(markers, file, n) + OfMarkers(markers[n..], file, CursorAt(markers, file, n))
            == OfMarkers(markers, file, 0)
  {
    hide Find, OfMarkers, When, MatchAt;
    if n == 0 {
      assert markers[0..] == markers && [] + OfMarkers(markers, file, 0) == OfMarkers(markers, file, 0);
    } else {
      var cursor := CursorAt(markers, file, n - 1);
      ListedUpTo(markers, file, n - 1);
      FindExact(file, markers[n - 1].bytes, cursor);
      OfMarkersStep(markers, n - 1, file, cursor);
      var before, rest := Listed(markers, file, n - 1), OfMarkers(markers[n..], file, CursorAt(markers, file, n));
      var one := When(Occurs(file, markers[n - 1].bytes, cursor), Detection(Marker, markers[n - 1].name, ""));
      assert (before + one) + rest == before + (one + rest);
    }
  }

  lemma {:induction false} ListedHas(markers: seq<Marked>, file: seq<octet>, n: nat, k: nat)
    requires k < |markers| && n <= |markers|
    requires forall i, j | 0 <= i < j < |markers| :: markers[i].name != markers[j].name
    ensures Detection(Marker, markers[k].name, "") in Listed(markers, file, n)
            <==> k < n && Occurs(file, markers[k].bytes, CursorAt(markers, file, k))
  {
    hide Occurs, CursorAt;
    if n > 0 { ListedHas(markers, file, n - 1, k); }
  }

  /** Main result: a marker is reported exactly when it occurs at or after the
      place where the search for it starts, which is behind the last marker
      found before it. */
  lemma MarkerReportedIff(markers: seq<Marked>, file: seq<octet>, k: nat)
    requires k < |markers|
    requires forall i, j | 0 <= i < j < |markers| :: markers[i].name != markers[j].name
    ensures Detection(Marker, markers[k].name, "") in OfMarkers(markers, file, 0)
            <==> Occurs(file, markers[k].bytes, CursorAt(markers, file, k))
  {
    hide Occurs, CursorAt;
    ListedUpTo(markers, file, |markers|);
    ListedHas(markers, file, |markers|, k);
    assert markers[|markers|..] == [];
  }

  /** Places for the markers that occur at all, rising in the order of the list. */
  ghost predicate InOrder(markers: seq<Marked>, file: seq<octet>, places: seq<nat>) {
    && |places| == |markers|
    && (forall k | 0 <= k < |markers| && Occurs(file, markers[k].bytes, 0) ::
          MatchAt(file, markers[k].bytes, places[k]))
    && (forall i, k | 0 <= i < k < |markers|
                      && Occurs(file, markers[i].bytes, 0) && Occurs(file, markers[k].bytes, 0) ::
          places[i] < places[k])
  }

  ghost predicate AllListed(markers: seq<Marked>, file: seq<octet>) {
    forall k | 0 <= k < |markers| && Occurs(file, markers[k].bytes, 0) ::
      Occurs(file, markers[k].bytes, CursorAt(markers, file, k))
  }

  lemma {:induction false} CursorRises(markers: seq<Marked>, file: seq<octet>, i: nat, k: nat)
    requires i <= k <= |markers|
    ensures CursorAt(markers, file, i) <= CursorAt(markers, file, k)
    decreases k
  {
    hide Find;
    if i < k { CursorRises(markers, file, i, k - 1); }
  }

  lemma FoundAt(file: seq<octet>, bytes: seq<octet>, begin: nat)
    ensures var r := Find(file, bytes, begin);
            && (r.Some? <==> Occurs(file, bytes, begin))
            && (r.Some? ==> begin <= r.value && MatchAt(file, bytes, r.value))
            && (r.Some? ==> forall i: nat | begin <= i < r.value :: !MatchAt(file, bytes, i))
    decreases |file| - begin
  {
    FindExact(file, bytes, begin);
    if bytes != [] && begin + |bytes| <= |file| && !MatchAt(file, bytes, begin) {
      FoundAt(file, bytes, begin + 1);
    }
  }

  /** The search never passes a place of a rising choice. */
  lemma {:induction false} CursorBefore(markers: seq<Marked>, file: seq<octet>, places: seq<nat>, n: nat, k: nat)
    requires InOrder(markers, file, places) && n <= k < |markers| && Occurs(file, markers[k].bytes, 0)
    ensures CursorAt(markers, file, n) <= places[k]
    decreases n
  {
    hide Find, MatchAt;
    if n > 0 {
      CursorBefore(markers, file, places, n - 1, k);
      var cursor := CursorAt(markers, file, n - 1);
      FoundAt(file, markers[n - 1].bytes, cursor);
      var at := Find(file, markers[n - 1].bytes, cursor);
      if at.Some? {
        assert Occurs(file, markers[n - 1].bytes, 0);
        CursorBefore(markers, file, places, n - 1, n - 1);
      }
    }
  }

  /** Main result: every marker that occurs is reported exactly when places of
      theirs can be chosen that rise in the order of the list. */
  lemma AllListedIff(markers: seq<Marked>, file: seq<octet>)
    ensures AllListed(markers, file) <==> exists places :: InOrder(markers, file, places)
  {
    if AllListed(markers, file) {
      var places := seq(|markers|, k requires 0 <= k < |markers| =>
        var at := Find(file, markers[k].bytes, CursorAt(markers, file, k)); if at.Some? then at.value else 0);
      forall k | 0 <= k < |markers| && Occurs(file, markers[k].bytes, 0)
        ensures MatchAt(file, markers[k].bytes, places[k]) && CursorAt(markers, file, k) <= places[k]
        ensures CursorAt(markers, file, k + 1) == places[k] + 1
      {
        hide Find, MatchAt;
        FoundAt(file, markers[k].bytes, CursorAt(markers, file, k));
      }
      hide Find, MatchAt, CursorAt, Occurs;
      forall i, k | 0 <= i < k < |markers| && Occurs(file, markers[i].bytes, 0) && Occurs(file, markers[k].bytes, 0)
        ensures places[i] < places[k]
      {
        CursorRises(markers, file, i + 1, k);
      }
      assert InOrder(markers, file, places);
    }
    if places :| InOrder(markers, file, places) {
      hide Find, MatchAt, CursorAt;
      forall k | 0 <= k < |markers| && Occurs(file, markers[k].bytes, 0)
        ensures Occurs(file, markers[k].bytes, CursorAt(markers, file, k))
      {
        CursorBefore(markers, file, places, k, k);
      }
    }
  }

  // ----- two of the real markers in the wrong order

  const NAMES: seq<string> := [
    "VMProtect", "Themida", "WinLicense", "Oreans Technologies",
    "ASProtect", "Enigma protector", "PECompact", "Obsidium",
    ".NET Reactor", "ConfuserEx"]

  function Octets(s: string): (r: seq<octet>)
    ensures |r| == |s|
  {
    seq(|s|, i requires 0 <= i < |s| => s[i] as int % 256)
  }

  const MARKERS: seq<Marked> := seq(|NAMES|, i requires 0 <= i < |NAMES| => Marked(NAMES[i], Octets(NAMES[i])))

  lemma StartsAt(file: seq<octet>, bytes: seq<octet>, i: nat)
    requires bytes != [] && MatchAt(file, bytes, i)
    ensures i < |file| && file[i] == bytes[0]
  {
    assert file[i..i + |bytes|][0] == bytes[0];
  }

  /** The first marker is found at `p`, and the second occurs only before. */
  lemma SecondIsMissed(markers: seq<Marked>, file: seq<octet>, p: nat)
    requires |markers| >= 2 && forall i, j | 0 <= i < j < |markers| :: markers[i].name != markers[j].name
    requires Find(file, markers[0].bytes, 0) == Some(p)
    requires Occurs(file, markers[1].bytes, 0) && forall i: nat | p < i :: !MatchAt(file, markers[1].bytes, i)
    ensures Detection(Marker, markers[1].name, "") !in OfMarkers(markers, file, 0) && !AllListed(markers, file)
  {
    hide OfMarkers, Find, MatchAt;
    assert CursorAt(markers, file, 0) == 0;
    assert CursorAt(markers, file, 1) == p + 1;
    MarkerReportedIff(markers, file, 1);
  }

  lemma WrongOrder()
    ensures var file := Octets("ThemidaVMProtect");
            && Find(file, Octets("VMProtect"), 0) == Some(7) && Occurs(file, Octets("Themida"), 0)
            && forall i: nat | 7 < i :: !MatchAt(file, Octets("Themida"), i)
  {
    hide Find;
    var file, v, t := Octets("ThemidaVMProtect"), Octets("VMProtect"), Octets("Themida");
    assert file[0..7] == t && file[7..16] == v;
    forall i: nat | i < 7 ensures !MatchAt(file, v, i) {
      if MatchAt(file, v, i) { StartsAt(file, v, i); }
    }
    FoundAt(file, v, 0);
    assert MatchAt(file, t, 0) && MatchAt(file, v, 7);
    forall i: nat | 7 < i ensures !MatchAt(file, t, i) {
      if MatchAt(file, t, i) { StartsAt(file, t, i); }
    }
  }

  /** In a file that reads "ThemidaVMProtect" the second marker of the list is
      there, but its search starts behind the first. */
  lemma EarlierMarkerIsMissed()
    ensures var file := Octets("ThemidaVMProtect");
            && MARKERS[1].name == "Themida" && Occurs(file, MARKERS[1].bytes, 0)
            && Detection(Marker, "Themida", "") !in OfMarkers(MARKERS, file, 0)
            && !AllListed(MARKERS, file)
  {
    hide OfMarkers, Find, MatchAt, Occurs, Octets, AllListed;
    WrongOrder();
    NamesDiffer();
    SecondIsMissed(MARKERS, Octets("ThemidaVMProtect"), 7);
  }

  /** Main result on markers: a file with any of these words in it is packed. */
  lemma RealMarkerPacks(image: Pe, name: string, i: nat)
    requires image.ok && MatchAt(image.file, Octets(name), i)
    requires name in {"VMProtect", "Themida", "WinLicense", "Oreans Technologies", "ASProtect", "Enigma protector",
                      "PECompact", "Obsidium", ".NET Reactor", "ConfuserEx"}
    ensures Report(image, MARKERS).packed
  {
    hide Octets, MatchAt, NoteAll, Judge, Findings;
    var k := NamePlace(name);
    assert MARKERS[k] in MARKERS;
    MarkerPacks(image, MARKERS, MARKERS[k], i);
  }

  lemma NamePlace(name: string) returns (k: nat)
    requires name in {"VMProtect", "Themida", "WinLicense", "Oreans Technologies", "ASProtect", "Enigma protector",
                      "PECompact", "Obsidium", ".NET Reactor", "ConfuserEx"}
    ensures k < |NAMES| == 10 && NAMES[k] == name && |name| > 0
    ensures forall j | 0 <= j < 10 :: NAMES[j] != ""
  {
    k := if name == "VMProtect" then 0 else if name == "Themida" then 1 else if name == "WinLicense" then 2
         else if name == "Oreans Technologies" then 3 else if name == "ASProtect" then 4
         else if name == "Enigma protector" then 5 else if name == "PECompact" then 6
         else if name == "Obsidium" then 7 else if name == ".NET Reactor" then 8 else 9;
  }

  lemma NamesDiffer()
    ensures forall i, j | 0 <= i < j < |MARKERS| :: MARKERS[i].name != MARKERS[j].name
  {
    hide Octets;
    forall i, j | 0 <= i < j < 10 ensures NAMES[i] != NAMES[j] {
      assert NAMES[i][0] != NAMES[j][0] || |NAMES[i]| != |NAMES[j]|;
    }
  }
}
