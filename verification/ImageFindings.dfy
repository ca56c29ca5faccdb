/** The packer report in terms of the image itself: which findings it has, how much
    they weigh, and when the image is called packed. */
module ImageFindings {
  import opened Words
  import opened Image
  import opened Packer

  // ----- what is looked for

  /** The file holds the section's raw bytes. */
  predicate Backed(s: Profile, size: nat) {
    s.span.rawSize > 0 && s.span.rawOffset as int + s.span.rawSize as int <= size
  }

  predicate LoudCode(s: Profile, size: nat) {
    Backed(s, size) && s.executable && s.entropy >= 7.5
  }

  predicate DenseData(s: Profile, size: nat) {
    Backed(s, size) && !s.executable && s.entropy >= 7.0 && s.span.rawSize > 4096
  }

  predicate WritableCode(s: Profile) {
    s.executable && s.writable && s.span.rawSize > 0
  }

  /** The section's memory holds the entry point; its end is a 32-bit sum. */
  predicate HoldsEntry(s: Profile, rva: u32) {
    var length := if s.span.virtualSize == 0 then s.span.rawSize else s.span.virtualSize;
    s.span.rva <= rva && rva < (s.span.rva as int + length as int) % 0x1_0000_0000
  }

  /** More memory than four times the file bytes, dense code at the entry, or a
      packer's name. */
  predicate OddEntry(s: Profile, image: Pe) {
    || (s.span.rawSize > 0 && s.span.virtualSize as int > (4 * s.span.rawSize as int) % 0x1_0000_0000)
    || (Backed(s, |image.file|) && image.entryEntropy > 6.8)
    || s.family != ""
  }

  /** The entry point lies in an odd section behind the first executable one. */
  predicate Misplaced(image: Pe) {
    exists e | 0 <= e < |image.sections| :: EntryAt(image, e) && OddEntry(image.sections[e], image)
                                            && exists f | 0 <= f < e :: image.sections[f].executable
  }

  /** Section `e` is the last that holds the entry point. */
  predicate EntryAt(image: Pe, e: nat)
    requires e < |image.sections|
  {
    && HoldsEntry(image.sections[e], image.entryRva)
    && forall k | e < k < |image.sections| :: !HoldsEntry(image.sections[k], image.entryRva)
  }

  ghost predicate HasUpxMagic(file: seq<octet>) {
    exists i: nat :: i + 4 <= |file| && file[i] == 0x55 && IsMagic(file, i)
  }

  /** "UPX!" */
  predicate IsMagic(file: seq<octet>, i: nat)
    requires i + 4 <= |file|
  {
    file[i] == 0x55 && file[i + 1] == 0x50 && file[i + 2] == 0x58 && file[i + 3] == 0x21
  }

  predicate Tiny(image: Pe) {
    image.imports <= 9 && image.loadsByName
  }

  predicate Importless(image: Pe) {
    image.imports == 0 && !image.loadsByName && image.sections != []
  }

  /** More than 512 bytes follow the raw bytes of every section. */
  ghost predicate Overlaid(image: Pe) {
    && (exists s <- image.sections :: s.span.rawOffset > 0 || s.span.rawSize > 0)
    && forall s <- image.sections :: s.span.rawOffset as int + s.span.rawSize as int + 512 < |image.file|
  }

  // ----- sections

  /** A finding about one section. */
  ghost predicate OfOne(s: Profile, size: nat, d: Detection) {
    || (s.family != "" && d == Detection(SectionName, s.family, ""))
    || (LoudCode(s, size) && d == Detection(ExecEntropy, "", s.name))
    || (DenseData(s, size) && d == Detection(DataEntropy, "", s.name))
    || (WritableCode(s) && d == Detection(WritableExec, "", ""))
  }

  /** The findings about one section, one behind the other. */
  lemma SectionIs(s: Profile, size: nat)
    ensures OfSection(s, size)
            == When(s.family != "", Detection(SectionName, s.family, ""))
               + (When(LoudCode(s, size), Detection(ExecEntropy, "", s.name))
                  + When(DenseData(s, size), Detection(DataEntropy, "", s.name)))
               + When(WritableCode(s), Detection(WritableExec, "", ""))
  {
    var b := When(LoudCode(s, size), Detection(ExecEntropy, "", s.name))
             + When(DenseData(s, size), Detection(DataEntropy, "", s.name));
    assert b == if LoudCode(s, size) then [Detection(ExecEntropy, "", s.name)]
                else When(DenseData(s, size), Detection(DataEntropy, "", s.name));
  }

  lemma OneSection(s: Profile, size: nat, d: Detection)
    ensures d in OfSection(s, size) <==> OfOne(s, size, d)
    ensures Score(OfSection(s, size)) == Heft(s, size)
  {
    hide Weight, When, OfSection, LoudCode, DenseData, WritableCode, Score;
    var named, loud := Detection(SectionName, s.family, ""), Detection(ExecEntropy, "", s.name);
    var dense, both := Detection(DataEntropy, "", s.name), Detection(WritableExec, "", "");
    var a, c := When(s.family != "", named), When(WritableCode(s), both);
    var b, b' := When(LoudCode(s, size), loud), When(DenseData(s, size), dense);
    SectionIs(s, size);
    ScoreWhen(s.family != "", named);
    ScoreWhen(LoudCode(s, size), loud);
    ScoreWhen(DenseData(s, size), dense);
    ScoreWhen(WritableCode(s), both);
    WhenHas(s.family != "", named);
    WhenHas(LoudCode(s, size), loud);
    WhenHas(DenseData(s, size), dense);
    WhenHas(WritableCode(s), both);
    ScoreConcat(b, b');
    ScoreConcat(a, b + b');
    ScoreConcat(a + (b + b'), c);
    SectionWeights(s.family, s.name);
  }

  /** What the findings about one section weigh. */
  function Heft(s: Profile, size: nat): nat {
    (if s.family == "" then 0 else if s.family == "Generic packed section" then 35 else 55)
    + (if LoudCode(s, size) then 45 else 0) + (if DenseData(s, size) then 12 else 0)
    + (if WritableCode(s) then 15 else 0)
  }

  lemma SectionWeights(family: string, name: Name)
    ensures Weight(Detection(SectionName, family, "")) == if family == "Generic packed section" then 35 else 55
    ensures Weight(Detection(ExecEntropy, "", name)) == 45 && Weight(Detection(DataEntropy, "", name)) == 12
    ensures Weight(Detection(WritableExec, "", "")) == 15
  {
  }

  lemma ScoreWhen(c: bool, d: Detection)
    ensures Score(When(c, d)) == if c then Weight(d) else 0
  {
    hide Weight;
    assert [d][..0] == [];
  }

  lemma {:induction false} ScoreConcat(a: seq<Detection>, b: seq<Detection>)
    ensures Score(a + b) == Score(a) + Score(b)
  {
    hide Weight;
    if b == [] {
      assert a + b == a;
    } else {
      ScoreConcat(a, b[..|b| - 1]);
      assert (a + b)[..|a + b| - 1] == a + b[..|b| - 1];
    }
  }

  ghost predicate OfSome(sections: seq<Profile>, size: nat, d: Detection) {
    exists k :: 0 <= k < |sections| && OfOne(sections[k], size, d)
  }

  function HeftOfAll(sections: seq<Profile>, size: nat): nat {
    if sections == [] then 0
    else HeftOfAll(sections[..|sections| - 1], size) + Heft(sections[|sections| - 1], size)
  }

  lemma {:induction false} SectionFindings(sections: seq<Profile>, size: nat)
    ensures forall d :: d in OfSections(sections, size) <==> OfSome(sections, size, d)
    ensures Score(OfSections(sections, size)) == HeftOfAll(sections, size)
  {
    hide OfSection, OfOne, Heft, Weight;
    if sections != [] {
      var front, last := sections[..|sections| - 1], sections[|sections| - 1];
      SectionFindings(front, size);
      ScoreConcat(OfSections(front, size), OfSection(last, size));
      forall d ensures d in OfSections(sections, size) <==> OfSome(sections, size, d) {
        OneSection(last, size, d);
        if OfSome(front, size, d) {
          var k :| 0 <= k < |front| && OfOne(front[k], size, d);
          assert OfOne(sections[k], size, d);
        }
        if OfOne(last, size, d) { assert OfOne(sections[|front|], size, d); }
        if OfSome(sections, size, d) && !OfOne(last, size, d) {
          var k :| 0 <= k < |sections| && OfOne(sections[k], size, d);
          assert OfOne(front[k], size, d);
        }
      }
      OneSection(last, size, Detection(Tls, "", ""));
    }
  }

  // ----- the entry point

  lemma ContainsMeans(s: Profile, rva: u32)
    ensures s.span.Contains(rva) <==> HoldsEntry(s, rva)
  {
  }

  lemma {:induction false} EntryIs(sections: seq<Profile>, rva: u32)
    ensures var r := EntrySection(sections, rva);
            && (r.Some? ==> HoldsEntry(sections[r.value], rva)
                            && forall k | r.value < k < |sections| :: !HoldsEntry(sections[k], rva))
            && (r.None? ==> forall k | 0 <= k < |sections| :: !HoldsEntry(sections[k], rva))
  {
    hide HoldsEntry, Section.Contains;
    if sections != [] {
      ContainsMeans(sections[|sections| - 1], rva);
      EntryIs(sections[..|sections| - 1], rva);
    }
  }

  lemma {:induction false} FirstIs(sections: seq<Profile>)
    ensures var r := FirstExecutable(sections);
            && (r.Some? ==> r.value < |sections| && sections[r.value].executable
                            && forall k | 0 <= k < r.value :: !sections[k].executable)
            && (r.None? ==> forall k | 0 <= k < |sections| :: !sections[k].executable)
  {
    if sections != [] { FirstIs(sections[..|sections| - 1]); }
  }

  lemma OddMeans(s: Profile, image: Pe)
    ensures Odd(s, image) <==> OddEntry(s, image)
  {
  }

  lemma LayoutMeans(image: Pe)
    ensures OfEntry(image) == When(Misplaced(image), Detection(Layout, "", ""))
  {
    hide HoldsEntry, Odd, OddEntry;
    EntryIs(image.sections, image.entryRva);
    FirstIs(image.sections);
    var entry, first := EntrySection(image.sections, image.entryRva), FirstExecutable(image.sections);
    if entry.Some? {
      OddMeans(image.sections[entry.value], image);
      assert EntryAt(image, entry.value);
      forall e | 0 <= e < |image.sections| && EntryAt(image, e) ensures e == entry.value {
      }
    }
  }

  // ----- the rest of the file

  lemma UpxMeans(file: seq<octet>)
    ensures Find(file, UPX_MAGIC, 0).Some? <==> HasUpxMagic(file)
  {
    hide Find;
    FindExact(file, UPX_MAGIC, 0);
    if i: nat :| MatchAt(file, UPX_MAGIC, i) { MagicAt(file, i); }
    if HasUpxMagic(file) {
      var i: nat :| i + 4 <= |file| && file[i] == 0x55 && IsMagic(file, i);
      MagicAt(file, i);
    }
  }

  lemma MagicAt(file: seq<octet>, i: nat)
    requires i + 4 <= |file|
    ensures MatchAt(file, UPX_MAGIC, i)
            <==> file[i] == 0x55 && file[i + 1] == 0x50 && file[i + 2] == 0x58 && file[i + 3] == 0x21
  {
    var four := file[i..i + 4];
    assert four[0] == file[i] && four[1] == file[i + 1] && four[2] == file[i + 2] && four[3] == file[i + 3];
    assert UPX_MAGIC[0] == 0x55 && UPX_MAGIC[1] == 0x50 && UPX_MAGIC[2] == 0x58 && UPX_MAGIC[3] == 0x21;
    if four[0] == 0x55 && four[1] == 0x50 && four[2] == 0x58 && four[3] == 0x21 { assert four == UPX_MAGIC; }
  }

  lemma {:induction false} EndIs(sections: seq<Profile>)
    ensures var end := EndOfRaw(sections);
            && (forall s <- sections :: s.span.rawOffset as int + s.span.rawSize as int <= end)
            && (end > 0 ==> exists s <- sections :: s.span.rawOffset as int + s.span.rawSize as int == end)
  {
    if sections != [] {
      var front, last := sections[..|sections| - 1], sections[|sections| - 1];
      EndIs(front);
      assert forall s :: s in sections <==> s in front || s == last;
    }
  }

  lemma OverlayMeans(image: Pe)
    ensures HasOverlay(image) <==> Overlaid(image)
  {
    hide EndOfRaw;
    EndIs(image.sections);
  }

  lemma ImportsMean(image: Pe)
    ensures OfImports(image) == When(Tiny(image), Detection(TinyImports, "", ""))
                                + When(Importless(image), Detection(NoImports, "", ""))
  {
  }

  // ----- all findings

  /** What the image has that the report names. */
  ghost predicate Has(image: Pe, markers: seq<Marked>, d: Detection) {
    || OfSome(image.sections, |image.file|, d)
    || (Misplaced(image) && d == Detection(Layout, "", ""))
    || (image.stub != "" && d == Detection(EntryStub, image.stub, ""))
    || d in OfMarkers(markers, image.file, 0)
    || (HasUpxMagic(image.file) && d == Detection(UpxMagic, "UPX", ""))
    || (Tiny(image) && d == Detection(TinyImports, "", ""))
    || (Importless(image) && d == Detection(NoImports, "", ""))
    || (image.tlsSize > 0 && d == Detection(Tls, "", ""))
    || (Overlaid(image) && d == Detection(Overlay, "", ""))
  }

  /** What all of it weighs, in hundredths. */
  ghost function Total(image: Pe, markers: seq<Marked>): nat {
    HeftOfAll(image.sections, |image.file|) + (if Misplaced(image) then 30 else 0)
    + (if image.stub != "" then 50 else 0) + 35 * |OfMarkers(markers, image.file, 0)|
    + (if HasUpxMagic(image.file) then 50 else 0) + (if Tiny(image) then 35 else 0)
    + (if Importless(image) then 25 else 0) + (if image.tlsSize > 0 then 5 else 0) + (if Overlaid(image) then 5 else 0)
  }

  /** The findings as they are added up. */
  lemma FindingsAre(image: Pe, markers: seq<Marked>)
    ensures Findings(image, markers)
            == OfSections(image.sections, |image.file|) + When(Misplaced(image), Detection(Layout, "", ""))
               + When(image.stub != "", Detection(EntryStub, image.stub, "")) + OfMarkers(markers, image.file, 0)
               + (When(HasUpxMagic(image.file), Detection(UpxMagic, "UPX", ""))
                  + (When(Tiny(image), Detection(TinyImports, "", ""))
                     + When(Importless(image), Detection(NoImports, "", "")))
                  + When(image.tlsSize > 0, Detection(Tls, "", "")) + When(Overlaid(image), Detection(Overlay, "", "")))
  {
    hide OfSections, OfEntry, OfMarkers, When, Find, HasOverlay, Overlaid, Misplaced, HasUpxMagic;
    LayoutMeans(image);
    UpxMeans(image.file);
    ImportsMean(image);
    OverlayMeans(image);
  }

  lemma WhenHas(c: bool, d: Detection)
    ensures forall x :: x in When(c, d) <==> c && x == d
  {
  }

  lemma FoundIff(image: Pe, markers: seq<Marked>, d: Detection)
    ensures d in Findings(image, markers) <==> Has(image, markers, d)
  {
    hide OfSections, OfMarkers, When, Overlaid, Misplaced, HasUpxMagic, OfSome, Findings;
    FindingsAre(image, markers);
    SectionFindings(image.sections, |image.file|);
    WhenHas(Misplaced(image), Detection(Layout, "", ""));
    WhenHas(image.stub != "", Detection(EntryStub, image.stub, ""));
    WhenHas(HasUpxMagic(image.file), Detection(UpxMagic, "UPX", ""));
    WhenHas(Tiny(image), Detection(TinyImports, "", ""));
    WhenHas(Importless(image), Detection(NoImports, "", ""));
    WhenHas(image.tlsSize > 0, Detection(Tls, "", ""));
    WhenHas(Overlaid(image), Detection(Overlay, "", ""));
  }

  lemma {:induction false} MarkersWeigh(markers: seq<Marked>, file: seq<octet>, cursor: nat)
    ensures Score(OfMarkers(markers, file, cursor)) == 35 * |OfMarkers(markers, file, cursor)|
    decreases |markers|
  {
    hide Find, Weight;
    if markers != [] {
      var at := Find(file, markers[0].bytes, cursor);
      var d := Detection(Marker, markers[0].name, "");
      MarkersWeigh(markers[1..], file, if at.Some? then at.value + 1 else cursor);
      if at.Some? {
        ScoreConcat([d], OfMarkers(markers[1..], file, at.value + 1));
        ScoreWhen(true, d);
        MarkerWeight(markers[0].name);
      }
    }
  }

  lemma MarkerWeight(name: string)
    ensures Weight(Detection(Marker, name, "")) == 35
  {
  }

  lemma OtherWeights(stub: string)
    ensures Weight(Detection(Layout, "", "")) == 30 && Weight(Detection(EntryStub, stub, "")) == 50
    ensures Weight(Detection(UpxMagic, "UPX", "")) == 50 && Weight(Detection(TinyImports, "", "")) == 35
    ensures Weight(Detection(NoImports, "", "")) == 25
    ensures Weight(Detection(Tls, "", "")) == 5 && Weight(Detection(Overlay, "", "")) == 5
  {
  }

  lemma TotalIs(image: Pe, markers: seq<Marked>)
    ensures Score(Findings(image, markers)) == Total(image, markers)
  {
    hide OfSections, OfMarkers, When, Overlaid, Misplaced, HasUpxMagic, Findings, Weight, Score, HeftOfAll;
    FindingsAre(image, markers);
    SectionFindings(image.sections, |image.file|);
    MarkersWeigh(markers, image.file, 0);
    OtherWeights(image.stub);
    var a, m := OfSections(image.sections, |image.file|), OfMarkers(markers, image.file, 0);
    var layout := When(Misplaced(image), Detection(Layout, "", ""));
    var stub := When(image.stub != "", Detection(EntryStub, image.stub, ""));
    var upx := When(HasUpxMagic(image.file), Detection(UpxMagic, "UPX", ""));
    var tiny := When(Tiny(image), Detection(TinyImports, "", ""));
    var none := When(Importless(image), Detection(NoImports, "", ""));
    var tls := When(image.tlsSize > 0, Detection(Tls, "", ""));
    var overlay := When(Overlaid(image), Detection(Overlay, "", ""));
    ScoreWhen(Misplaced(image), Detection(Layout, "", ""));
    ScoreWhen(image.stub != "", Detection(EntryStub, image.stub, ""));
    ScoreWhen(HasUpxMagic(image.file), Detection(UpxMagic, "UPX", ""));
    ScoreWhen(Tiny(image), Detection(TinyImports, "", ""));
    ScoreWhen(Importless(image), Detection(NoImports, "", ""));
    ScoreWhen(image.tlsSize > 0, Detection(Tls, "", ""));
    ScoreWhen(Overlaid(image), Detection(Overlay, "", ""));
    ScoreConcat(a, layout);
    ScoreConcat(a + layout, stub);
    ScoreConcat(a + layout + stub, m);
    ScoreConcat(tiny, none);
    ScoreConcat(upx, tiny + none);
    ScoreConcat(upx + (tiny + none), tls);
    ScoreConcat(upx + (tiny + none) + tls, overlay);
    ScoreConcat(a + layout + stub + m, upx + (tiny + none) + tls + overlay);
  }

  // ----- the report

  /** Main result: the report of a parsed image names exactly what the image has,
      and its confidence is what that weighs, at most 100. */
  lemma ReportIff(image: Pe, markers: seq<Marked>)
    requires image.ok
    ensures var v := Report(image, markers);
            && (forall d :: d in v.detections <==> Has(image, markers, d))
            && v.confidence == if Total(image, markers) > 100 then 100 else Total(image, markers)
  {
    hide Findings, NoteAll, Judge, Has, Total, Score, Strong;
    PackedMeans(image, markers);
    TotalIs(image, markers);
    forall d ensures d in Findings(image, markers) <==> Has(image, markers, d) { FoundIff(image, markers, d); }
  }

  /** Something in the image names a packer. */
  ghost predicate Names(image: Pe, markers: seq<Marked>) {
    || (exists k :: 0 <= k < |image.sections| && image.sections[k].family != "")
    || image.stub != "" || HasUpxMagic(image.file)
    || exists d <- OfMarkers(markers, image.file, 0) :: d.protector != ""
  }

  /** Something about it is more than a weak sign. */
  ghost predicate Suspicious(image: Pe, markers: seq<Marked>) {
    || (exists k :: 0 <= k < |image.sections|
                    && (LoudCode(image.sections[k], |image.file|) || WritableCode(image.sections[k])))
    || Misplaced(image) || Tiny(image) || Importless(image) || OfMarkers(markers, image.file, 0) != []
  }

  lemma NamesIff(image: Pe, markers: seq<Marked>)
    ensures Names(image, markers) <==> exists d :: Has(image, markers, d) && d.protector != ""
  {
    hide LoudCode, DenseData, WritableCode, Misplaced, HasUpxMagic, OfMarkers, Tiny, Importless, Overlaid;
    if k :| 0 <= k < |image.sections| && image.sections[k].family != "" {
      var d := Detection(SectionName, image.sections[k].family, "");
      assert OfOne(image.sections[k], |image.file|, d);
      assert Has(image, markers, d);
    }
    if image.stub != "" { assert Has(image, markers, Detection(EntryStub, image.stub, "")); }
    if HasUpxMagic(image.file) { assert Has(image, markers, Detection(UpxMagic, "UPX", "")); }
    if d :| d in OfMarkers(markers, image.file, 0) && d.protector != "" { assert Has(image, markers, d); }
  }

  lemma {:induction false} MarkersAre(markers: seq<Marked>, file: seq<octet>, cursor: nat)
    ensures forall d <- OfMarkers(markers, file, cursor) :: d.finding == Marker
    decreases |markers|
  {
    hide Find;
    if markers != [] {
      var at := Find(file, markers[0].bytes, cursor);
      MarkersAre(markers[1..], file, if at.Some? then at.value + 1 else cursor);
    }
  }

  lemma SuspiciousIff(image: Pe, markers: seq<Marked>)
    ensures Suspicious(image, markers) || Names(image, markers)
            <==> exists d :: Has(image, markers, d) && d.finding !in {DataEntropy, Tls, Overlay}
  {
    hide LoudCode, DenseData, WritableCode, Misplaced, HasUpxMagic, OfMarkers, Tiny, Importless, Overlaid;
    var size := |image.file|;
    if Names(image, markers) {
      NamesIff(image, markers);
      MarkersAre(markers, image.file, 0);
    }
    if k :| 0 <= k < |image.sections| && LoudCode(image.sections[k], size) {
      var d := Detection(ExecEntropy, "", image.sections[k].name);
      assert OfOne(image.sections[k], size, d);
      assert Has(image, markers, d);
    }
    if k :| 0 <= k < |image.sections| && WritableCode(image.sections[k]) {
      assert OfOne(image.sections[k], size, Detection(WritableExec, "", ""));
      assert Has(image, markers, Detection(WritableExec, "", ""));
    }
    if Misplaced(image) { assert Has(image, markers, Detection(Layout, "", "")); }
    if Tiny(image) { assert Has(image, markers, Detection(TinyImports, "", "")); }
    if Importless(image) { assert Has(image, markers, Detection(NoImports, "", "")); }
    if OfMarkers(markers, image.file, 0) != [] {
      MarkersAre(markers, image.file, 0);
      assert Has(image, markers, OfMarkers(markers, image.file, 0)[0]);
    }
  }

  /** Main result: an image is packed exactly when something in it names a packer,
      or it is suspicious and everything weighs at least 55. */
  lemma VerdictIff(image: Pe, markers: seq<Marked>)
    ensures Report(image, markers).packed
            <==> image.ok && (Names(image, markers) || (Suspicious(image, markers) && Total(image, markers) >= 55))
  {
    hide Findings, NoteAll, Judge, Has, Total, Score, Strong, Names, Suspicious;
    PackedIff(image, markers);
    TotalIs(image, markers);
    forall d ensures d in Findings(image, markers) <==> Has(image, markers, d) { FoundIff(image, markers, d); }
    forall d ensures Strong(d) <==> d.finding !in {DataEntropy, Tls, Overlay} { StrongIff(d); }
    NamesIff(image, markers);
    SuspiciousIff(image, markers);
  }

  /** The family is the first of the heaviest that are named; a packed image that
      names none has an unknown one, and any other image has none. */
  lemma FamilyIs(image: Pe, markers: seq<Marked>)
    requires image.ok
    ensures var v := Report(image, markers);
            && (Names(image, markers) ==> IsFamily(v.detections, v.family))
            && (!Names(image, markers) ==> v.family == if v.packed then "Unknown packer" else "")
  {
    hide Findings, NoteAll, Has, Score, Strong, Names, Weight, IsBestAt;
    var ds := Findings(image, markers);
    PackedMeans(image, markers);
    TallyIs(ds);
    forall d ensures d in ds <==> Has(image, markers, d) { FoundIff(image, markers, d); }
    NamesIff(image, markers);
  }

  /** So an executable and writable section of high entropy suffices. */
  lemma LoudWritableCodePacks(image: Pe, markers: seq<Marked>, k: nat)
    requires image.ok && k < |image.sections|
    requires LoudCode(image.sections[k], |image.file|) && WritableCode(image.sections[k])
    ensures Report(image, markers).packed
  {
    hide LoudCode, WritableCode, Report, Misplaced, OfMarkers, HasUpxMagic, Overlaid;
    VerdictIff(image, markers);
    OneOfAll(image.sections, |image.file|, k);
  }

  lemma {:induction false} OneOfAll(sections: seq<Profile>, size: nat, k: nat)
    requires k < |sections|
    ensures HeftOfAll(sections, size) >= Heft(sections[k], size)
  {
    hide Heft;
    if k < |sections| - 1 { OneOfAll(sections[..|sections| - 1], size, k); }
  }
}
