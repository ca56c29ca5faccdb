/** What the passes look for, in terms of the instructions themselves: which
    sites they report, which bytes they write there, and what the score counts. */
module Reports {
  import opened Words
  import opened Image
  import opened Decoder
  import opened Journal
  import opened Passes
  import opened DeadCode
  import opened Redecode
  import opened Regions
  import opened Effects

  // ----- opaque predicates

  ghost function ForcedBranches(w: seq<Insn>, n: nat): set<nat> {
    set i: nat | i < n && ForcedBranch(w, i)
  }

  ghost predicate ForcedHit(w: seq<Insn>, n: nat, h: Hit) {
    exists i: nat :: i < n && ForcedBranch(w, i) && h == Hit(w[i].va, ForceJmp, 0)
  }

  lemma ForcedGrow(w: seq<Insn>, n: nat)
    requires n < |w|
    ensures ForcedBranches(w, n + 1) == ForcedBranches(w, n) + if ForcedBranch(w, n) then {n} else {}
    ensures n !in ForcedBranches(w, n)
    ensures forall h :: ForcedHit(w, n + 1, h)
                        <==> ForcedHit(w, n, h) || (ForcedBranch(w, n) && h == Hit(w[n].va, ForceJmp, 0))
  {
    hide ForcedBranch;
    forall h | ForcedHit(w, n + 1, h) && !ForcedHit(w, n, h)
      ensures ForcedBranch(w, n) && h == Hit(w[n].va, ForceJmp, 0)
    {
      var i: nat :| i < n + 1 && ForcedBranch(w, i) && h == Hit(w[i].va, ForceJmp, 0);
      assert i == n;
    }
  }

  lemma NoneForced(w: seq<Insn>)
    ensures ForcedBranches(w, 0) == {} && forall h :: !ForcedHit(w, 0, h)
  {
  }

  lemma {:induction false} OpaqueHits(w: seq<Insn>, n: nat)
    requires n <= |w|
    ensures forall h :: h in Hits(OpaqueEdits(w, n)) <==> ForcedHit(w, n, h)
    ensures |Hits(OpaqueEdits(w, n))| == |ForcedBranches(w, n)|
  {
    hide ForcedBranch, ForcedBranches, ForcedHit, OpaqueAt, ForceWrites, Hits;
    if n == 0 {
      HitsOf([]);
      NoneForced(w);
    } else {
      OpaqueHits(w, n - 1);
      OpaqueMeans(w, n - 1);
      ForcedGrow(w, n - 1);
      var front, e := OpaqueEdits(w, n - 1), Edit(Hit(w[n - 1].va, ForceJmp, 0), ForceWrites(w[n - 1]));
      if ForcedBranch(w, n - 1) {
        HitsSnoc(front, e);
        assert OpaqueEdits(w, n) == front + [e];
      } else {
        assert OpaqueEdits(w, n) == front;
      }
      assert forall h :: h in Hits(OpaqueEdits(w, n))
                         <==> h in Hits(front) || (ForcedBranch(w, n - 1) && h == e.hit);
    }
  }

  lemma HitsOf(edits: seq<Edit>)
    ensures |Hits(edits)| == |edits|
    ensures forall h :: h in Hits(edits) <==> exists e :: e in edits && e.hit == h
  {
    forall h | h in Hits(edits) ensures exists e :: e in edits && e.hit == h {
      var i :| 0 <= i < |edits| && Hits(edits)[i] == h;
      assert edits[i] in edits;
    }
    forall e | e in edits ensures e.hit in Hits(edits) {
      var i :| 0 <= i < |edits| && edits[i] == e;
      assert Hits(edits)[i] == e.hit;
    }
  }

  /** Main result: one hit for each conditional jump right after XOR or TEST of a
      register with itself, and nothing else; dry or not. */
  lemma OpaqueReportIff(mc: Machine, s: Bin, fn: u64, dryRun: bool)
    ensures var w, r := mc.Walk(s.file, fn, WALK_CAP), Opaque(mc, s, fn, dryRun).1;
            && (r.Done? <==> w != [])
            && (r.Done? ==>
                  && (forall h :: h in r.hits <==> ForcedHit(w, |w|, h))
                  && |r.hits| == |ForcedBranches(w, |w|)|)
  {
    hide Machine.Walk, PokeAll, OpaqueEdits, Hits, Writes, ForcedHit, ForcedBranches;
    var w := mc.Walk(s.file, fn, WALK_CAP);
    OpaqueHits(w, |w|);
  }

  // ----- junk: what is filled

  /** An instruction that no walked branch targets, right behind a jump or a
      return. */
  ghost predicate Head(w: seq<Insn>, i: nat) {
    && 1 <= i < |w| && (w[i - 1].flow == Jmp || w[i - 1].flow == Ret)
    && forall m | 0 <= m < |w| :: w[m].relTarget != Some(w[i].va)
  }

  ghost predicate Targeted(w: seq<Insn>, k: nat)
    requires k < |w|
  {
    exists m :: 0 <= m < |w| && w[m].relTarget == Some(w[k].va)
  }

  /** The fill that begins at head `i` covers instruction `k`: there is no return
      on the way, no target behind the head, and `k` starts less than 64 bytes
      from the head. */
  ghost predicate Covers(w: seq<Insn>, i: nat, k: nat) {
    && Head(w, i) && i <= k < |w| && Disp(w, k) - Disp(w, i) < 64
    && (forall j | i <= j <= k :: w[j].flow != Ret)
    && (forall j | i < j <= k :: !Targeted(w, j))
  }

  lemma TargetedMeans(w: seq<Insn>, k: nat)
    requires k < |w|
    ensures w[k].va in Targets(w) <==> Targeted(w, k)
  {
  }

  lemma HeadMeans(w: seq<Insn>, i: nat)
    ensures DeadHead(w, Targets(w), i) <==> Head(w, i)
  {
  }

  lemma {:induction false} FillEndMeans(w: seq<Insn>, i: nat, j: nat, k: nat)
    requires i <= j <= k < |w| && Disp(w, i) <= Disp(w, j)
    ensures k < FillEnd(w, Targets(w), i, j, Disp(w, j) - Disp(w, i))
            <==> forall x | j <= x <= k ::
                   Disp(w, x) - Disp(w, i) < 64 && (!Targeted(w, x) || x == i) && w[x].flow != Ret
    decreases k - j
  {
    hide Disp, Targets, Targeted;
    TargetedMeans(w, j);
    if FillGoesOn(w, Targets(w), i, j, Disp(w, j) - Disp(w, i)) {
      NextDisp(w, j);
      if j < k { FillEndMeans(w, i, j + 1, k); }
    }
  }

  lemma CoversMeans(w: seq<Insn>, i: nat, k: nat)
    ensures Covers(w, i, k) <==> FilledFrom(w, i, k)
  {
    hide Disp, Targets, Targeted, DeadHead, Head, FillEnd;
    HeadMeans(w, i);
    if Head(w, i) && i <= k < |w| {
      HeadNotTargeted(w, i);
      FillEndMeans(w, i, i, k);
      forall x | i <= x <= k ensures Disp(w, x) <= Disp(w, k) { DispMonotone(w, x, k); }
      if Covers(w, i, k) {
        forall x | i <= x <= k
          ensures Disp(w, x) - Disp(w, i) < 64 && (!Targeted(w, x) || x == i) && w[x].flow != Ret
        {
        }
        assert k < FillEnd(w, Targets(w), i, i, Disp(w, i) - Disp(w, i));
      }
      if FilledFrom(w, i, k) {
        assert k < FillEnd(w, Targets(w), i, i, Disp(w, i) - Disp(w, i));
        assert Disp(w, k) - Disp(w, i) < 64;
        forall j | i <= j <= k ensures w[j].flow != Ret && (i < j ==> !Targeted(w, j)) {
          assert Disp(w, j) <= Disp(w, k);
        }
      }
    } else if k >= |w| {
      FillEndsInside(w, i);
    }
  }

  lemma FillEndsInside(w: seq<Insn>, i: nat)
    ensures i <= |w| ==> FillEnd(w, Targets(w), i, i, 0) <= |w|
  {
  }

  lemma HeadNotTargeted(w: seq<Insn>, i: nat)
    requires Head(w, i)
    ensures 1 <= i < |w| && !Targeted(w, i)
  {
  }

  ghost predicate Covered(w: seq<Insn>, k: nat) {
    exists i :: Covers(w, i, k)
  }

  lemma CoveredMeans(w: seq<Insn>, k: nat)
    ensures Covered(w, k) <==> Filled(w, k)
  {
    hide Covers, FilledFrom;
    forall i: nat ensures Covers(w, i, k) <==> FilledFrom(w, i, k) { CoversMeans(w, i, k); }
  }

  /** Main result: after the pass an instruction of the function is no-operations
      throughout if the pass is aggressive and some fill covers it, and as it was
      otherwise. */
  lemma FillIff(mc: Machine, s: Bin, fn: u64, aggressive: bool, threshold: nat, k: nat)
    requires ReadsPrefix(mc.decode) && LinearFn(mc, s, fn) && k < |mc.Walk(s.file, fn, WALK_CAP)|
    ensures var w, file' := mc.Walk(s.file, fn, WALK_CAP), NopJunk(mc, s, fn, aggressive, threshold).0.file;
            var at := mc.layout(fn).value + Disp(w, k);
            && at + w[k].length <= |s.file| == |file'|
            && forall o | at <= o < at + w[k].length ::
                 file'[o] == if aggressive && Covered(w, k) then 0x90 else s.file[o]
  {
    hide Machine.Walk, Machine.DecodeAt, Disp, Add64, Covered, Filled, NopJunk, HasShape, ReadsPrefix;
    var w, file' := mc.Walk(s.file, fn, WALK_CAP), NopJunk(mc, s, fn, aggressive, threshold).0.file;
    var at := mc.layout(fn).value + Disp(w, k);
    mc.WalkIsLaid(s.file, fn);
    assert mc.InsnAt(s.file, fn, w, k);
    mc.DecodedInsn(s.file, w[k].va);
    mc.InsnOffset(s.file, fn, w, k, 0);
    if aggressive {
      CoveredMeans(w, k);
      FillReshapes(mc, s, fn, threshold);
      assert HasShape(file', at, w[k], FillShapes(w)[k]);
      ShapeBytes(s.file, file', at, w[k], FillShapes(w)[k]);
    } else {
      SledsChangeNothing(mc, s, fn, threshold);
    }
  }

  lemma ShapeBytes(file: seq<byte>, file': seq<byte>, at: nat, insn: Insn, shape: Shape)
    requires at + insn.length <= |file| && insn.bytes == file[at..at + insn.length]
    requires HasShape(file', at, insn, shape) && shape in {Same, AllNops}
    ensures forall o | at <= o < at + insn.length :: file'[o] == if shape == AllNops then 0x90 else file[o]
  {
    forall o | at <= o < at + insn.length
      ensures file'[o] == if shape == AllNops then 0x90 else file[o]
    {
      assert file'[at..at + insn.length][o - at] == file'[o] && file[at..at + insn.length][o - at] == file[o];
    }
  }

  lemma SledsChangeNothing(mc: Machine, s: Bin, fn: u64, threshold: nat)
    ensures NopJunk(mc, s, fn, false, threshold).0.file == s.file
  {
    hide Machine.Walk, Sleds;
    var w := mc.Walk(s.file, fn, WALK_CAP);
    SledsWriteNothing(w, ClampThreshold(threshold), |w|);
    assert JunkEdits(w, false, threshold) == Sleds(w, ClampThreshold(threshold), |w|);
  }

  // ----- junk: what is reported

  /** `r` no-operations from index `a` on, neither preceded nor followed by one. */
  ghost predicate ClosedRun(w: seq<Insn>, a: nat, r: nat) {
    && 1 <= r && a + r < |w| && (forall k | a <= k < a + r :: w[k].mnemonic == Nop)
    && (a > 0 ==> w[a - 1].mnemonic != Nop) && w[a + r].mnemonic != Nop
  }

  ghost predicate SledFrom(w: seq<Insn>, t: nat, n: nat, a: nat) {
    exists r: nat :: ClosedRun(w, a, r) && r > t && a + r < n
  }

  ghost predicate SledHit(w: seq<Insn>, t: nat, n: nat, h: Hit) {
    exists a: nat, r: nat :: ClosedRun(w, a, r) && r > t && a + r < n && h == Hit(w[a].va, NopSled, r)
  }

  ghost function SledStarts(w: seq<Insn>, t: nat, n: nat): set<nat> {
    set a | 0 <= a < n && SledFrom(w, t, n, a)
  }

  lemma OneRun(w: seq<Insn>, a: nat, r: nat, q: nat)
    requires ClosedRun(w, a, r) && ClosedRun(w, a, q)
    ensures r == q
  {
  }

  /** The run that ends right before index `e`. */
  lemma RunBefore(w: seq<Insn>, e: nat, a: nat, r: nat)
    requires e < |w| && w[e].mnemonic != Nop
    ensures ClosedRun(w, a, r) && a + r == e <==> r == NopRun(w, e) >= 1 && a == e - r
  {
    hide NopRun;
    NopRunMeans(w, e);
  }

  lemma NopRunMeans(w: seq<Insn>, e: nat)
    requires e <= |w|
    ensures var r := NopRun(w, e);
            r <= e && (forall k | e - r <= k < e :: w[k].mnemonic == Nop) && (r < e ==> w[e - r - 1].mnemonic != Nop)
  {
  }

  /** Runs that end before `n` are those that end before `n - 1`, and the one that
      ends there. */
  lemma SledsGrow(w: seq<Insn>, t: nat, n: nat)
    requires 1 <= n <= |w|
    ensures var r := NopRun(w, n - 1);
            var new_ := w[n - 1].mnemonic != Nop && r > t;
            && SledStarts(w, t, n) == SledStarts(w, t, n - 1) + (if new_ then {n - 1 - r} else {})
            && (new_ ==> n - 1 - r !in SledStarts(w, t, n - 1) && ClosedRun(w, n - 1 - r, r))
  {
    hide NopRun, ClosedRun;
    var r := NopRun(w, n - 1);
    NopRunMeans(w, n - 1);
    forall a: nat, q: nat
      ensures ClosedRun(w, a, q) && a + q == n - 1 <==> w[n - 1].mnemonic != Nop && q == r >= 1 && a == n - 1 - q
    {
      if w[n - 1].mnemonic != Nop { RunBefore(w, n - 1, a, q); } else { RunNeedsEnd(w, a, q); }
    }
    forall a: nat | SledFrom(w, t, n, a) && !SledFrom(w, t, n - 1, a)
      ensures w[n - 1].mnemonic != Nop && r > t && a == n - 1 - r
    {
      var q: nat :| ClosedRun(w, a, q) && q > t && a + q < n;
      assert a + q == n - 1;
    }
    if w[n - 1].mnemonic != Nop && r > t {
      var a := n - 1 - r;
      assert ClosedRun(w, a, r);
      assert SledFrom(w, t, n, a);
      if SledFrom(w, t, n - 1, a) {
        var q: nat :| ClosedRun(w, a, q) && q > t && a + q < n - 1;
        OneRun(w, a, r, q);
      }
    }
    forall a: nat | SledFrom(w, t, n - 1, a) ensures SledFrom(w, t, n, a) && a < n - 1 {
      var q: nat :| ClosedRun(w, a, q) && q > t && a + q < n - 1;
    }
  }

  lemma RunNeedsEnd(w: seq<Insn>, a: nat, q: nat)
    ensures ClosedRun(w, a, q) ==> a + q < |w| && w[a + q].mnemonic != Nop
  {
  }

  lemma SledHitsGrow(w: seq<Insn>, t: nat, n: nat, h: Hit)
    requires 1 <= n <= |w|
    ensures var r := NopRun(w, n - 1);
            r <= n - 1
            && (SledHit(w, t, n, h)
                <==> SledHit(w, t, n - 1, h)
                     || (w[n - 1].mnemonic != Nop && r > t && h == Hit(w[n - 1 - r].va, NopSled, r)))
  {
    hide NopRun, ClosedRun;
    var r := NopRun(w, n - 1);
    NopRunMeans(w, n - 1);
    if SledHit(w, t, n, h) {
      var a: nat, q: nat :| ClosedRun(w, a, q) && q > t && a + q < n && h == Hit(w[a].va, NopSled, q);
      RunNeedsEnd(w, a, q);
      if a + q == n - 1 { RunBefore(w, n - 1, a, q); }
    }
    if w[n - 1].mnemonic != Nop && r > t {
      RunBefore(w, n - 1, n - 1 - r, r);
    }
  }

  lemma {:induction false} SledHits(w: seq<Insn>, t: nat, n: nat)
    requires n <= |w|
    ensures forall h :: h in Hits(Sleds(w, t, n)) <==> SledHit(w, t, n, h)
    ensures |Hits(Sleds(w, t, n))| == |SledStarts(w, t, n)|
  {
    hide SledHit, NopRun, Hits, SledStarts;
    if n == 0 {
      HitsOf([]);
      NoSledStarts(w, t);
    } else {
      SledHits(w, t, n - 1);
      SledsGrow(w, t, n);
      NopRunMeans(w, n - 1);
      var r := NopRun(w, n - 1);
      var front := Sleds(w, t, n - 1);
      if w[n - 1].mnemonic != Nop && r > t {
        HitsSnoc(front, Edit(Hit(w[n - 1 - r].va, NopSled, r), []));
      } else {
        assert Sleds(w, t, n) == front;
      }
      forall h ensures h in Hits(Sleds(w, t, n)) <==> SledHit(w, t, n, h) { SledHitsGrow(w, t, n, h); }
    }
  }

  lemma NoSledStarts(w: seq<Insn>, t: nat)
    ensures SledStarts(w, t, 0) == {} && forall h :: !SledHit(w, t, 0, h)
  {
  }

  /** The fill that begins at head `i` ends at `e`. */
  ghost predicate CoversUpTo(w: seq<Insn>, i: nat, e: nat) {
    i <= e <= |w| && forall k: nat :: Covers(w, i, k) <==> i <= k < e
  }

  lemma FillEndIs(w: seq<Insn>, i: nat, e: nat)
    requires Head(w, i)
    ensures i < |w| && (CoversUpTo(w, i, e) <==> e == FillEnd(w, Targets(w), i, i, 0))
  {
    hide Covers, Targets;
    HeadMeans(w, i);
    var end := FillEnd(w, Targets(w), i, i, 0);
    forall k: nat ensures Covers(w, i, k) <==> i <= k < end { CoversMeans(w, i, k); }
    assert (Covers(w, i, e) <==> i <= e < end) && !Covers(w, i, end);
  }

  /** The bytes of instructions `i` to `e` - 1. */
  function Extent(w: seq<Insn>, i: nat, e: nat): nat {
    if i <= e <= |w| then DispMonotone(w, i, e); Disp(w, e) - Disp(w, i) else 0
  }

  ghost predicate DeadHit(w: seq<Insn>, n: nat, h: Hit) {
    exists i: nat, e: nat :: i < n && Head(w, i) && CoversUpTo(w, i, e) && h == Hit(w[i].va, DeadCode, Extent(w, i, e))
  }

  lemma DeadHitsGrow(w: seq<Insn>, n: nat, h: Hit)
    requires 1 <= n <= |w|
    ensures DeadHit(w, n, h) <==> DeadHit(w, n - 1, h)
                                  || (Head(w, n - 1) && h == DeadEdit(w, Targets(w), n - 1).hit)
  {
    hide Head, CoversUpTo, Targets, FillEnd, Disp, NopsOver;
    var i := n - 1;
    if Head(w, i) {
      var end := FillEnd(w, Targets(w), i, i, 0);
      FillEndIs(w, i, end);
      assert DeadEdit(w, Targets(w), i).hit == Hit(w[i].va, DeadCode, Extent(w, i, end));
      if h == Hit(w[i].va, DeadCode, Extent(w, i, end)) { assert DeadHit(w, n, h); }
    }
    if DeadHit(w, n, h) {
      var a: nat, e: nat :| a < n && Head(w, a) && CoversUpTo(w, a, e) && h == Hit(w[a].va, DeadCode, Extent(w, a, e));
      if a == i { FillEndIs(w, i, e); }
    }
  }

  lemma {:induction false} DeadHits(w: seq<Insn>, n: nat)
    requires n <= |w|
    ensures forall h :: h in Hits(DeadEdits(w, Targets(w), n)) <==> DeadHit(w, n, h)
    ensures |Hits(DeadEdits(w, Targets(w), n))| == |Heads(w, n)|
  {
    hide Head, Heads, DeadHit, Targets, DeadHead, Hits, DeadEdit;
    if n == 0 {
      HitsOf([]);
      NoDeadHit(w);
    } else {
      DeadHits(w, n - 1);
      HeadMeans(w, n - 1);
      HeadsGrow(w, n - 1);
      var front := DeadEdits(w, Targets(w), n - 1);
      if Head(w, n - 1) {
        HitsSnoc(front, DeadEdit(w, Targets(w), n - 1));
      } else {
        assert DeadEdits(w, Targets(w), n) == front;
      }
      forall h ensures h in Hits(DeadEdits(w, Targets(w), n)) <==> DeadHit(w, n, h) { DeadHitsGrow(w, n, h); }
    }
  }

  lemma NoDeadHit(w: seq<Insn>)
    ensures Heads(w, 0) == {} && forall h :: !DeadHit(w, 0, h)
  {
  }

  ghost function Heads(w: seq<Insn>, n: nat): set<nat> {
    set i: nat | i < n && Head(w, i)
  }

  lemma HeadsGrow(w: seq<Insn>, n: nat)
    ensures Heads(w, n + 1) == Heads(w, n) + (if Head(w, n) then {n} else {}) && n !in Heads(w, n)
  {
    hide Head;
  }

  lemma NoHeads(w: seq<Insn>)
    requires |w| <= 1
    ensures Heads(w, |w|) == {} && forall h :: !DeadHit(w, |w|, h)
  {
  }

  /** The number of no-operations a run must exceed to be reported. */
  function Limit(threshold: nat): nat {
    if threshold < 2 then 2 else if threshold > 16 then 16 else threshold
  }

  /** Main result: one hit for each closed run of more no-operations than the
      threshold, at its first address and with its length, and, if the pass is
      aggressive, one for each head, with the bytes its fill covers. */
  lemma JunkReportIff(mc: Machine, s: Bin, fn: u64, aggressive: bool, threshold: nat)
    ensures var w, r := mc.Walk(s.file, fn, WALK_CAP), NopJunk(mc, s, fn, aggressive, threshold).1;
            && (r.Done? <==> w != [])
            && (r.Done? ==>
                  && (forall h :: h in r.hits
                                  <==> SledHit(w, Limit(threshold), |w|, h) || (aggressive && DeadHit(w, |w|, h)))
                  && |r.hits| == |SledStarts(w, Limit(threshold), |w|)|
                                 + if aggressive then |Heads(w, |w|)| else 0)
  {
    hide Machine.Walk, PokeAll, Sleds, DeadEdits, Hits, Writes, SledHit, DeadHit, SledStarts, Heads, Targets;
    var w := mc.Walk(s.file, fn, WALK_CAP);
    if w != [] {
      var t := ClampThreshold(threshold);
      var sleds := Sleds(w, t, |w|);
      var dead := if aggressive && |w| > 1 then DeadEdits(w, Targets(w), |w|) else [];
      SledHits(w, t, |w|);
      DeadHits(w, |w|);
      HitsConcat(sleds, dead);
      HitsOf([]);
      if |w| <= 1 { NoHeads(w); }
    }
  }

  // ----- bytes of the opaque-predicate pass

  /** What one byte of a forced branch becomes. */
  function ForcedByte(insn: Insn, b: nat, old_: byte): byte {
    if insn.length == 2 then if b == 0 then 0xEB else old_
    else if insn.length >= 5 && insn.bytes != [] && insn.bytes[0] == 0x0F then
      if b == 0 then 0x90 else if b == 1 then 0xE9 else old_
    else old_
  }

  /** Main result: byte by byte, what the real pass leaves of an instruction. */
  lemma ForcedBytes(mc: Machine, x64: bool, s: Bin, fn: u64, k: nat)
    requires IsX86(mc.decode, x64) && LinearFn(mc, s, fn) && k < |mc.Walk(s.file, fn, WALK_CAP)|
    ensures var w, file' := mc.Walk(s.file, fn, WALK_CAP), Opaque(mc, s, fn, false).0.file;
            var at := mc.layout(fn).value + Disp(w, k);
            && at + w[k].length <= |s.file| == |file'|
            && forall o | at <= o < at + w[k].length ::
                 file'[o] == if ForcedBranch(w, k) then ForcedByte(w[k], o - at, s.file[o]) else s.file[o]
  {
    hide Machine.Walk, Machine.DecodeAt, Disp, Add64, OpaqueAt, Opaque, HasShape, IsX86, ReadsPrefix,
         WritesDecode, FindsDecode, DropsPrefix, OpaqueShape, ForcedByte;
    X86Means(mc.decode, x64);
    var w, file' := mc.Walk(s.file, fn, WALK_CAP), Opaque(mc, s, fn, false).0.file;
    var at := mc.layout(fn).value + Disp(w, k);
    InsnBytes(mc, s.file, fn, k);
    OpaqueReshapes(mc, x64, s, fn);
    OpaqueMeans(w, k);
    mc.WalkIsLaid(s.file, fn);
    WalkedFacts(mc, x64, s.file, fn, w, k);
    assert HasShape(file', at, w[k], OpaqueShapes(w)[k]);
    ForcedShapeBytes(s.file, file', at, w, k);
  }

  lemma InsnBytes(mc: Machine, file: seq<byte>, fn: u64, k: nat)
    requires ReadsPrefix(mc.decode) && k < |mc.Walk(file, fn, WALK_CAP)|
    requires var w := mc.Walk(file, fn, WALK_CAP); Linear(mc.layout, fn, Disp(w, |w|))
    ensures var w := mc.Walk(file, fn, WALK_CAP);
            var at := mc.layout(fn).value + Disp(w, k);
            at + w[k].length <= |file| && w[k].bytes == file[at..at + w[k].length]
  {
    hide Machine.Walk, Machine.DecodeAt, Disp, Add64, ReadsPrefix;
    var w := mc.Walk(file, fn, WALK_CAP);
    mc.WalkIsLaid(file, fn);
    assert mc.InsnAt(file, fn, w, k);
    mc.DecodedInsn(file, w[k].va);
    mc.InsnOffset(file, fn, w, k, 0);
  }

  lemma ForcedShapeBytes(file: seq<byte>, file': seq<byte>, at: nat, w: seq<Insn>, k: nat)
    requires k < |w| && at + w[k].length <= |file| && w[k].bytes == file[at..at + w[k].length]
    requires HasShape(file', at, w[k], OpaqueShape(w, k)) && (OpaqueAt(w, k) ==> w[k].length >= 2)
    ensures forall o | at <= o < at + w[k].length ::
              file'[o] == if OpaqueAt(w, k) then ForcedByte(w[k], o - at, file[o]) else file[o]
  {
    hide OpaqueAt;
    var n := w[k].length;
    forall o | at <= o < at + n
      ensures file'[o] == if OpaqueAt(w, k) then ForcedByte(w[k], o - at, file[o]) else file[o]
    {
      assert w[k].bytes[o - at] == file[o];
      match OpaqueShape(w, k)
      case Same => assert file'[at..at + n][o - at] == file'[o];
      case NearJmp => if o >= at + 2 { assert file'[at + 2..at + 6][o - at - 2] == w[k].bytes[2..6][o - at - 2]; }
      case _ =>
    }
  }

  // ----- anti-debug code

  /** The text consists of something, the part, and something. */
  ghost predicate Holds(s: string, part: string) {
    exists pre, post :: s == pre + part + post
  }

  lemma MentionsHolds(s: string, part: string)
    ensures Mentions(s, part) <==> Holds(s, part)
  {
    if Mentions(s, part) {
      var i :| 0 <= i <= |s| && part <= s[i..];
      assert s == s[..i] + part + s[i + |part|..];
    }
    if Holds(s, part) {
      var pre, post :| s == pre + part + post;
      assert s[|pre|..] == part + post;
    }
  }

  ghost predicate HoldsApi(name: string) {
    || Holds(name, "IsDebuggerPresent") || Holds(name, "CheckRemoteDebuggerPresent")
    || Holds(name, "NtQueryInformationProcess") || Holds(name, "NtSetInformationThread")
    || Holds(name, "OutputDebugString") || Holds(name, "DbgBreakPoint")
    || Holds(name, "DbgUiRemoteBreakin") || Holds(name, "NtQuerySystemInformation")
  }

  lemma ApiMeans(name: string)
    ensures IsDebugApi(name) <==> HoldsApi(name)
  {
    hide Mentions, Holds;
    forall k | 0 <= k < |DEBUG_APIS| ensures Mentions(name, DEBUG_APIS[k]) <==> Holds(name, DEBUG_APIS[k]) {
      MentionsHolds(name, DEBUG_APIS[k]);
    }
    EightApis(name);
  }

  lemma EightApis(name: string)
    ensures HoldsApi(name) <==> exists k | 0 <= k < |DEBUG_APIS| :: Holds(name, DEBUG_APIS[k])
  {
    hide Holds;
    var a := DEBUG_APIS;
    assert |a| == 8 && a[0] == "IsDebuggerPresent" && a[1] == "CheckRemoteDebuggerPresent";
    assert a[2] == "NtQueryInformationProcess" && a[3] == "NtSetInformationThread" && a[4] == "OutputDebugString";
    assert a[5] == "DbgBreakPoint" && a[6] == "DbgUiRemoteBreakin" && a[7] == "NtQuerySystemInformation";
  }

  /** The address of a pointer that the instruction goes through: its
      instruction-relative operand, or the image base plus the low half of a
      displacement without a base register. */
  ghost predicate Through(imports: Imports, insn: Insn, slot: u64) {
    && slot != 0
    && (|| insn.ripRelTarget == Some(slot)
        || (&& (insn.ripRelTarget == None || insn.ripRelTarget == Some(0))
            && |insn.ops| > 0 && insn.ops[0].Mem? && insn.ops[0].memBase == 0
            && slot == (imports.base + insn.ops[0].disp % TWO32) % TWO64))
  }

  /** A call or jump through the import slot of a debugger interface. */
  ghost predicate DebugCall(imports: Imports, opts: AntiOpts, insn: Insn) {
    && opts.apiCalls && (insn.flow == Call || insn.flow == Jmp)
    && exists slot :: Through(imports, insn, slot) && slot in imports.iat && HoldsApi(imports.iat[slot])
  }

  /** The one whose answer is replaced by 0. */
  ghost predicate AnswersZero(imports: Imports, insn: Insn) {
    exists slot :: Through(imports, insn, slot) && slot in imports.iat && Holds(imports.iat[slot], "IsDebuggerPresent")
  }

  ghost predicate Trap(opts: AntiOpts, insn: Insn) {
    opts.intTraps && (insn.mnemonic == Int3 || insn.mnemonic == Int)
  }

  ghost predicate TimeRead(opts: AntiOpts, insn: Insn) {
    opts.timing && insn.mnemonic == Rdtsc
  }

  lemma SlotMeans(imports: Imports, insn: Insn, slot: u64)
    ensures Through(imports, insn, slot) <==> slot == Slot(imports, insn) && slot != 0
  {
  }

  lemma CallMeans(imports: Imports, opts: AntiOpts, insn: Insn)
    ensures DebugCall(imports, opts, insn)
            <==> && GoesThroughSlot(imports, opts, insn) && Slot(imports, insn) in imports.iat
                 && IsDebugApi(imports.iat[Slot(imports, insn)])
    ensures GoesThroughSlot(imports, opts, insn) && Slot(imports, insn) in imports.iat ==>
              (AnswersZero(imports, insn) <==> Mentions(imports.iat[Slot(imports, insn)], "IsDebuggerPresent"))
  {
    hide Slot, Through, HoldsApi, IsDebugApi, Mentions, Holds;
    forall slot ensures Through(imports, insn, slot) <==> slot == Slot(imports, insn) && slot != 0 {
      SlotMeans(imports, insn, slot);
    }
    forall name ensures IsDebugApi(name) <==> HoldsApi(name) { ApiMeans(name); }
    if Slot(imports, insn) in imports.iat { MentionsHolds(imports.iat[Slot(imports, insn)], "IsDebuggerPresent"); }
  }

  /** A site of the pass. */
  ghost predicate AntiHit(imports: Imports, opts: AntiOpts, insn: Insn, h: Hit) {
    || (h == Hit(insn.va, AntiDebugCall, 0) && DebugCall(imports, opts, insn))
    || (h == Hit(insn.va, IntTrap, 0) && Trap(opts, insn))
    || (h == Hit(insn.va, RdtscTiming, 0) && TimeRead(opts, insn))
  }

  ghost predicate IsSite(imports: Imports, opts: AntiOpts, insn: Insn) {
    DebugCall(imports, opts, insn) || Trap(opts, insn) || TimeRead(opts, insn)
  }

  lemma SiteHits(imports: Imports, opts: AntiOpts, insn: Insn)
    requires insn.mnemonic in {Int3, Int, Rdtsc} ==> insn.flow == NoFlow
    ensures forall h :: h in Hits(AntiEditsAt(imports, opts, insn)) <==> AntiHit(imports, opts, insn, h)
    ensures |AntiEditsAt(imports, opts, insn)| == if IsSite(imports, opts, insn) then 1 else 0
  {
    hide DebugCall, AnswersZero, IsDebugApi, Mentions, Slot;
    CallMeans(imports, opts, insn);
    HitsOf(AntiEditsAt(imports, opts, insn));
  }

  ghost function Sites(imports: Imports, opts: AntiOpts, w: seq<Insn>, n: nat): set<nat> {
    set k: nat | k < n && k < |w| && IsSite(imports, opts, w[k])
  }

  ghost predicate AntiHitIn(imports: Imports, opts: AntiOpts, w: seq<Insn>, n: nat, h: Hit) {
    exists k: nat :: k < n && k < |w| && AntiHit(imports, opts, w[k], h)
  }

  lemma SitesGrow(imports: Imports, opts: AntiOpts, w: seq<Insn>, n: nat)
    requires n < |w|
    ensures Sites(imports, opts, w, n + 1)
            == Sites(imports, opts, w, n) + if IsSite(imports, opts, w[n]) then {n} else {}
    ensures n !in Sites(imports, opts, w, n)
    ensures forall h :: AntiHitIn(imports, opts, w, n + 1, h)
                        <==> AntiHitIn(imports, opts, w, n, h) || AntiHit(imports, opts, w[n], h)
  {
    hide IsSite, AntiHit;
  }

  lemma NoSites(imports: Imports, opts: AntiOpts, w: seq<Insn>)
    ensures Sites(imports, opts, w, 0) == {} && forall h :: !AntiHitIn(imports, opts, w, 0, h)
  {
  }

  lemma {:induction false} AntiHitsUpTo(imports: Imports, opts: AntiOpts, w: seq<Insn>, n: nat)
    requires n <= |w| && forall k | 0 <= k < |w| :: w[k].mnemonic in {Int3, Int, Rdtsc} ==> w[k].flow == NoFlow
    ensures forall h :: h in Hits(AntiEdits(imports, opts, w, n)) <==> AntiHitIn(imports, opts, w, n, h)
    ensures |Hits(AntiEdits(imports, opts, w, n))| == |Sites(imports, opts, w, n)|
  {
    hide AntiHitIn, Sites, AntiHit, IsSite, AntiEditsAt, Hits;
    if n == 0 {
      HitsOf([]);
      NoSites(imports, opts, w);
    } else {
      var front, at := AntiEdits(imports, opts, w, n - 1), AntiEditsAt(imports, opts, w[n - 1]);
      AntiHitsUpTo(imports, opts, w, n - 1);
      SiteHits(imports, opts, w[n - 1]);
      SitesGrow(imports, opts, w, n - 1);
      HitsConcat(front, at);
      HitsOf(at);
      assert forall h :: h in Hits(front + at) <==> h in Hits(front) || h in Hits(at);
    }
  }

  /** Main result: one hit for each call or jump through the slot of a debugger
      interface, for each breakpoint or interrupt and for each time-stamp read,
      as far as the options ask for them, and nothing else; dry or not. */
  lemma AntiReportIff(mc: Machine, x64: bool, s: Bin, fn: u64, imports: Imports, opts: AntiOpts, dryRun: bool)
    requires IsX86(mc.decode, x64)
    ensures var w, r := mc.Walk(s.file, fn, WALK_CAP), AntiDebug(mc, s, fn, imports, opts, dryRun).1;
            && r.Done?
            && (forall h :: h in r.hits <==> AntiHitIn(imports, opts, w, |w|, h))
            && |r.hits| == |Sites(imports, opts, w, |w|)|
  {
    hide Machine.Walk, PokeAll, AntiEdits, Hits, Writes, AntiHitIn, Sites, IsX86, ReadsPrefix, WritesDecode,
         FindsDecode, DropsPrefix, Machine.Laid;
    X86Means(mc.decode, x64);
    var w := mc.Walk(s.file, fn, WALK_CAP);
    mc.WalkIsLaid(s.file, fn);
    forall k | 0 <= k < |w| ensures w[k].mnemonic in {Int3, Int, Rdtsc} ==> w[k].flow == NoFlow {
      WalkedFacts(mc, x64, s.file, fn, w, k);
    }
    AntiHitsUpTo(imports, opts, w, |w|);
  }

  /** What one byte of a site becomes: a cleared register and no-operations, all
      no-operations, or a cleared register and the rest as it was. */
  ghost function AntiByte(imports: Imports, opts: AntiOpts, insn: Insn, b: nat, old_: byte): byte {
    if DebugCall(imports, opts, insn) then
      if AnswersZero(imports, insn) then if b == 0 then 0x31 else if b == 1 then 0xC0 else 0x90 else 0x90
    else if Trap(opts, insn) then 0x90
    else if TimeRead(opts, insn) then if b == 0 then 0x31 else if b == 1 then 0xC0 else old_
    else old_
  }

  /** Main result: byte by byte, what the real pass leaves of an instruction. */
  lemma AntiBytes(mc: Machine, x64: bool, s: Bin, fn: u64, imports: Imports, opts: AntiOpts, k: nat)
    requires IsX86(mc.decode, x64) && LinearFn(mc, s, fn) && k < |mc.Walk(s.file, fn, WALK_CAP)|
    ensures var w, file' := mc.Walk(s.file, fn, WALK_CAP), AntiDebug(mc, s, fn, imports, opts, false).0.file;
            var at := mc.layout(fn).value + Disp(w, k);
            && at + w[k].length <= |s.file| == |file'|
            && forall o | at <= o < at + w[k].length ::
                 file'[o] == AntiByte(imports, opts, w[k], o - at, s.file[o])
  {
    hide Machine.Walk, Machine.DecodeAt, Disp, Add64, AntiDebug, HasShape, IsX86, ReadsPrefix,
         WritesDecode, FindsDecode, DropsPrefix, AntiShape, AntiByte;
    X86Means(mc.decode, x64);
    var w, file' := mc.Walk(s.file, fn, WALK_CAP), AntiDebug(mc, s, fn, imports, opts, false).0.file;
    var at := mc.layout(fn).value + Disp(w, k);
    InsnBytes(mc, s.file, fn, k);
    AntiReshapes(mc, x64, s, fn, imports, opts);
    mc.WalkIsLaid(s.file, fn);
    WalkedFacts(mc, x64, s.file, fn, w, k);
    assert HasShape(file', at, w[k], AntiShapes(imports, opts, w)[k]);
    AntiShapeBytes(s.file, file', at, imports, opts, w[k]);
  }

  lemma AntiShapeBytes(file: seq<byte>, file': seq<byte>, at: nat, imports: Imports, opts: AntiOpts, insn: Insn)
    requires at + insn.length <= |file| && insn.bytes == file[at..at + insn.length]
    requires HasShape(file', at, insn, AntiShape(imports, opts, insn))
    requires insn.mnemonic in {Int3, Int, Rdtsc} ==> insn.flow == NoFlow
    ensures forall o | at <= o < at + insn.length :: file'[o] == AntiByte(imports, opts, insn, o - at, file[o])
  {
    hide DebugCall, AnswersZero, IsDebugApi, Mentions, Slot;
    CallMeans(imports, opts, insn);
    var n := insn.length;
    forall o | at <= o < at + n ensures file'[o] == AntiByte(imports, opts, insn, o - at, file[o]) {
      assert insn.bytes[o - at] == file[o];
      match AntiShape(imports, opts, insn)
      case Same => assert file'[at..at + n][o - at] == file'[o];
      case ZeroThenRest => if o >= at + 2 { assert file'[at + 2..at + n][o - at - 2] == insn.bytes[2..][o - at - 2]; }
      case _ =>
    }
  }

  // ----- raw writes, revert, rebuild

  /** A raw write succeeds exactly when the whole range lies in the file; then the
      range holds the bytes and nothing else has changed. */
  lemma WriteBytesIff(m: Layout, s: Bin, va: u64, bytes: seq<byte>)
    ensures var (s', r) := WriteBytes(m, s, va, bytes);
            if m(va).Some? && m(va).value + |bytes| <= |s.file|
            then && r == Done([Hit(va, RawWrite, |bytes|)], |bytes|, None) && s'.dirty && |s'.file| == |s.file|
                 && forall o | 0 <= o < |s.file| ::
                      s'.file[o]
                      == if m(va).value <= o < m(va).value + |bytes| then bytes[o - m(va).value] else s.file[o]
            else s' == s && r == Failed(NotMapped)
  {
  }

  /** The figure of a revert is the length of the journal it empties; that of a
      rebuild is the number of instructions that decode. */
  lemma RevertAndRebuildReport(mc: Machine, s: Bin, fn: u64)
    ensures var (s', r) := RevertAll(s);
            && r == Done([Hit(0, Reverted, |s.patches|)], |s.patches|, None)
            && s'.patches == [] && (s'.dirty <==> |s.patches| > 0)
    ensures var (s', n) := Rebuild(mc, s, fn);
            && (n.Some? <==> mc.DecodeAt(s.file, fn).Some?) && (n.Some? ==> s'.dirty) && (n.None? ==> s' == s)
            && (n.Some? ==> forall k: nat ::
                  k < n.value <==> k < 8192 && mc.Steps(s.file, fn, k).Some?
                                   && mc.DecodeAt(s.file, mc.Steps(s.file, fn, k).value).Some?)
  {
    hide Undo, Machine.DecodeAt, Machine.Walk;
    mc.WholeWalk(s.file, fn, 0);
    assert mc.Steps(s.file, fn, 0) == Some(fn);
    hide Machine.Steps;
    forall k: nat
      ensures k < |mc.Walk(s.file, fn, WALK_CAP)|
              <==> k < 8192 && mc.Steps(s.file, fn, k).Some?
                   && mc.DecodeAt(s.file, mc.Steps(s.file, fn, k).value).Some?
    {
      mc.WholeWalk(s.file, fn, k);
    }
  }
}
