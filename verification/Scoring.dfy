/** What the obfuscation score counts, and the figures of a full pass. */
module Scoring {
  import opened Words
  import opened Image
  import opened Decoder
  import opened Journal
  import opened Passes
  import opened DeadCode
  import opened Effects

  /** A conditional jump right after a register was compared with itself. */
  ghost predicate IsPredicate(w: seq<Insn>, i: nat) {
    i < |w| && w[i].mnemonic != Nop && ForcedBranch(w, i)
  }

  ghost function Predicates(w: seq<Insn>, n: nat): set<nat> {
    set i: nat | i < n && IsPredicate(w, i)
  }

  /** A jump without a direct target. */
  ghost predicate IsIndirect(w: seq<Insn>, i: nat) {
    i < |w| && w[i].mnemonic != Nop && w[i].flow == Jmp && w[i].relTarget == None
  }

  ghost function IndirectJumps(w: seq<Insn>, n: nat): set<nat> {
    set i: nat | i < n && IsIndirect(w, i)
  }

  /** Where maximal runs of at least four no-operations begin, among the first
      `n` instructions. */
  ghost function LongRuns(w: seq<Insn>, n: nat): set<nat> {
    set a: nat | a < n && RunFrom(w, n, a)
  }

  ghost predicate RunFrom(w: seq<Insn>, n: nat, a: nat) {
    && a + 4 <= n <= |w| && (forall k | a <= k < a + 4 :: w[k].mnemonic == Nop)
    && (a > 0 ==> w[a - 1].mnemonic != Nop)
  }

  ghost predicate PushReturn(w: seq<Insn>, i: nat) {
    i + 1 < |w| && w[i].mnemonic == Push && w[i + 1].mnemonic == Return
  }

  function Capped(n: nat, cap: nat): nat {
    if n > cap then cap else n
  }

  ghost function Points(w: seq<Insn>): nat {
    Capped(10 * |Predicates(w, |w|)|, 25) + Capped(8 * |LongRuns(w, |w|)|, 20)
    + Capped(15 * |IndirectJumps(w, |w|)|, 25) + if exists i: nat :: PushReturn(w, i) then 15 else 0
  }

  lemma PredicatesGrow(w: seq<Insn>, n: nat)
    ensures |Predicates(w, n + 1)| == |Predicates(w, n)| + if IsPredicate(w, n) then 1 else 0
  {
    hide IsPredicate;
    assert Predicates(w, n + 1) == Predicates(w, n) + if IsPredicate(w, n) then {n} else {};
  }

  lemma IndirectGrow(w: seq<Insn>, n: nat)
    ensures |IndirectJumps(w, n + 1)| == |IndirectJumps(w, n)| + if IsIndirect(w, n) then 1 else 0
  {
    hide IsIndirect;
    assert IndirectJumps(w, n + 1) == IndirectJumps(w, n) + if IsIndirect(w, n) then {n} else {};
  }

  lemma RunMeans(w: seq<Insn>, n: nat)
    requires n <= |w|
    ensures var r := NopRun(w, n);
            r <= n && (forall k | n - r <= k < n :: w[k].mnemonic == Nop) && (r < n ==> w[n - r - 1].mnemonic != Nop)
  {
  }

  lemma RunFromGrows(w: seq<Insn>, n: nat, a: nat)
    requires n < |w|
    ensures RunFrom(w, n + 1, a)
            <==> RunFrom(w, n, a) || (a + 3 == n && w[n].mnemonic == Nop && NopRun(w, n) == 3)
    ensures RunFrom(w, n, a) ==> a + 4 <= n
  {
    hide NopRun;
    RunMeans(w, n);
    var r := NopRun(w, n);
    if a + 3 == n {
      if w[n].mnemonic == Nop && r == 3 {
        forall k | a <= k < a + 4 ensures w[k].mnemonic == Nop {
        }
      }
      if RunFrom(w, n + 1, a) {
        assert w[a].mnemonic == Nop && w[a + 1].mnemonic == Nop && w[a + 2].mnemonic == Nop;
        assert w[a + 3].mnemonic == Nop;
      }
    }
  }

  /** One instruction further a run becomes long if it has just reached four. */
  lemma RunsGrow(w: seq<Insn>, n: nat)
    requires n < |w|
    ensures |LongRuns(w, n + 1)|
            == |LongRuns(w, n)| + if w[n].mnemonic == Nop && NopRun(w, n) == 3 then 1 else 0
  {
    hide NopRun, RunFrom;
    RunMeans(w, n);
    var new_ := w[n].mnemonic == Nop && NopRun(w, n) == 3;
    var before, after := LongRuns(w, n), LongRuns(w, n + 1);
    forall a: nat ensures a in after <==> a in before || (new_ && a == n - 3) {
      RunFromGrows(w, n, a);
    }
    if new_ {
      RunFromGrows(w, n, n - 3);
      assert after == before + {n - 3};
    } else {
      assert after == before;
    }
  }

  lemma {:induction false} TallyCounts(w: seq<Insn>, n: nat)
    requires n <= |w|
    ensures var t := TallyUpTo(w, n);
            && t.selfTests == |Predicates(w, n)| && t.indirect == |IndirectJumps(w, n)|
            && t.junk + (if NopRun(w, n) >= 4 then 1 else 0) == |LongRuns(w, n)|
            && (t.pushRets > 0 <==> exists i: nat :: i < n && PushReturn(w, i))
  {
    hide Predicates, IndirectJumps, LongRuns, ForcedBranch, OpaqueAt, PushReturn;
    if n == 0 {
      NothingCounted(w);
    } else {
      TallyCounts(w, n - 1);
      PredicatesGrow(w, n - 1);
      IndirectGrow(w, n - 1);
      RunsGrow(w, n - 1);
      OpaqueMeans(w, n - 1);
      PushReturnAt(w, n - 1);
      assert forall i: nat :: i < n && PushReturn(w, i) ==> i < n - 1 || i == n - 1;
    }
  }

  lemma PushReturnAt(w: seq<Insn>, i: nat)
    requires i < |w|
    ensures TallyAt(w, i).pushRets == if PushReturn(w, i) then 1 else 0
  {
  }

  lemma NothingCounted(w: seq<Insn>)
    ensures Predicates(w, 0) == {} && IndirectJumps(w, 0) == {} && LongRuns(w, 0) == {}
  {
  }

  /** Main result: the score is ten points for each opaque predicate up to 25,
      eight for each long run of no-operations up to 20, fifteen for each indirect
      jump up to 25, and fifteen if a push is followed by a return anywhere. */
  lemma ScoreIsPoints(w: seq<Insn>)
    ensures Score(w) == Points(w)
  {
    hide Predicates, IndirectJumps, LongRuns, PushReturn, TallyUpTo, NopRun;
    TallyCounts(w, |w|);
    forall i: nat ensures PushReturn(w, i) ==> i < |w| { InsideWalk(w, i); }
    assert (exists i: nat :: i < |w| && PushReturn(w, i)) <==> exists i: nat :: PushReturn(w, i);
    if w == [] { NothingCounted(w); }
  }

  lemma InsideWalk(w: seq<Insn>, i: nat)
    ensures PushReturn(w, i) ==> i < |w|
  {
  }

  function Reported(r: OpResult): nat {
    if r.Done? then |r.hits| else 0
  }

  /** Main result: the figures of a real full pass. The first score is that of the
      function as it was, the second that of the function as it is afterwards, and
      the changed-byte figure counts the sites of the three passes, run one after
      another with every option. */
  lemma FullPassFigures(mc: Machine, s: Bin, fn: u64, imports: Imports)
    ensures var (s', r) := FullPass(mc, s, fn, imports, false);
            && r.pre == Points(mc.Walk(s.file, fn, WALK_CAP))
            && r.post == Points(mc.Walk(s'.file, fn, WALK_CAP))
            && r.opq == Opaque(mc, s, fn, false).1
            && r.anti == AntiDebug(mc, NopJunk(mc, Opaque(mc, s, fn, false).0, fn, r.pre >= 50, 4).0, fn, imports,
                                   AntiOpts(true, true, true), false).1
            && r.junk.Some? && r.bytesChanged == Reported(r.opq) + Reported(r.junk.value) + Reported(r.anti)
  {
    hide Machine.Walk, Score, Points, OpaqueEdits, JunkEdits, AntiEdits, PokeAll, Writes, Hits;
    ScoreIsPoints(mc.Walk(s.file, fn, WALK_CAP));
    ScoreIsPoints(mc.Walk(FullPass(mc, s, fn, imports, false).0.file, fn, WALK_CAP));
  }
}
