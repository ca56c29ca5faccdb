/** Reconstructing a virtual program from the instruction trace of its
    interpreter: each visit to the dispatcher closes a round, and a round
    contributes the handlers it ran through. */
module VmTrace {
  import opened Words

  /** Bytes after a handler's start that count as part of it. */
  const EXTENT: nat := 256

  /** The window's end is a 64-bit sum and may wrap. */
  predicate InWindow(start: u64, ip: u64) {
    start <= ip < Add64(start, EXTENT)
  }

  /** `k` is the handler an address belongs to: of the first `n` handlers whose
      window holds it, the one that starts last, and of equals the later. */
  ghost predicate Owns(handlers: seq<u64>, n: nat, ip: u64, k: nat)
    requires n <= |handlers|
  {
    && k < n && InWindow(handlers[k], ip)
    && forall j | 0 <= j < n && InWindow(handlers[j], ip) ::
         handlers[j] < handlers[k] || (handlers[j] == handlers[k] && j <= k)
  }

  method OpcodeForIp(handlers: seq<u64>, ip: u64) returns (slot: Option<nat>)
    ensures slot == SlotOf(handlers, |handlers|, ip)
  {
    hide Add64;
    slot := None;
    var bestStart: u64 := 0;
    for i := 0 to |handlers|
      invariant slot == SlotOf(handlers, i, ip)
      invariant bestStart == if slot.Some? then handlers[slot.value] else 0
    {
      if InWindow(handlers[i], ip) && handlers[i] >= bestStart {
        bestStart, slot := handlers[i], Some(i);
      }
    }
  }

  function SlotOf(handlers: seq<u64>, n: nat, ip: u64): (r: Option<nat>)
    requires n <= |handlers|
    ensures r.Some? ==> r.value < n
  {
    if n == 0 then None
    else
      var best := SlotOf(handlers, n - 1, ip);
      if InWindow(handlers[n - 1], ip) && (best.None? || handlers[n - 1] >= handlers[best.value])
      then Some(n - 1) else best
  }

  /** The loop's choice is the owner, and there is none only when no window
      holds the address. */
  lemma {:induction false} SlotOwns(handlers: seq<u64>, n: nat, ip: u64)
    requires n <= |handlers|
    ensures var r := SlotOf(handlers, n, ip);
            && (r.Some? ==> Owns(handlers, n, ip, r.value))
            && (r.None? ==> forall j | 0 <= j < n :: !InWindow(handlers[j], ip))
  {
    hide Add64;
    if n > 0 {
      SlotOwns(handlers, n - 1, ip);
    }
  }

  lemma OwnerIsSlot(handlers: seq<u64>, ip: u64, k: nat)
    requires Owns(handlers, |handlers|, ip, k)
    ensures SlotOf(handlers, |handlers|, ip) == Some(k)
  {
    hide Add64;
    SlotOwns(handlers, |handlers|, ip);
  }

  // ----- the specification: rounds

  /** The trace cut at its dispatcher visits; the last round is still open. */
  function Rounds(trace: seq<u64>, dispatcher: u64): (rs: seq<seq<u64>>)
    ensures rs != []
  {
    if trace == [] then [[]]
    else
      var rs, ip := Rounds(trace[..|trace| - 1], dispatcher), trace[|trace| - 1];
      if ip == dispatcher then rs + [[]]
      else rs[|rs| - 1 := rs[|rs| - 1] + [ip]]
  }

  function Slots(handlers: seq<u64>, round: seq<u64>): (s: set<nat>)
    ensures forall k | k in s :: k < |handlers|
  {
    set i | 0 <= i < |round| && SlotOf(handlers, |handlers|, round[i]).Some?
      :: SlotOf(handlers, |handlers|, round[i]).value
  }

  /** The members of `s` below `n`, in ascending order. */
  function Ascending(s: set<nat>, n: nat): (r: seq<nat>)
    ensures forall i | 0 <= i < |r| :: r[i] < n
  {
    if n == 0 then []
    else if n - 1 in s then Ascending(s, n - 1) + [n - 1]
    else Ascending(s, n - 1)
  }

  lemma {:induction false} AscendingFacts(s: set<nat>, n: nat)
    ensures var r := Ascending(s, n);
            && (forall k :: k in r <==> k in s && k < n)
            && (forall i, j | 0 <= i < j < |r| :: r[i] < r[j])
  {
    if n > 0 {
      AscendingFacts(s, n - 1);
    }
  }

  /** Each round's distinct slots in ascending order, round after round. */
  function Emitted(handlers: seq<u64>, rounds: seq<seq<u64>>): (r: seq<nat>)
    ensures forall i | 0 <= i < |r| :: r[i] < |handlers|
  {
    if rounds == [] then []
    else
      Emitted(handlers, rounds[..|rounds| - 1]) + Ascending(Slots(handlers, rounds[|rounds| - 1]), |handlers|)
  }

  lemma EmittedSnoc(handlers: seq<u64>, rounds: seq<seq<u64>>, round: seq<u64>)
    ensures Emitted(handlers, rounds + [round])
            == Emitted(handlers, rounds) + Ascending(Slots(handlers, round), |handlers|)
  {
    hide Slots, Ascending;
    assert (rounds + [round])[..|rounds|] == rounds;
  }

  function First<T>(s: seq<T>, n: nat): seq<T> {
    if |s| <= n then s else s[..n]
  }

  function Bytecode(handlers: seq<u64>, dispatcher: u64, trace: seq<u64>, maxOps: nat): (r: seq<nat>)
    ensures forall i | 0 <= i < |r| :: r[i] < |handlers|
  {
    First(Emitted(handlers, Rounds(trace, dispatcher)), maxOps)
  }

  function Visits(trace: seq<u64>, dispatcher: u64): nat {
    if trace == [] then 0
    else Visits(trace[..|trace| - 1], dispatcher) + if trace[|trace| - 1] == dispatcher then 1 else 0
  }

  // ----- the tracer

  class Tracer {
    const handlers: seq<u64>
    const maxOps: nat
    var bytecode: seq<nat>
    var handlerOrder: seq<u64>
    var opsThisRound: set<nat>
    var dispatcherHits: nat

    constructor (handlers: seq<u64>, maxOps: nat)
      ensures this.handlers == handlers && this.maxOps == maxOps
      ensures bytecode == [] && handlerOrder == [] && opsThisRound == {} && dispatcherHits == 0
    {
      this.handlers, this.maxOps := handlers, maxOps;
      bytecode, handlerOrder, opsThisRound, dispatcherHits := [], [], {}, 0;
    }

    /** Each emitted slot is paired with that handler's address. */
    ghost predicate Paired()
      reads this
    {
      |handlerOrder| == |bytecode|
      && forall i | 0 <= i < |bytecode| :: bytecode[i] < |handlers| && handlerOrder[i] == handlers[bytecode[i]]
    }

    /** Closes the round. Once the limit is reached the slots left over are
        neither emitted nor forgotten, but nothing more is emitted either. */
    method Flush()
      requires Paired() && (forall k | k in opsThisRound :: k < |handlers|) && |bytecode| <= maxOps
      modifies this`bytecode, this`handlerOrder, this`opsThisRound
      ensures Paired() && |bytecode| <= maxOps
      ensures bytecode == First(old(bytecode) + Ascending(old(opsThisRound), |handlers|), maxOps)
      ensures |bytecode| < maxOps ==> opsThisRound == {}
      ensures opsThisRound <= old(opsThisRound)
    {
      ghost var before := bytecode;
      for op := 0 to |handlers|
        invariant Paired() && opsThisRound == old(opsThisRound) && |bytecode| <= maxOps
        invariant bytecode == before + Ascending(opsThisRound, op)
      {
        if op in opsThisRound {
          if |bytecode| >= maxOps {
            CutShort(before, opsThisRound, op, |handlers|, maxOps);
            return;
          }
          bytecode := bytecode + [op];
          handlerOrder := handlerOrder + [handlers[op]];
        }
      }
      opsThisRound := {};
    }

    /** Main result: the bytecode is the first `maxOps` of the specification's,
        and the handler addresses match it index by index. */
    method TraceBytecode(trace: seq<u64>, dispatcher: u64)
      requires bytecode == [] && handlerOrder == [] && opsThisRound == {} && dispatcherHits == 0
      modifies this
      ensures bytecode == Bytecode(handlers, dispatcher, trace, maxOps)
      ensures Paired() && dispatcherHits == Visits(trace, dispatcher)
    {
      hide Slots, Ascending, SlotOf, Emitted;
      EmittedNothing(handlers);
      NoSlots(handlers);
      assert trace[..0] == [];
      for i := 0 to |trace|
        invariant Paired() && |bytecode| <= maxOps
        invariant forall k | k in opsThisRound :: k < |handlers|
        invariant dispatcherHits == Visits(trace[..i], dispatcher)
        invariant var rs := Rounds(trace[..i], dispatcher);
                  && bytecode == First(Emitted(handlers, rs[..|rs| - 1]), maxOps)
                  && (|bytecode| < maxOps ==> opsThisRound == Slots(handlers, rs[|rs| - 1]))
      {
        ghost var rs, rs' := Rounds(trace[..i], dispatcher), Rounds(trace[..i + 1], dispatcher);
        assert trace[..i + 1][..i] == trace[..i];
        if trace[i] == dispatcher {
          dispatcherHits := dispatcherHits + 1;
          assert rs' == rs + [[]] && rs'[..|rs'| - 1] == rs;
          FlushExtends(handlers, rs, maxOps, opsThisRound);
          Flush();
        } else {
          assert rs'[..|rs'| - 1] == rs[..|rs| - 1];
          SlotsSnoc(handlers, rs[|rs| - 1], trace[i]);
          var op := OpcodeForIp(handlers, trace[i]);
          if op.Some? {
            opsThisRound := opsThisRound + {op.value};
          }
        }
      }
      assert trace[..|trace|] == trace;
      FlushExtends(handlers, Rounds(trace, dispatcher), maxOps, opsThisRound);
      Flush();
    }
  }

  lemma {:induction false} CutShort(before: seq<nat>, ops: set<nat>, n: nat, m: nat, maxOps: nat)
    requires n <= m && |before + Ascending(ops, n)| == maxOps
    ensures First(before + Ascending(ops, m), maxOps) == before + Ascending(ops, n)
  {
    AscendingPrefix(ops, n, m);
  }

  lemma {:induction false} AscendingPrefix(ops: set<nat>, n: nat, m: nat)
    requires n <= m
    ensures Ascending(ops, n) <= Ascending(ops, m)
    decreases m
  {
    if n < m {
      AscendingPrefix(ops, n, m - 1);
    }
  }

  lemma NoSlots(handlers: seq<u64>)
    ensures Slots(handlers, []) == {}
  {
  }

  lemma SlotsSnoc(handlers: seq<u64>, round: seq<u64>, ip: u64)
    ensures var slot := SlotOf(handlers, |handlers|, ip);
            Slots(handlers, round + [ip]) == Slots(handlers, round) + if slot.Some? then {slot.value} else {}
  {
    hide SlotOf;
    var r', slot := round + [ip], SlotOf(handlers, |handlers|, ip);
    assert r'[|round|] == ip;
    forall k | k in Slots(handlers, round)
      ensures k in Slots(handlers, r')
    {
      var i :| 0 <= i < |round| && SlotOf(handlers, |handlers|, round[i]).Some?
               && SlotOf(handlers, |handlers|, round[i]).value == k;
      assert r'[i] == round[i];
    }
  }

  /** What closing the last of some rounds adds, whatever stale slots are left
      once the limit is reached. */
  lemma FlushExtends(handlers: seq<u64>, rs: seq<seq<u64>>, maxOps: nat, ops: set<nat>)
    requires rs != []
    requires var done := First(Emitted(handlers, rs[..|rs| - 1]), maxOps);
             |done| < maxOps ==> ops == Slots(handlers, rs[|rs| - 1])
    ensures var done := First(Emitted(handlers, rs[..|rs| - 1]), maxOps);
            First(done + Ascending(ops, |handlers|), maxOps) == First(Emitted(handlers, rs), maxOps)
  {
    hide Slots, Ascending;
    var all := Emitted(handlers, rs[..|rs| - 1]);
    if |all| >= maxOps {
      assert First(all, maxOps) == all[..maxOps];
      assert (all + Ascending(Slots(handlers, rs[|rs| - 1]), |handlers|))[..maxOps] == all[..maxOps];
      assert (all[..maxOps] + Ascending(ops, |handlers|))[..maxOps] == all[..maxOps];
    }
  }

  // ----- one handler per round

  /** Handler `k` occupies `sizes[k]` bytes. */
  ghost predicate InHandler(handlers: seq<u64>, sizes: seq<nat>, k: nat, ip: u64)
    requires |sizes| == |handlers| && k < |handlers|
  {
    handlers[k] <= ip < handlers[k] + sizes[k]
  }

  /** Handlers are 1 to 256 bytes long, do not overlap, and stay clear of the
      end of the address space. */
  ghost predicate Disjoint(handlers: seq<u64>, sizes: seq<nat>) {
    && |sizes| == |handlers|
    && (forall k | 0 <= k < |handlers| :: 1 <= sizes[k] <= 256 && handlers[k] + 256 < TWO64)
    && forall j, k | 0 <= j < |handlers| && 0 <= k < |handlers| && j != k ::
         handlers[j] + sizes[j] <= handlers[k] || handlers[k] + sizes[k] <= handlers[j]
  }

  /** One trip through the interpreter: the handler and the addresses it ran,
      some of them its own, the others in nobody's window. */
  datatype Visit = Visit(slot: nat, ips: seq<u64>)

  ghost predicate ValidVisit(handlers: seq<u64>, sizes: seq<nat>, dispatcher: u64, v: Visit)
    requires |sizes| == |handlers|
  {
    && v.slot < |handlers|
    && (exists i :: 0 <= i < |v.ips| && InHandler(handlers, sizes, v.slot, v.ips[i]))
    && forall i | 0 <= i < |v.ips| ::
         v.ips[i] != dispatcher
         && (InHandler(handlers, sizes, v.slot, v.ips[i]) || SlotOf(handlers, |handlers|, v.ips[i]) == None)
  }

  function TraceOf(prelude: seq<u64>, dispatcher: u64, visits: seq<Visit>): seq<u64> {
    if visits == [] then prelude
    else TraceOf(prelude, dispatcher, visits[..|visits| - 1]) + [dispatcher] + visits[|visits| - 1].ips
  }

  function SlotsOf(visits: seq<Visit>): seq<nat> {
    seq(|visits|, i requires 0 <= i < |visits| => visits[i].slot)
  }

  lemma InsideMeansSlot(handlers: seq<u64>, sizes: seq<nat>, k: nat, ip: u64)
    requires Disjoint(handlers, sizes) && k < |handlers| && InHandler(handlers, sizes, k, ip)
    ensures SlotOf(handlers, |handlers|, ip) == Some(k)
  {
    hide Add64;
    forall j | 0 <= j < |handlers|
      ensures Add64(handlers[j], EXTENT) == handlers[j] + EXTENT
    {
      Add64Small(handlers[j], EXTENT);
    }
    assert Owns(handlers, |handlers|, ip, k);
    OwnerIsSlot(handlers, ip, k);
  }

  lemma VisitSlots(handlers: seq<u64>, sizes: seq<nat>, dispatcher: u64, v: Visit)
    requires Disjoint(handlers, sizes) && ValidVisit(handlers, sizes, dispatcher, v)
    ensures Slots(handlers, v.ips) == {v.slot}
  {
    hide SlotOf;
    forall i | 0 <= i < |v.ips| && InHandler(handlers, sizes, v.slot, v.ips[i])
      ensures SlotOf(handlers, |handlers|, v.ips[i]) == Some(v.slot)
    {
      InsideMeansSlot(handlers, sizes, v.slot, v.ips[i]);
    }
    var i :| 0 <= i < |v.ips| && InHandler(handlers, sizes, v.slot, v.ips[i]);
    assert SlotOf(handlers, |handlers|, v.ips[i]).value == v.slot;
  }

  lemma {:induction false} AscendingOne(k: nat, n: nat)
    ensures Ascending({k}, n) == if k < n then [k] else []
  {
    if n > 0 {
      AscendingOne(k, n - 1);
    }
  }

  lemma {:induction false} AscendingNone(n: nat)
    ensures Ascending({}, n) == []
  {
    if n > 0 {
      AscendingNone(n - 1);
    }
  }

  /** A dispatcher visit and the addresses after it are a round of their own. */
  lemma {:induction false} RoundsSnoc(trace: seq<u64>, dispatcher: u64, ips: seq<u64>)
    requires dispatcher !in ips
    ensures Rounds(trace + [dispatcher] + ips, dispatcher) == Rounds(trace, dispatcher) + [ips]
  {
    var t := trace + [dispatcher] + ips;
    if ips == [] {
      assert t == trace + [dispatcher] && t[..|t| - 1] == trace;
    } else {
      var ips0 := ips[..|ips| - 1];
      RoundsSnoc(trace, dispatcher, ips0);
      assert t[..|t| - 1] == trace + [dispatcher] + ips0;
      assert ips0 + [ips[|ips| - 1]] == ips;
    }
  }

  lemma {:induction false} RoundsOfPrelude(prelude: seq<u64>, dispatcher: u64)
    requires dispatcher !in prelude
    ensures Rounds(prelude, dispatcher) == [prelude]
  {
    if prelude != [] {
      RoundsOfPrelude(prelude[..|prelude| - 1], dispatcher);
      assert prelude[..|prelude| - 1] + [prelude[|prelude| - 1]] == prelude;
    }
  }

  /** The code before the first dispatcher visit belongs to no handler. */
  ghost predicate IsPrelude(handlers: seq<u64>, dispatcher: u64, prelude: seq<u64>) {
    forall i | 0 <= i < |prelude| ::
      prelude[i] != dispatcher && SlotOf(handlers, |handlers|, prelude[i]) == None
  }

  lemma {:induction false} EmittedIsExecuted(handlers: seq<u64>, sizes: seq<nat>, dispatcher: u64,
                                             prelude: seq<u64>, visits: seq<Visit>)
    requires Disjoint(handlers, sizes) && IsPrelude(handlers, dispatcher, prelude)
    requires forall i | 0 <= i < |visits| :: ValidVisit(handlers, sizes, dispatcher, visits[i])
    ensures Emitted(handlers, Rounds(TraceOf(prelude, dispatcher, visits), dispatcher)) == SlotsOf(visits)
  {
    hide Slots, Ascending, SlotOf, Emitted, Add64;
    if visits == [] {
      RoundsOfPrelude(prelude, dispatcher);
      PreludeSlots(handlers, dispatcher, prelude);
      AscendingNone(|handlers|);
      EmittedSnoc(handlers, [], prelude);
      EmittedNothing(handlers);
      assert [] + [prelude] == [prelude];
    } else {
      var v, rest := visits[|visits| - 1], visits[..|visits| - 1];
      EmittedIsExecuted(handlers, sizes, dispatcher, prelude, rest);
      var before := TraceOf(prelude, dispatcher, rest);
      RoundsSnoc(before, dispatcher, v.ips);
      EmittedSnoc(handlers, Rounds(before, dispatcher), v.ips);
      VisitSlots(handlers, sizes, dispatcher, v);
      AscendingOne(v.slot, |handlers|);
      assert SlotsOf(visits) == SlotsOf(rest) + [v.slot];
    }
  }

  lemma EmittedNothing(handlers: seq<u64>)
    ensures Emitted(handlers, []) == []
  {
  }

  lemma PreludeSlots(handlers: seq<u64>, dispatcher: u64, prelude: seq<u64>)
    requires IsPrelude(handlers, dispatcher, prelude)
    ensures Slots(handlers, prelude) == {}
  {
    hide SlotOf;
  }

  /** Main result: when every round runs one handler, besides code that lies in no
      handler's window, and handlers are disjoint and at most 256 bytes long, the
      bytecode is the sequence of handlers that were executed. */
  lemma OneHandlerRounds(handlers: seq<u64>, sizes: seq<nat>, dispatcher: u64, prelude: seq<u64>,
                         visits: seq<Visit>, maxOps: nat)
    requires Disjoint(handlers, sizes) && IsPrelude(handlers, dispatcher, prelude)
    requires forall i | 0 <= i < |visits| :: ValidVisit(handlers, sizes, dispatcher, visits[i])
    ensures Bytecode(handlers, dispatcher, TraceOf(prelude, dispatcher, visits), maxOps)
            == if |visits| > maxOps then SlotsOf(visits)[..maxOps] else SlotsOf(visits)
  {
    EmittedIsExecuted(handlers, sizes, dispatcher, prelude, visits);
  }

  /** A round of one address. */
  lemma OneAddressRound(handlers: seq<u64>, dispatcher: u64, ip: u64)
    requires ip != dispatcher
    ensures var slot := SlotOf(handlers, |handlers|, ip);
            Bytecode(handlers, dispatcher, [dispatcher, ip], 1) == if slot.Some? then [slot.value] else []
  {
    hide SlotOf, Emitted, Ascending, Rounds;
    var slot, n := SlotOf(handlers, |handlers|, ip), |handlers|;
    RoundsOfPrelude([], dispatcher);
    RoundsSnoc([], dispatcher, [ip]);
    assert [] + [dispatcher] + [ip] == [dispatcher, ip];
    PreludeSlots(handlers, dispatcher, []);
    SlotsSnoc(handlers, [], ip);
    assert [] + [ip] == [ip];
    if slot.Some? { AscendingOne(slot.value, n); }
    AscendingNone(n);
    EmittedNothing(handlers);
    var none: seq<seq<u64>> := [];
    EmittedSnoc(handlers, none, []);
    EmittedSnoc(handlers, none + [[]], [ip]);
    assert Slots(handlers, [ip]) == if slot.Some? then {slot.value} else {};
    assert none + [[]] == Rounds([], dispatcher);
    assert Emitted(handlers, none + [[]]) == [] + [] == [];
  }

  /** The fixed window over-reaches: an address counts as a handler it does not lie
      in exactly when it lies in none and, of the handlers whose window holds it,
      that one starts last. */
  lemma WindowOverreachIff(handlers: seq<u64>, sizes: seq<nat>, dispatcher: u64, ip: u64, k: nat)
    requires Disjoint(handlers, sizes) && k < |handlers| && ip != dispatcher
    ensures Bytecode(handlers, dispatcher, [dispatcher, ip], 1) == [k] && !InHandler(handlers, sizes, k, ip)
            <==> && handlers[k] <= ip < handlers[k] + 256
                 && (forall j | 0 <= j < |handlers| && j != k ::
                       handlers[j] <= ip < handlers[j] + 256 ==> handlers[j] < handlers[k])
                 && (forall j | 0 <= j < |handlers| :: !InHandler(handlers, sizes, j, ip))
  {
    hide SlotOf, Bytecode, Add64;
    OneAddressRound(handlers, dispatcher, ip);
    SlotOwns(handlers, |handlers|, ip);
    forall j | 0 <= j < |handlers|
      ensures Add64(handlers[j], EXTENT) == handlers[j] + EXTENT
      ensures InHandler(handlers, sizes, j, ip) ==> SlotOf(handlers, |handlers|, ip) == Some(j)
    {
      Add64Small(handlers[j], EXTENT);
      if InHandler(handlers, sizes, j, ip) { InsideMeansSlot(handlers, sizes, j, ip); }
    }
    if Owns(handlers, |handlers|, ip, k) { OwnerIsSlot(handlers, ip, k); }
  }
}
