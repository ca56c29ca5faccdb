/** The process-icon queue: lookups answered from a cache, misses coalesced for
    one frame and fetched in batches of at most 64 paths. */
module Icons {
  import opened Words

  const BATCH: nat := 64

  type Path = string

  /** A cached entry without a value is a path known to have no icon. */
  type Icon = Option<string>

  /** The cache, the paths waiting for a batch in the order they were asked for,
      and whether the coalescing timer is armed. */
  datatype Queue = Queue(cache: map<Path, Icon>, pending: seq<Path>, timer: bool)

  datatype Lookup = Missing | InFlight | Known(url: string)

  /** The engine's answer to one batch; the call may also fail. */
  datatype Reply = Icons(icons: map<Path, Icon>) | Failed

  function Answer(q: Queue, path: Path): Lookup {
    if path == "" then Missing
    else if path !in q.cache then InFlight
    else if q.cache[path].Some? then Known(q.cache[path].value)
    else Missing
  }

  function Request(q: Queue, path: Path): Queue {
    if path == "" || path in q.cache || path in q.pending then q
    else q.(pending := q.pending + [path], timer := true)
  }

  /** What a batch takes from the queue. */
  function Batch(pending: seq<Path>): seq<Path> {
    if |pending| > BATCH then pending[..BATCH] else pending
  }

  function AfterFire(q: Queue): Queue {
    q.(pending := q.pending[|Batch(q.pending)|..], timer := false)
  }

  function IconIn(reply: Reply, path: Path): Icon {
    if reply.Icons? && path in reply.icons then reply.icons[path] else None
  }

  function Fill(cache: map<Path, Icon>, batch: seq<Path>, reply: Reply): map<Path, Icon> {
    if batch == [] then cache
    else Fill(cache, batch[..|batch| - 1], reply)[batch[|batch| - 1] := IconIn(reply, batch[|batch| - 1])]
  }

  function AfterReply(q: Queue, batch: seq<Path>, reply: Reply): Queue {
    q.(cache := Fill(q.cache, batch, reply), timer := q.timer || q.pending != [])
  }

  /** Main result on one batch: afterwards each of its paths is answered with its
      icon, or as having none if the reply names none or the call failed; other
      paths are answered as before, and unknown ones are waited for. */
  lemma AnswerAfterReply(q: Queue, batch: seq<Path>, reply: Reply, p: Path)
    requires p != ""
    ensures var r := Answer(AfterReply(q, batch, reply), p);
            && (p in batch && reply.Icons? && p in reply.icons && reply.icons[p].Some? ==>
                  r == Known(reply.icons[p].value))
            && (p in batch && !(reply.Icons? && p in reply.icons && reply.icons[p].Some?) ==> r == Missing)
            && (p !in batch && p in q.cache ==> r == Answer(q, p))
            && (p !in batch && p !in q.cache ==> r == InFlight)
            && (p in q.cache ==> Answer(q, p) == if q.cache[p].Some? then Known(q.cache[p].value) else Missing)
  {
    hide Fill;
    FillIs(q.cache, batch, reply);
  }

  /** A batch takes the first 64 waiting paths. */
  lemma BatchTakes(q: Queue)
    ensures Batch(q.pending) + AfterFire(q).pending == q.pending
    ensures |Batch(q.pending)| == if |q.pending| < 64 then |q.pending| else 64
  {
  }

  function RequestAll(q: Queue, paths: seq<Path>): Queue {
    if paths == [] then q else Request(RequestAll(q, paths[..|paths| - 1]), paths[|paths| - 1])
  }

  /** Nobody is overtaken: whatever else is asked for, the waiting paths keep their
      places. */
  lemma {:induction false} WaitersKeepPlace(q: Queue, paths: seq<Path>)
    ensures q.pending <= RequestAll(q, paths).pending
    ensures forall p <- paths :: p == "" || p in q.cache || p in RequestAll(q, paths).pending
    ensures RequestAll(q, paths).cache == q.cache
  {
    if paths != [] {
      WaitersKeepPlace(q, paths[..|paths| - 1]);
      assert forall p <- paths :: p in paths[..|paths| - 1] || p == paths[|paths| - 1];
    }
  }

  lemma {:induction false} FillIs(cache: map<Path, Icon>, batch: seq<Path>, reply: Reply)
    ensures forall p :: p in Fill(cache, batch, reply) <==> p in cache || p in batch
    ensures forall p <- Fill(cache, batch, reply) ::
              Fill(cache, batch, reply)[p] == if p in batch then IconIn(reply, p) else cache[p]
  {
    if batch != [] {
      var front, last := batch[..|batch| - 1], batch[|batch| - 1];
      FillIs(cache, front, reply);
      assert batch == front + [last];
      assert forall p :: p in batch <==> p in front || p == last;
    }
  }

  /** The state the lookups, the timer and the flushes share. */
  class IconQueue {
    var cache: map<Path, Icon>
    var pending: seq<Path>
    var timer: bool

    ghost function Value(): Queue
      reads this
    {
      Queue(cache, pending, timer)
    }

    constructor ()
      ensures Value() == Queue(map[], [], false)
    {
      cache, pending, timer := map[], [], false;
    }

    method Schedule()
      modifies this`timer
      ensures timer
    {
      if timer {
        return;
      }
      timer := true;
    }

    method IconFor(path: Path) returns (r: Lookup)
      modifies this
      ensures Value() == Request(old(Value()), path)
      ensures r == Answer(old(Value()), path)
    {
      if path == "" {
        return Missing;
      }
      if path in cache {
        return if cache[path].Some? then Known(cache[path].value) else Missing;
      }
      if path !in pending {
        pending := pending + [path];
        Schedule();
      }
      return InFlight;
    }

    /** The flush up to its call. */
    method Fire() returns (batch: seq<Path>)
      modifies this
      ensures Value() == AfterFire(old(Value()))
      ensures batch == Batch(old(pending))
    {
      timer := false;
      batch := pending[..if |pending| < BATCH then |pending| else BATCH];
      if |batch| == 0 {
        return;
      }
      pending := pending[|batch|..];
    }

    /** The flush after its call. */
    method Settle(batch: seq<Path>, reply: Reply)
      modifies this
      ensures Value() == AfterReply(old(Value()), batch, reply)
    {
      var before := cache;
      assert batch[..0] == [];
      for k := 0 to |batch|
        invariant cache == Fill(before, batch[..k], reply)
        invariant pending == old(pending) && timer == old(timer)
      {
        assert batch[..k + 1][..k] == batch[..k];
        cache := cache[batch[k] := IconIn(reply, batch[k])];
      }
      assert batch[..|batch|] == batch;
      if |pending| > 0 {
        Schedule();
      }
    }
  }

  // ----- all interleavings of lookups, timer and calls

  /** The queue, the batches whose calls are under way, and every path ever
      asked for. */
  datatype Sys = Sys(queue: Queue, flights: seq<seq<Path>>, asked: set<Path>)

  const INITIAL := Sys(Queue(map[], [], false), [], {})

  datatype Op = Ask(path: Path) | Fire | Settle(i: nat, reply: Reply)

  predicate Enabled(s: Sys, op: Op) {
    match op
    case Ask(_) => true
    case Fire => s.queue.timer
    case Settle(i, _) => i < |s.flights|
  }

  function Do(s: Sys, op: Op): Sys
    requires Enabled(s, op)
  {
    match op
    case Ask(path) => Sys(Request(s.queue, path), s.flights, if path == "" then s.asked else s.asked + {path})
    case Fire =>
      var batch := Batch(s.queue.pending);
      Sys(AfterFire(s.queue), if batch == [] then s.flights else s.flights + [batch], s.asked)
    case Settle(i, reply) => Sys(AfterReply(s.queue, s.flights[i], reply), Without(s.flights, i), s.asked)
  }

  predicate IsRun(s: Sys, ops: seq<Op>)
    decreases |ops|
  {
    ops == [] || (Enabled(s, ops[0]) && IsRun(Do(s, ops[0]), ops[1..]))
  }

  function Run(s: Sys, ops: seq<Op>): Sys
    requires IsRun(s, ops)
    decreases |ops|
  {
    if ops == [] then s else Run(Do(s, ops[0]), ops[1..])
  }

  /** Every path of every batch under way. */
  function Aloft(flights: seq<seq<Path>>): multiset<Path> {
    if flights == [] then multiset{} else multiset(flights[0]) + Aloft(flights[1..])
  }

  lemma {:induction false} AloftSnoc(flights: seq<seq<Path>>, batch: seq<Path>)
    ensures Aloft(flights + [batch]) == Aloft(flights) + multiset(batch)
  {
    if flights == [] {
      assert (flights + [batch])[1..] == [];
    } else {
      assert (flights + [batch])[1..] == flights[1..] + [batch];
      AloftSnoc(flights[1..], batch);
    }
  }

  lemma {:induction false} AloftWithout(flights: seq<seq<Path>>, i: nat)
    requires i < |flights|
    ensures Aloft(Without(flights, i)) + multiset(flights[i]) == Aloft(flights)
  {
    var rest := Without(flights, i);
    if i == 0 {
      assert rest == flights[1..];
    } else {
      assert rest[0] == flights[0] && rest[1..] == Without(flights[1..], i - 1);
      AloftWithout(flights[1..], i - 1);
    }
  }

  predicate Distinct(s: seq<Path>) {
    forall p :: p in s ==> multiset(s)[p] == 1
  }

  /** In every reachable state: paths waiting have an armed timer or a flush
      under way to take care of them, batches are small and without repeats, and
      nothing asked for is forgotten. */
  ghost predicate Inv(s: Sys) {
    && Distinct(s.queue.pending)
    && (s.queue.timer ==> s.queue.pending != [])
    && (s.queue.pending != [] ==> s.queue.timer || s.flights != [])
    && (forall f <- s.flights :: 0 < |f| <= BATCH && Distinct(f))
    && (forall p <- s.asked :: p in s.queue.cache || p in s.queue.pending || p in Aloft(s.flights))
    && "" !in s.queue.pending && "" !in Aloft(s.flights)
  }

  lemma SplitBatch(pending: seq<Path>)
    ensures multiset(Batch(pending)) + multiset(pending[|Batch(pending)|..]) == multiset(pending)
    ensures Distinct(pending) ==> Distinct(Batch(pending)) && Distinct(pending[|Batch(pending)|..])
  {
    var batch, rest := Batch(pending), pending[|Batch(pending)|..];
    assert pending == batch + rest;
    if Distinct(pending) {
      forall p | p in batch ensures multiset(batch)[p] == 1 {
        assert p in pending && multiset(pending)[p] == multiset(batch)[p] + multiset(rest)[p];
      }
      forall p | p in rest ensures multiset(rest)[p] == 1 {
        assert p in pending && multiset(pending)[p] == multiset(batch)[p] + multiset(rest)[p];
      }
    }
  }

  lemma AskKeeps(s: Sys, path: Path)
    requires Inv(s)
    ensures Inv(Do(s, Ask(path)))
  {
    var q := Request(s.queue, path);
    if q != s.queue {
      assert forall p :: p in q.pending <==> p in s.queue.pending || p == path;
      assert multiset(q.pending) == multiset(s.queue.pending) + multiset{path};
      assert multiset(s.queue.pending)[path] == 0;
    }
  }

  lemma FireKeeps(s: Sys)
    requires Inv(s) && Enabled(s, Fire)
    ensures Inv(Do(s, Fire))
  {
    hide Distinct;
    var pending := s.queue.pending;
    var batch, rest := Batch(pending), pending[|Batch(pending)|..];
    SplitBatch(pending);
    AloftSnoc(s.flights, batch);
    forall p ensures p in pending <==> p in batch || p in rest {
      assert p in pending <==> p in multiset(pending);
    }
  }

  lemma SettleKeeps(s: Sys, i: nat, reply: Reply)
    requires Inv(s) && Enabled(s, Settle(i, reply))
    ensures Inv(Do(s, Settle(i, reply)))
  {
    hide Distinct, Fill;
    FillIs(s.queue.cache, s.flights[i], reply);
    AloftWithout(s.flights, i);
    forall p | p in Aloft(s.flights) ensures p in s.flights[i] || p in Aloft(Without(s.flights, i)) {
      assert p in s.flights[i] <==> p in multiset(s.flights[i]);
    }
  }

  lemma StepKeeps(s: Sys, op: Op)
    requires Inv(s) && Enabled(s, op)
    ensures Inv(Do(s, op))
  {
    match op
    case Ask(path) => AskKeeps(s, path);
    case Fire => FireKeeps(s);
    case Settle(i, reply) => SettleKeeps(s, i, reply);
  }

  lemma {:induction false} RunKeeps(s: Sys, ops: seq<Op>)
    requires Inv(s) && IsRun(s, ops)
    ensures Inv(Run(s, ops))
    decreases |ops|
  {
    hide Inv, Do;
    if ops != [] {
      StepKeeps(s, ops[0]);
      RunKeeps(Do(s, ops[0]), ops[1..]);
    }
  }

  /** Main result: no run of lookups, timers and calls strands a request. */
  lemma NeverStranded(ops: seq<Op>)
    requires IsRun(INITIAL, ops)
    ensures var s := Run(INITIAL, ops);
            && (s.queue.pending != [] ==> s.queue.timer || s.flights != [])
            && (forall f <- s.flights :: 0 < |f| <= 64 && Distinct(f))
            && (!s.queue.timer && s.flights == [] ==> s.asked <= s.queue.cache.Keys)
  {
    assert Inv(INITIAL);
    RunKeeps(INITIAL, ops);
  }

  // ----- draining

  function Batches(n: nat): nat {
    (n + BATCH - 1) / BATCH
  }

  /** The timer and call steps left when no new path is asked for. */
  function Left(s: Sys): nat {
    2 * Batches(|s.queue.pending|) + |s.flights|
  }

  lemma StepDrains(s: Sys, op: Op)
    requires Inv(s) && Enabled(s, op) && !op.Ask?
    ensures Inv(Do(s, op)) && Left(Do(s, op)) == Left(s) - 1
  {
    hide Inv;
    StepKeeps(s, op);
    if op.Fire? { FireTakes(s); }
  }

  lemma FireTakes(s: Sys)
    requires Inv(s) && s.queue.timer
    ensures |Do(s, Fire).flights| == |s.flights| + 1
    ensures Batches(|Do(s, Fire).queue.pending|) == Batches(|s.queue.pending|) - 1
  {
  }

  /** Main result: once nothing new is asked for, the queue drains. However
      timers and calls interleave and whatever the calls return, a run of n steps
      leaves exactly n fewer, and when none is possible everything asked for is
      in the cache. */
  lemma {:induction false} Drains(s: Sys, ops: seq<Op>)
    requires Inv(s) && IsRun(s, ops) && forall op <- ops :: !op.Ask?
    ensures Left(Run(s, ops)) == Left(s) - |ops|
    ensures Left(Run(s, ops)) == 0 <==> forall op: Op | !op.Ask? :: !Enabled(Run(s, ops), op)
    ensures Left(Run(s, ops)) == 0 ==> s.asked <= Run(s, ops).queue.cache.Keys
    decreases |ops|
  {
    hide Inv, Do, Left;
    if ops == [] {
      Idle(s);
    } else {
      StepDrains(s, ops[0]);
      AskedStays(s, ops[0]);
      Drains(Do(s, ops[0]), ops[1..]);
    }
  }

  lemma AskedStays(s: Sys, op: Op)
    requires Enabled(s, op) && !op.Ask?
    ensures Do(s, op).asked == s.asked
  {
  }

  lemma Idle(s: Sys)
    requires Inv(s)
    ensures Left(s) == 0 <==> forall op: Op | !op.Ask? :: !Enabled(s, op)
    ensures Left(s) == 0 ==> s.asked <= s.queue.cache.Keys
  {
    if s.queue.timer { assert Enabled(s, Fire); }
    if s.flights != [] { assert Enabled(s, Settle(0, Failed)); }
  }

  // ----- one fetch per path

  /** A lookup of a path whose batch is under way queues it a second time. */
  predicate Polite(s: Sys, op: Op) {
    op.Ask? && op.path !in s.queue.cache ==> op.path !in Aloft(s.flights)
  }

  predicate PoliteRun(s: Sys, ops: seq<Op>)
    requires IsRun(s, ops)
    decreases |ops|
  {
    ops == [] || (Polite(s, ops[0]) && PoliteRun(Do(s, ops[0]), ops[1..]))
  }

  /** How often a path is waiting, under way or cached. */
  function Times(s: Sys, p: Path): nat {
    multiset(s.queue.pending)[p] + Aloft(s.flights)[p] + if p in s.queue.cache then 1 else 0
  }

  ghost predicate Once(s: Sys) {
    forall p :: Times(s, p) <= 1
  }

  lemma AskOnceIff(s: Sys, path: Path)
    requires Inv(s) && Once(s)
    ensures Once(Do(s, Ask(path))) <==> Polite(s, Ask(path))
  {
    var q, op := Request(s.queue, path), Ask(path);
    if q != s.queue {
      assert multiset(q.pending) == multiset(s.queue.pending) + multiset{path};
      assert forall p :: Times(Do(s, op), p) == Times(s, p) + if p == path then 1 else 0;
      assert Times(s, path) == Aloft(s.flights)[path];
      assert Times(Do(s, op), path) == Times(s, path) + 1;
    } else {
      assert forall p :: Times(Do(s, op), p) == Times(s, p);
      assert path in s.queue.pending ==> path in multiset(s.queue.pending);
      assert Times(s, path) <= 1;
    }
  }

  lemma FlushKeepsOnce(s: Sys, op: Op)
    requires Once(s) && Enabled(s, op) && !op.Ask?
    ensures Once(Do(s, op))
    ensures forall p <- s.queue.cache :: p in Do(s, op).queue.cache && Do(s, op).queue.cache[p] == s.queue.cache[p]
  {
    hide Fill;
    match op
    case Fire =>
      SplitBatch(s.queue.pending);
      AloftSnoc(s.flights, Batch(s.queue.pending));
      assert forall p :: Times(Do(s, op), p) == Times(s, p);
    case Settle(i, reply) =>
      var batch := s.flights[i];
      AloftWithout(s.flights, i);
      FillIs(s.queue.cache, batch, reply);
      forall p ensures Times(Do(s, op), p) <= 1 && (p in s.queue.cache ==> p !in batch) {
        assert Aloft(s.flights)[p] == Aloft(Without(s.flights, i))[p] + multiset(batch)[p];
        assert p in batch <==> multiset(batch)[p] > 0;
        assert Times(s, p) <= 1;
      }
  }

  /** While every path is waiting, under way or cached at most once, a step keeps
      that exactly when it is no lookup of a path whose batch is under way. */
  lemma OnceIffPolite(s: Sys, op: Op)
    requires Inv(s) && Once(s) && Enabled(s, op)
    ensures Once(Do(s, op)) <==> Polite(s, op)
  {
    hide Inv, Once;
    if op.Ask? { AskOnceIff(s, op.path); } else { FlushKeepsOnce(s, op); }
  }

  /** Every state of the run has every path at most once. */
  ghost predicate OnceThroughout(s: Sys, ops: seq<Op>)
    requires IsRun(s, ops)
    decreases |ops|
  {
    Once(s) && (ops == [] || OnceThroughout(Do(s, ops[0]), ops[1..]))
  }

  /** Main result: over a whole run every path is fetched at most once at a time,
      and never again once cached, exactly when none is looked up while its batch
      is under way. */
  lemma {:induction false} RunOnceIffPolite(s: Sys, ops: seq<Op>)
    requires Inv(s) && Once(s) && IsRun(s, ops)
    ensures OnceThroughout(s, ops) <==> PoliteRun(s, ops)
    decreases |ops|
  {
    hide Inv, Once, Do, Polite;
    if ops != [] {
      OnceIffPolite(s, ops[0]);
      StepKeeps(s, ops[0]);
      if Once(Do(s, ops[0])) { RunOnceIffPolite(Do(s, ops[0]), ops[1..]); }
    }
  }

  lemma AskKeepsAnswers(s: Sys, path: Path)
    ensures Do(s, Ask(path)).queue.cache == s.queue.cache
  {
  }

  /** And in such a run an answer once given never changes. */
  lemma {:induction false} AnswersNeverChange(s: Sys, ops: seq<Op>)
    requires Inv(s) && Once(s) && IsRun(s, ops) && PoliteRun(s, ops)
    ensures Once(Run(s, ops))
    ensures forall p <- s.queue.cache :: p in Run(s, ops).queue.cache && Run(s, ops).queue.cache[p] == s.queue.cache[p]
    decreases |ops|
  {
    hide Inv, Once, Do, Polite;
    if ops != [] {
      OnceIffPolite(s, ops[0]);
      if ops[0].Ask? { AskKeepsAnswers(s, ops[0].path); } else { FlushKeepsOnce(s, ops[0]); }
      StepKeeps(s, ops[0]);
      AnswersNeverChange(Do(s, ops[0]), ops[1..]);
    }
  }

  /** Without that an icon already shown can be lost: the second fetch of the
      path fails, and its failure replaces the icon. */
  lemma SecondFetchLosesIcon(path: Path, url: string)
    requires path != ""
    ensures var asked := Do(Do(Do(Do(INITIAL, Ask(path)), Fire), Ask(path)), Fire);
            var shown := Do(asked, Settle(0, Reply.Icons(map[path := Some(url)])));
            var failed := Do(shown, Settle(0, Failed));
            Answer(shown.queue, path) == Known(url) && Answer(failed.queue, path) == Missing
  {
    var q := Request(INITIAL.queue, path);
    assert q.pending == [path];
    var fired := Do(Do(INITIAL, Ask(path)), Fire);
    assert fired.flights == [[path]] && fired.queue.pending == [];
    var asked := Do(Do(fired, Ask(path)), Fire);
    assert asked.flights == [[path], [path]];
    var shown := Do(asked, Settle(0, Reply.Icons(map[path := Some(url)])));
    FillIs(asked.queue.cache, [path], Reply.Icons(map[path := Some(url)]));
    assert shown.flights == [[path]];
    FillIs(shown.queue.cache, [path], Failed);
  }
}
