/** The output pane: lines live in the engine's ring, arrive as live frames, and
    after a reconnect the missed ones are replayed. */
module OutputLog {
  import opened Words

  const MAX_LINES: nat := 4096

  datatype Line = Line(seq_: nat, text: string)

  datatype Store = Store(lines: seq<Line>, revision: nat)

  const EMPTY := Store([], 0)

  /** A replay: the retained lines after the cursor, and the engine's newest
      sequence number. */
  datatype Response = Response(lines: seq<Line>, revision: nat)

  function LastN<T>(s: seq<T>, n: nat): (r: seq<T>)
    ensures |r| <= n
  {
    if |s| > n then s[|s| - n..] else s
  }

  // ----- the updaters

  function OnLine(s: Store, line: Line): Store {
    if line.seq_ <= s.revision then s
    else Store(LastN(s.lines, MAX_LINES - 1) + [line], line.seq_)
  }

  /** A hello with a smaller number comes from a restarted engine. */
  function AfterHello(s: Store, revision: nat): Store {
    if revision < s.revision then EMPTY else s
  }

  function Cursor(s: Store, revision: nat): nat {
    if s.revision > 0 then s.revision
    else if revision > MAX_LINES then revision - MAX_LINES else 0
  }

  function Newer(lines: seq<Line>, revision: nat): seq<Line> {
    if lines == [] then []
    else Newer(lines[..|lines| - 1], revision)
         + if lines[|lines| - 1].seq_ > revision then [lines[|lines| - 1]] else []
  }

  function Merge(s: Store, r: Response): Store {
    if r.lines == [] then s
    else Store(LastN(s.lines + Newer(r.lines, s.revision), MAX_LINES), r.revision)
  }

  /** The shared store; each method is one update of it. */
  class OutputStore {
    var lines: seq<Line>
    var revision: nat

    ghost function Value(): Store
      reads this
    {
      Store(lines, revision)
    }

    constructor ()
      ensures Value() == EMPTY
    {
      lines, revision := [], 0;
    }

    method OnOutput(line: Line)
      modifies this
      ensures Value() == OnLine(old(Value()), line)
    {
      if line.seq_ > revision {
        lines := LastN(lines, MAX_LINES - 1) + [line];
        revision := line.seq_;
      }
    }

    method OnCleared()
      modifies this
      ensures Value() == EMPTY
    {
      lines, revision := [], 0;
    }

    /** Returns the cursor to replay from. */
    method OnHello(outputRevision: nat) returns (since: nat)
      modifies this
      ensures Value() == AfterHello(old(Value()), outputRevision)
      ensures since == Cursor(Value(), outputRevision)
    {
      if outputRevision < revision {
        lines, revision := [], 0;
      }
      since := if revision > 0 then revision
               else if outputRevision > MAX_LINES then outputRevision - MAX_LINES else 0;
    }

    method OnReplay(r: Response)
      modifies this
      ensures Value() == Merge(old(Value()), r)
    {
      if r.lines == [] {
        return;
      }
      var merged := lines;
      assert r.lines[..0] == [];
      for k := 0 to |r.lines|
        invariant merged == lines + Newer(r.lines[..k], revision)
        invariant Value() == old(Value())
      {
        assert r.lines[..k + 1][..k] == r.lines[..k];
        if r.lines[k].seq_ > revision { merged := merged + [r.lines[k]]; }
      }
      assert r.lines[..|r.lines|] == r.lines;
      lines := if |merged| > MAX_LINES then merged[|merged| - MAX_LINES..] else merged;
      revision := r.revision;
    }
  }

  // ----- what the pane should hold

  /** The engine's lines, numbered from 1 without gaps. */
  ghost predicate Numbered(log: seq<Line>) {
    forall i | 0 <= i < |log| :: log[i].seq_ == i + 1
  }

  /** The engine's lines numbered a + 1 to b. */
  function Block(log: seq<Line>, a: nat, b: nat): (r: seq<Line>)
    requires a <= b <= |log|
    ensures |r| == b - a
  {
    log[a..b]
  }

  /** The pane holds a gap-free, duplicate-free block of the engine's lines that
      ends at `revision`. */
  ghost predicate Good(s: Store, log: seq<Line>) {
    && |s.lines| <= MAX_LINES && |s.lines| <= s.revision <= |log|
    && s.lines == Block(log, s.revision - |s.lines|, s.revision)
    && (s.lines == [] ==> s.revision == 0)
  }

  lemma JoinBlocks(log: seq<Line>, a: nat, b: nat, c: nat)
    requires a <= b <= c <= |log|
    ensures Block(log, a, b) + Block(log, b, c) == Block(log, a, c)
  {
  }

  lemma OneBlock(log: seq<Line>, k: nat)
    requires k < |log|
    ensures Block(log, k, k + 1) == [log[k]]
  {
  }

  lemma LastOfBlock(log: seq<Line>, a: nat, b: nat, n: nat)
    requires a <= b <= |log|
    ensures LastN(Block(log, a, b), n) == Block(log, if b - a > n then b - n else a, b)
  {
  }

  lemma NewerSnoc(lines: seq<Line>, line: Line, revision: nat)
    ensures Newer(lines + [line], revision) == Newer(lines, revision) + if line.seq_ > revision then [line] else []
  {
    assert (lines + [line])[..|lines|] == lines;
  }

  lemma NewerNothing(revision: nat)
    ensures Newer([], revision) == []
  {
  }

  /** Filtering a block by number leaves its end. */
  lemma {:induction false} NewerIs(log: seq<Line>, a: nat, b: nat, revision: nat)
    requires Numbered(log) && a <= b <= |log|
    ensures Newer(Block(log, a, b), revision)
            == if revision <= a then Block(log, a, b) else if revision < b then Block(log, revision, b) else []
    decreases b
  {
    hide Newer, Block;
    if a == b {
      assert Block(log, a, b) == [];
      NewerNothing(revision);
    } else {
      NewerIs(log, a, b - 1, revision);
      OneBlock(log, b - 1);
      JoinBlocks(log, a, b - 1, b);
      NewerSnoc(Block(log, a, b - 1), log[b - 1], revision);
      if a < revision < b { JoinBlocks(log, revision, b - 1, b); }
      if a < revision == b - 1 { assert [] + [log[b - 1]] == Block(log, b - 1, b); }
    }
  }

  /** A block of the log fixes its own place. */
  lemma BlockPlace(log: seq<Line>, a: nat, b: nat, c: nat, d: nat)
    requires Numbered(log) && a < b <= |log| && c <= d <= |log| && Block(log, a, b) == Block(log, c, d)
    ensures a == c && b == d
  {
    assert Block(log, a, b)[0] == log[a];
    assert d - c == b - a;
    assert Block(log, c, d)[0] == log[c];
  }

  ghost predicate Consecutive(t: seq<Line>) {
    forall i | 0 < i < |t| :: t[i].seq_ == t[i - 1].seq_ + 1
  }

  lemma GoodIsConsecutive(s: Store, log: seq<Line>)
    requires Numbered(log) && Good(s, log)
    ensures Consecutive(s.lines)
  {
    var from := s.revision - |s.lines|;
    forall i | 0 <= i < |s.lines|
      ensures s.lines[i].seq_ == from + i + 1
    {
      assert s.lines[i] == log[from + i];
    }
  }

  /** Two blocks with a gap between them. */
  lemma GapIsNotConsecutive(log: seq<Line>, a: nat, b: nat, c: nat, d: nat)
    requires Numbered(log) && a < b < c < d <= |log|
    ensures !Consecutive(Block(log, a, b) + Block(log, c, d))
  {
    var t, i := Block(log, a, b) + Block(log, c, d), b - a;
    assert t[i - 1] == log[b - 1] && t[i] == log[c];
  }

  /** A live line keeps the pane good exactly when it is old, next, or the first
      one held. */
  lemma LineKeepsGoodIff(s: Store, log: seq<Line>, k: nat)
    requires Numbered(log) && Good(s, log) && k < |log|
    ensures Good(OnLine(s, log[k]), log) <==> k <= s.revision || s.lines == []
  {
    hide Block, LastN;
    var line, start := log[k], s.revision - |s.lines|;
    assert line.seq_ == k + 1;
    if line.seq_ > s.revision {
      var from := if s.revision - start > MAX_LINES - 1 then s.revision - (MAX_LINES - 1) else start;
      LastOfBlock(log, start, s.revision, MAX_LINES - 1);
      OneBlock(log, k);
      if k == s.revision {
        JoinBlocks(log, from, k, k + 1);
      } else if s.lines == [] {
        assert [] + [line] == Block(log, k, k + 1);
      } else {
        GapIsNotConsecutive(log, from, s.revision, k, k + 1);
        if Good(OnLine(s, line), log) { GoodIsConsecutive(OnLine(s, line), log); }
      }
    }
  }

  /** The next line goes behind what is held, of which the newest 4095 stay. */
  lemma NextLine(s: Store, log: seq<Line>)
    requires Numbered(log) && Good(s, log) && s.revision < |log|
    ensures var t, n := OnLine(s, log[s.revision]), s.revision + 1;
            && t.revision == n
            && t.lines == Block(log, if |s.lines| + 1 > 4096 then n - 4096 else s.revision - |s.lines|, n)
  {
    hide Block, LastN;
    var start, n := s.revision - |s.lines|, s.revision;
    assert log[n].seq_ == n + 1;
    LastOfBlock(log, start, n, MAX_LINES - 1);
    OneBlock(log, n);
    JoinBlocks(log, if |s.lines| > 4095 then n - 4095 else start, n, n + 1);
  }

  /** What the engine can answer: the lines numbered from + 1 to `to`, and a
      number read after them. */
  ghost predicate IsAnswer(r: Response, log: seq<Line>, from: nat, to: nat) {
    && from <= to <= r.revision <= |log|
    && r.lines == Block(log, from, to) && |r.lines| <= MAX_LINES
  }

  /** A replay that can be merged: it does not end before what is held, and it
      starts right after it, or replaces it completely. */
  ghost predicate Mergeable(s: Store, r: Response, from: nat) {
    r.revision >= s.revision && (s.lines == [] || from <= s.revision || |r.lines| == MAX_LINES)
  }

  lemma BackwardsIsBad(s: Store, r: Response, log: seq<Line>, from: nat)
    requires Numbered(log) && Good(s, log) && IsAnswer(r, log, from, r.revision)
    requires r.lines != [] && r.revision < s.revision
    ensures !Good(Merge(s, r), log)
  {
    NewerIs(log, from, r.revision, s.revision);
    assert s.lines + [] == s.lines;
    assert Merge(s, r) == Store(s.lines, r.revision);
    if Good(Store(s.lines, r.revision), log) {
      BlockPlace(log, s.revision - |s.lines|, s.revision, r.revision - |s.lines|, r.revision);
    }
  }

  lemma MergeNext(s: Store, r: Response, log: seq<Line>, from: nat)
    requires Numbered(log) && Good(s, log) && IsAnswer(r, log, from, r.revision) && r.lines != []
    requires r.revision >= s.revision && (s.lines == [] || from <= s.revision)
    ensures Good(Merge(s, r), log)
  {
    hide LastN, Newer, Block;
    NewerIs(log, from, r.revision, s.revision);
    var start := if s.lines == [] then from else s.revision - |s.lines|;
    if s.lines == [] {
      assert s.lines + r.lines == r.lines;
    } else if s.revision == r.revision {
      assert s.lines + [] == s.lines;
    } else {
      JoinBlocks(log, start, s.revision, r.revision);
    }
    LastOfBlock(log, start, r.revision, MAX_LINES);
    assert Merge(s, r).lines == LastN(Block(log, start, r.revision), MAX_LINES);
  }

  lemma LastOfTwo<T>(a: seq<T>, b: seq<T>, n: nat)
    requires |b| <= n
    ensures LastN(a + b, n) == LastN(a, n - |b|) + b
  {
  }

  lemma MergeWhole(s: Store, r: Response, log: seq<Line>, from: nat)
    requires Numbered(log) && Good(s, log) && IsAnswer(r, log, from, r.revision)
    requires s.revision < from && |r.lines| == MAX_LINES
    ensures Good(Merge(s, r), log)
  {
    hide LastN, Newer, Block;
    NewerIs(log, from, r.revision, s.revision);
    LastOfTwo(s.lines, r.lines, MAX_LINES);
    assert LastN(s.lines, 0) + r.lines == r.lines;
  }

  lemma MergeGap(s: Store, r: Response, log: seq<Line>, from: nat)
    requires Numbered(log) && Good(s, log) && IsAnswer(r, log, from, r.revision)
    requires s.lines != [] && s.revision < from && 0 < |r.lines| < MAX_LINES
    ensures !Good(Merge(s, r), log)
  {
    hide LastN, Newer, Block;
    NewerIs(log, from, r.revision, s.revision);
    var start, n := s.revision - |s.lines|, MAX_LINES - |r.lines|;
    LastOfTwo(s.lines, r.lines, MAX_LINES);
    LastOfBlock(log, start, s.revision, n);
    GapIsNotConsecutive(log, if |s.lines| > n then s.revision - n else start, s.revision, from, r.revision);
    if Good(Merge(s, r), log) { GoodIsConsecutive(Merge(s, r), log); }
  }

  /** A good pane that holds anything ends at its revision. */
  lemma GoodEnds(s: Store, log: seq<Line>)
    requires Numbered(log) && Good(s, log) && s.lines != []
    ensures s.lines[|s.lines| - 1].seq_ == s.revision
  {
    assert s.lines[|s.lines| - 1] == log[s.revision - 1];
  }

  lemma LastKept(a: seq<Line>, n: nat)
    requires a != [] && n > 0
    ensures LastN(a, n) != [] && LastN(a, n)[|LastN(a, n)| - 1] == a[|a| - 1]
  {
  }

  /** An answer whose number is newer than its lines marks as held what is not. */
  lemma TornIsBad(s: Store, r: Response, log: seq<Line>, from: nat, to: nat)
    requires Numbered(log) && Good(s, log) && IsAnswer(r, log, from, to) && r.lines != [] && to < r.revision
    ensures Good(Merge(s, r), log) <==> s.lines != [] && s.revision == r.revision
  {
    hide Newer, LastN, Block;
    var all := s.lines + Newer(r.lines, s.revision);
    NewerIs(log, from, to, s.revision);
    if to <= s.revision {
      assert all == s.lines;
      GoodEnds(s, log);
    } else {
      var start := if s.revision <= from then from else s.revision;
      assert Newer(r.lines, s.revision) == Block(log, start, to);
      LastOfLog(log, start, to);
    }
    LastKept(all, MAX_LINES);
    assert all[|all| - 1].seq_ == if to <= s.revision then s.revision else to;
    if Good(Merge(s, r), log) { GoodEnds(Merge(s, r), log); }
    if s.revision == r.revision { LastOfAll(s.lines); }
  }

  lemma LastOfLog(log: seq<Line>, a: nat, b: nat)
    requires Numbered(log) && a < b <= |log|
    ensures Block(log, a, b) != [] && Block(log, a, b)[b - a - 1].seq_ == b
  {
  }

  lemma LastOfAll(lines: seq<Line>)
    requires |lines| <= MAX_LINES
    ensures LastN(lines, MAX_LINES) == lines
  {
  }

  /** Main result on one replay: merging it keeps the pane good exactly when its
      number belongs to its lines and it is mergeable, or the pane already ends
      at that number; whatever happened since it was asked for. */
  lemma MergeKeepsGoodIff(s: Store, r: Response, log: seq<Line>, from: nat, to: nat)
    requires Numbered(log) && Good(s, log) && IsAnswer(r, log, from, to) && r.lines != []
    ensures Good(Merge(s, r), log) <==>
            (to == r.revision && Mergeable(s, r, from)) || (s.lines != [] && s.revision == r.revision)
  {
    hide Merge;
    if to < r.revision {
      TornIsBad(s, r, log, from, to);
    } else if r.revision < s.revision {
      BackwardsIsBad(s, r, log, from);
    } else if s.lines == [] || from <= s.revision {
      MergeNext(s, r, log, from);
    } else if |r.lines| == MAX_LINES {
      MergeWhole(s, r, log, from);
    } else {
      MergeGap(s, r, log, from);
    }
  }

  // ----- the engine, the event stream and the pane running together

  const MAX_QUEUE: nat := 512

  /** An event on its way to the pane; those that do not concern it share the
      way. */
  datatype Frame = LineFrame(line: Line) | ClearedFrame | OtherFrame

  /** The hello frame: its number not read yet, read but not delivered, or
      delivered. It precedes all other frames. */
  datatype Greeting = Unread | Ready(revision: nat) | Given

  /** The stream: the frames in the subscriber's queue, and those taken from it
      and not delivered yet. */
  datatype Conn = Down | Up(greeting: Greeting, queue: seq<Frame>, wire: seq<Frame>)

  /** A replay: the engine reads the lines, then the number. */
  datatype Call = Asked(since: nat) | LinesRead(lines: seq<Line>) | Answered(response: Response)

  /** The engine's lines so far and how many of them the last clear removed; the
      frames made by threads that have not looked for subscribers yet, and by
      those that have and are about to queue them; the stream, the pane, and the
      replays under way. */
  datatype Sys = Sys(log: seq<Line>, cleared: nat, made: seq<Frame>, aimed: seq<Frame>, conn: Conn,
                     store: Store, calls: seq<Call>)

  datatype Op =
    | Emit(text: string)
    | EngineClear
    | Aim(i: nat)
    | Queue(i: nat)
    | Other
    | Send
    | Subscribe
    | ReadRevision
    | DeliverHello
    | DeliverFrame
    | Disconnect
    | ReadLines(i: nat)
    | ReadNumber(i: nat)
    | Resolve(i: nat)
    | Fail(i: nat)
    | PaneClear

  const INITIAL := Sys([], 0, [], [], Down, EMPTY, [])

  /** A subscriber that is too far behind loses its oldest frame. */
  function Push(conn: Conn, f: Frame): Conn {
    if conn.Down? then conn
    else conn.(queue := (if |conn.queue| >= MAX_QUEUE then conn.queue[1..] else conn.queue) + [f])
  }

  /** How many of the engine's lines are no longer retained. */
  function Lost(s: Sys): nat {
    if |s.log| > MAX_LINES + s.cleared then |s.log| - MAX_LINES else s.cleared
  }

  function Retained(s: Sys, since: nat): seq<Line> {
    var n, lost := |s.log|, Lost(s);
    var from := if since > lost then since else lost;
    if from <= n then Block(s.log, from, n) else []
  }

  /** One step of any party, between two releases of a lock; a step that is not
      possible changes nothing. */
  function Do(s: Sys, op: Op): Sys {
    match op
    case Emit(text) =>
      var line := Line(|s.log| + 1, text);
      s.(log := s.log + [line], made := s.made + [LineFrame(line)])
    case EngineClear => s.(cleared := |s.log|, made := s.made + [ClearedFrame])
    case Aim(i) =>
      if i < |s.made| then
        s.(made := Without(s.made, i), aimed := if s.conn.Up? then s.aimed + [s.made[i]] else s.aimed)
      else s
    case Queue(i) =>
      if i < |s.aimed| then s.(aimed := Without(s.aimed, i), conn := Push(s.conn, s.aimed[i])) else s
    case Other => s.(conn := Push(s.conn, OtherFrame))
    case Send =>
      if s.conn.Up? && !s.conn.greeting.Unread? then
        s.(conn := s.conn.(queue := [], wire := s.conn.wire + s.conn.queue))
      else s
    case Subscribe => if s.conn.Down? then s.(conn := Up(Unread, [], [])) else s
    case ReadRevision =>
      if s.conn.Up? && s.conn.greeting.Unread? then s.(conn := s.conn.(greeting := Ready(|s.log|))) else s
    case DeliverHello =>
      if s.conn.Up? && s.conn.greeting.Ready? then
        var h := s.conn.greeting.revision;
        var store := AfterHello(s.store, h);
        s.(store := store, conn := s.conn.(greeting := Given), calls := s.calls + [Asked(Cursor(store, h))])
      else s
    case DeliverFrame =>
      if s.conn.Up? && s.conn.greeting.Given? && s.conn.wire != [] then
        s.(store := Received(s.store, s.conn.wire[0]), conn := s.conn.(wire := s.conn.wire[1..]))
      else s
    case Disconnect => s.(conn := Down, aimed := [])
    case ReadLines(i) =>
      if i < |s.calls| && s.calls[i].Asked? then
        s.(calls := s.calls[i := LinesRead(Retained(s, s.calls[i].since))])
      else s
    case ReadNumber(i) =>
      if i < |s.calls| && s.calls[i].LinesRead? then
        s.(calls := s.calls[i := Answered(Response(s.calls[i].lines, |s.log|))])
      else s
    case Resolve(i) =>
      if i < |s.calls| && s.calls[i].Answered? then
        s.(store := Merge(s.store, s.calls[i].response), calls := Without(s.calls, i))
      else s
    case Fail(i) => if i < |s.calls| then s.(calls := Without(s.calls, i)) else s
    case PaneClear => s.(store := EMPTY)
  }

  function Received(store: Store, f: Frame): Store {
    match f
    case LineFrame(line) => OnLine(store, line)
    case ClearedFrame => EMPTY
    case OtherFrame => store
  }

  function Run(s: Sys, ops: seq<Op>): Sys
    decreases |ops|
  {
    if ops == [] then s else Run(Do(s, ops[0]), ops[1..])
  }

  function HasClear(q: seq<Frame>): bool {
    ClearedFrame in q
  }

  /** The frames that the stream will bring if it lasts. */
  function Streaming(s: Sys): seq<Frame> {
    if s.conn.Up? then s.conn.wire + s.conn.queue + s.aimed else []
  }

  /** The same, with those that have not found their subscribers yet. */
  function Pipe(s: Sys): seq<Frame> {
    Streaming(s) + s.made
  }

  /** A clear is on its way: it will empty the pane, whatever that holds now. */
  predicate Clearing(s: Sys) {
    HasClear(Pipe(s))
  }

  /** The steps the pane can cope with: lines and clears find the stream and its
      queue in the order of their numbers, no line is numbered between the two
      reads of a replay, none is delivered and no second hello while a replay is
      under way, no clear gets lost, no backlog overflows, and a replay fails
      only if the connection is gone as well or a clear is on its way. */
  predicate Calm(s: Sys, op: Op) {
    match op
    case Emit(_) => forall c <- s.calls :: !c.LinesRead?
    case Aim(i) => i < |s.made| ==> i == 0 && (s.made[0].ClearedFrame? ==> s.conn.Up?)
    case Queue(i) => i < |s.aimed| && s.conn.Up? ==> i == 0 && |s.conn.queue| < MAX_QUEUE
    case Other => s.conn.Up? ==> |s.conn.queue| < MAX_QUEUE
    case DeliverHello => s.calls == []
    case DeliverFrame => s.conn.Up? && s.conn.wire != [] && s.conn.wire[0].LineFrame? ==> s.calls == []
    case Disconnect => !HasClear(Streaming(s))
    case Fail(_) => !(s.conn.Up? && s.conn.greeting.Given?) || Clearing(s)
    case _ => true
  }

  predicate CalmRun(s: Sys, ops: seq<Op>)
    decreases |ops|
  {
    ops == [] || (Calm(s, ops[0]) && CalmRun(Do(s, ops[0]), ops[1..]))
  }

  // ----- frames on their way

  function Lines(q: seq<Frame>): (n: nat) {
    if q == [] then 0 else Lines(q[1..]) + if q[0].LineFrame? then 1 else 0
  }

  /** The lines after the last clear. */
  function Tail(q: seq<Frame>): nat {
    if q == [] then 0
    else if HasClear(q) then Tail(q[1..])
    else Lines(q)
  }

  /** The lines are the engine's from number k + 1 to the last. */
  ghost predicate Queued(q: seq<Frame>, log: seq<Line>, k: nat)
    decreases |q|
  {
    if q == [] then k == |log|
    else if q[0].LineFrame? then k < |log| && q[0].line == log[k] && Queued(q[1..], log, k + 1)
    else Queued(q[1..], log, k)
  }

  lemma {:induction false} QueuedCount(q: seq<Frame>, log: seq<Line>, k: nat)
    requires Queued(q, log, k)
    ensures k + Lines(q) == |log|
    decreases |q|
  {
    if q != [] {
      QueuedCount(q[1..], log, if q[0].LineFrame? then k + 1 else k);
    }
  }

  lemma {:induction false} QueuedLine(q: seq<Frame>, log: seq<Line>, k: nat, line: Line)
    requires Queued(q, log, k)
    ensures Queued(q + [LineFrame(line)], log + [line], k)
    decreases |q|
  {
    var q', log' := q + [LineFrame(line)], log + [line];
    if q == [] {
      assert q'[1..] == [] && log'[k] == line;
    } else {
      assert q'[1..] == q[1..] + [LineFrame(line)] && q'[0] == q[0];
      QueuedLine(q[1..], log, if q[0].LineFrame? then k + 1 else k, line);
      assert q[0].LineFrame? ==> log'[k] == log[k];
    }
  }

  /** A frame that is no line may be anywhere. */
  lemma {:induction false} QueuedAround(a: seq<Frame>, f: Frame, b: seq<Frame>, log: seq<Line>, k: nat)
    requires Queued(a + b, log, k) && !f.LineFrame?
    ensures Queued(a + [f] + b, log, k)
    decreases |a|
  {
    if a == [] {
      assert (a + [f] + b)[1..] == a + b;
    } else {
      assert (a + [f] + b)[1..] == a[1..] + [f] + b && (a + b)[1..] == a[1..] + b;
      QueuedAround(a[1..], f, b, log, if a[0].LineFrame? then k + 1 else k);
    }
  }

  lemma {:induction false} LinesConcat(a: seq<Frame>, b: seq<Frame>)
    ensures Lines(a + b) == Lines(a) + Lines(b)
  {
    if a == [] {
      assert a + b == b;
    } else {
      assert (a + b)[1..] == a[1..] + b;
      LinesConcat(a[1..], b);
    }
  }

  lemma LinesOfOne(f: Frame)
    ensures Lines([f]) == if f.LineFrame? then 1 else 0
  {
    assert [f][1..] == [];
  }

  lemma {:induction false} TailSnoc(q: seq<Frame>, f: Frame)
    ensures Tail(q + [f]) == if f.LineFrame? then Tail(q) + 1 else if f.ClearedFrame? then 0 else Tail(q)
  {
    LinesConcat(q, [f]);
    LinesOfOne(f);
    if q == [] {
      assert (q + [f])[1..] == [];
    } else {
      assert (q + [f])[1..] == q[1..] + [f];
      TailSnoc(q[1..], f);
      assert f in q + [f];
    }
  }

  /** Events of other kinds change nothing. */
  lemma {:induction false} TailAround(a: seq<Frame>, b: seq<Frame>)
    ensures Tail(a + [OtherFrame] + b) == Tail(a + b)
    ensures Lines(a + [OtherFrame] + b) == Lines(a + b)
    ensures HasClear(a + [OtherFrame] + b) == HasClear(a + b)
  {
    var q, q' := a + b, a + [OtherFrame] + b;
    assert HasClear(q') == HasClear(q) by {
      assert forall f <- q :: f in q';
      assert forall f <- q' :: f in q || f == OtherFrame;
    }
    if a == [] {
      assert q'[1..] == q && q'[0] == OtherFrame;
      if !HasClear(q) { TailIsLines(q); }
    } else {
      assert q'[1..] == a[1..] + [OtherFrame] + b && q[1..] == a[1..] + b && q'[0] == q[0];
      TailAround(a[1..], b);
    }
  }

  lemma {:induction false} TailOfRest(q: seq<Frame>)
    requires q != []
    ensures Tail(q[1..]) <= Tail(q)
  {
    if !HasClear(q) && q[1..] != [] {
      assert forall f <- q[1..] :: f in q;
    }
  }

  /** What is left when the front is lost. */
  lemma {:induction false} DropFront(a: seq<Frame>, b: seq<Frame>, log: seq<Line>, k: nat)
    requires Queued(a + b, log, k)
    ensures Queued(b, log, k + Lines(a)) && Tail(b) <= Tail(a + b)
    decreases |a|
  {
    if a == [] {
      assert a + b == b;
    } else {
      assert (a + b)[1..] == a[1..] + b;
      TailOfRest(a + b);
      DropFront(a[1..], b, log, if a[0].LineFrame? then k + 1 else k);
    }
  }

  lemma TailIsLines(q: seq<Frame>)
    requires !HasClear(q)
    ensures Tail(q) == Lines(q)
  {
  }

  lemma HasClearConcat(a: seq<Frame>, b: seq<Frame>)
    ensures HasClear(a + b) <==> HasClear(a) || HasClear(b)
  {
  }

  // ----- the invariant of calm runs

  /** The number of the line before the first one on its way. */
  function Base(s: Sys): int {
    |s.log| - Lines(Pipe(s))
  }

  ghost predicate PipeInv(s: Sys) {
    && Base(s) >= 0 && Queued(Pipe(s), s.log, Base(s))
    && Tail(Pipe(s)) <= |s.log| - s.cleared
  }

  ghost predicate ConnInv(s: Sys) {
    && (s.conn.Down? ==> s.aimed == [])
    && (s.conn.Up? && s.conn.greeting.Unread? ==> s.conn.wire == [])
    && (s.conn.Up? && s.conn.greeting.Ready? ==> s.conn.greeting.revision <= |s.log|)
  }

  /** The answer a replay would get if its number were read now. */
  function Answer(s: Sys, c: Call): Response
    requires !c.Asked?
  {
    if c.Answered? then c.response else Response(c.lines, |s.log|)
  }

  function From(r: Response): int {
    r.revision - |r.lines|
  }

  ghost predicate CallInv(s: Sys, c: Call) {
    if c.Asked? then c.since <= |s.log|
    else
      var r := Answer(s, c);
      && From(r) >= 0 && IsAnswer(r, s.log, From(r), r.revision)
      && (s.conn.Up? && s.conn.greeting.Given? ==> Base(s) <= r.revision)
  }

  /** What the pane holds, and what a replay under way will add to it. */
  ghost predicate Held(s: Sys) {
    && Good(s.store, s.log)
    && (s.store.lines == [] || s.cleared <= s.store.revision)
    && (s.conn.Up? && s.conn.greeting.Given? && s.calls == [] ==> s.store.lines == [] || Base(s) <= s.store.revision)
    && (s.calls != [] ==> CallFits(s, s.calls[0]))
  }

  ghost predicate CallFits(s: Sys, c: Call) {
    if c.Asked? then s.store.lines == [] || c.since == s.store.revision
    else
      var r := Answer(s, c);
      && From(r) >= 0 && Mergeable(s.store, r, From(r)) && s.cleared <= r.revision
      && (r.lines == [] ==> s.store.lines == [] || s.store.revision == r.revision)
  }

  ghost predicate Inv(s: Sys) {
    && Numbered(s.log) && s.cleared <= |s.log| && s.store.revision <= |s.log|
    && PipeInv(s) && ConnInv(s)
    && |s.calls| <= 1 && (s.calls != [] ==> CallInv(s, s.calls[0]))
    && (Clearing(s) || Held(s))
  }

  /** More lines change nothing that was held or answered. */
  lemma BlockOfLonger(log: seq<Line>, line: Line, a: nat, b: nat)
    requires a <= b <= |log|
    ensures Block(log + [line], a, b) == Block(log, a, b)
  {
  }

  lemma EmitKeepsPipe(s: Sys, text: string)
    requires Inv(s)
    ensures var t := Do(s, Emit(text)); PipeInv(t) && Base(t) == Base(s) && Clearing(t) == Clearing(s)
  {
    hide Block, Queued, Lines, Tail, CallInv, Held, Streaming;
    var line := Line(|s.log| + 1, text);
    QueuedLine(Pipe(s), s.log, Base(s), line);
    LinesConcat(Pipe(s), [LineFrame(line)]);
    LinesOfOne(LineFrame(line));
    TailSnoc(Pipe(s), LineFrame(line));
    assert Streaming(Do(s, Emit(text))) == Streaming(s) by { SameStream(s, Do(s, Emit(text))); }
    assert Pipe(Do(s, Emit(text))) == Pipe(s) + [LineFrame(line)];
  }

  lemma SameStream(s: Sys, t: Sys)
    requires s.conn == t.conn && s.aimed == t.aimed
    ensures Streaming(s) == Streaming(t)
  {
  }

  lemma EmitKeeps(s: Sys, text: string)
    requires Inv(s) && Calm(s, Emit(text))
    ensures Inv(Do(s, Emit(text)))
  {
    hide Block, PipeInv, Base, Pipe, Clearing;
    var line := Line(|s.log| + 1, text);
    if !Clearing(s) { BlockOfLonger(s.log, line, s.store.revision - |s.store.lines|, s.store.revision); }
    EmitKeepsPipe(s, text);
    if s.calls != [] && !s.calls[0].Asked? {
      assert s.calls[0] in s.calls;
      var r := s.calls[0].response;
      BlockOfLonger(s.log, line, From(r), r.revision);
    }
  }

  lemma ClearKeeps(s: Sys)
    requires Inv(s)
    ensures Inv(Do(s, EngineClear))
  {
    hide Block, Queued, Lines, Tail, Held, Streaming;
    assert Pipe(s) + [] == Pipe(s) && Pipe(s) + [ClearedFrame] + [] == Pipe(s) + [ClearedFrame];
    QueuedAround(Pipe(s), ClearedFrame, [], s.log, Base(s));
    LinesConcat(Pipe(s), [ClearedFrame]);
    LinesOfOne(ClearedFrame);
    TailSnoc(Pipe(s), ClearedFrame);
    SameStream(s, Do(s, EngineClear));
    assert Pipe(Do(s, EngineClear)) == Pipe(s) + [ClearedFrame];
  }

  /** A step that moves frames along changes nothing else. */
  lemma MoveKeeps(s: Sys, t: Sys)
    requires Inv(s) && ConnInv(t) && Pipe(t) == Pipe(s) && t.calls == s.calls && t.store == s.store
    requires t.log == s.log && t.cleared == s.cleared
    requires t.conn.Up? && t.conn.greeting.Given? ==> s.conn.Up? && s.conn.greeting.Given?
    ensures Inv(t)
  {
    hide Block, Queued, Lines, Tail, Pipe, HasClear, Good;
  }

  /** A stream that ends, or frames that find none, lose lines but no clear. */
  lemma LossKeeps(s: Sys, t: Sys, lost: seq<Frame>)
    requires Inv(s) && Pipe(s) == lost + t.made && !HasClear(lost)
    requires t == s.(made := t.made, aimed := [], conn := Down)
    ensures Inv(t)
  {
    hide Block, Queued, Lines, Tail, HasClear, Good;
    assert Pipe(t) == t.made;
    DropFront(lost, t.made, s.log, Base(s));
    QueuedCount(t.made, s.log, Base(s) + Lines(lost));
    HasClearConcat(lost, t.made);
  }

  lemma OtherEnters(s: Sys)
    requires s.conn.Up? && |s.conn.queue| < MAX_QUEUE
    ensures Do(s, Other) == s.(conn := s.conn.(queue := s.conn.queue + [OtherFrame]))
    ensures Pipe(s) == (s.conn.wire + s.conn.queue) + (s.aimed + s.made)
    ensures Pipe(Do(s, Other)) == (s.conn.wire + s.conn.queue) + [OtherFrame] + (s.aimed + s.made)
  {
  }

  lemma OtherKeeps(s: Sys)
    requires Inv(s) && Calm(s, Other) && s.conn.Up?
    ensures Inv(Do(s, Other))
  {
    hide Block, Queued, Lines, Tail, HasClear, Good, Do, Push, Pipe;
    var a, b := s.conn.wire + s.conn.queue, s.aimed + s.made;
    OtherEnters(s);
    QueuedAround(a, OtherFrame, b, s.log, Base(s));
    TailAround(a, b);
  }

  lemma PipeIs(s: Sys)
    requires s.conn.Up?
    ensures Pipe(s) == s.conn.wire + (s.conn.queue + s.aimed + s.made)
  {
  }

  lemma RestOfConcat(a: seq<Frame>, b: seq<Frame>)
    requires a != []
    ensures a + b != [] && (a + b)[0] == a[0] && (a + b)[1..] == a[1..] + b
  {
  }

  /** The first frame that arrives is the first one on its way. */
  lemma FirstFrame(s: Sys)
    requires s.conn.Up? && s.conn.greeting.Given? && s.conn.wire != []
    ensures Pipe(s) != [] && Pipe(s)[0] == s.conn.wire[0] && Pipe(Do(s, DeliverFrame)) == Pipe(s)[1..]
  {
    hide Received, Pipe;
    var w, rest, t := s.conn.wire, s.conn.queue + s.aimed + s.made, Do(s, DeliverFrame);
    PipeIs(s);
    PipeIs(t);
    assert t.conn.wire == w[1..] && t.conn.queue + t.aimed + t.made == rest;
    RestOfConcat(w, rest);
  }

  lemma LineKeeps(s: Sys)
    requires Inv(s) && Calm(s, DeliverFrame)
    requires s.conn.Up? && s.conn.greeting.Given? && s.conn.wire != [] && s.conn.wire[0].LineFrame?
    ensures Inv(Do(s, DeliverFrame))
  {
    hide Block, Tail, LastN, Pipe;
    var q, base := Pipe(s), Base(s);
    FirstFrame(s);
    TailOfRest(q);
    QueuedCount(q, s.log, base);
    assert HasClear(q) ==> HasClear(q[1..]);
    if !HasClear(q) {
      LineKeepsGoodIff(s.store, s.log, base);
      assert Tail(q) == Lines(q) by { TailIsLines(q); }
    }
  }

  /** The last clear empties the pane; a replay under way fits an empty pane, and
      reaches past the clear because everything before it was delivered. */
  lemma ClearedKeeps(s: Sys)
    requires Inv(s) && s.conn.Up? && s.conn.greeting.Given? && s.conn.wire != [] && s.conn.wire[0].ClearedFrame?
    ensures Inv(Do(s, DeliverFrame))
  {
    hide Block, Tail, LastN, Pipe;
    var q, base := Pipe(s), Base(s);
    FirstFrame(s);
    TailOfRest(q);
    QueuedCount(q, s.log, base);
    if !HasClear(q[1..]) {
      TailIsLines(q[1..]);
      assert base >= s.cleared;
    }
  }

  lemma OtherArrives(s: Sys)
    requires Inv(s) && s.conn.Up? && s.conn.greeting.Given? && s.conn.wire != [] && s.conn.wire[0].OtherFrame?
    ensures Inv(Do(s, DeliverFrame))
  {
    hide Block, Tail, LastN, Pipe, Good;
    FirstFrame(s);
    TailOfRest(Pipe(s));
    assert HasClear(Pipe(s)) == HasClear(Pipe(s)[1..]);
  }

  lemma ReadLinesKeeps(s: Sys)
    requires Inv(s) && s.calls != [] && s.calls[0].Asked?
    ensures Inv(Do(s, ReadLines(0)))
  {
    hide Block, Queued, Lines, Tail, Streaming;
    var t, since := Do(s, ReadLines(0)), s.calls[0].since;
    var r := Response(Retained(s, since), |s.log|);
    assert From(r) == if since > Lost(s) then since else Lost(s);
    assert t == s.(calls := [LinesRead(r.lines)]) && Answer(t, t.calls[0]) == r;
    SameStream(s, t);
  }

  lemma ReadNumberKeeps(s: Sys)
    requires Inv(s) && s.calls != [] && s.calls[0].LinesRead?
    ensures Inv(Do(s, ReadNumber(0)))
  {
    hide Block, Queued, Lines, Tail, Streaming, Good;
    var t := Do(s, ReadNumber(0));
    assert Answer(t, t.calls[0]) == Answer(s, s.calls[0]);
    SameStream(s, t);
  }

  lemma ResolveKeeps(s: Sys)
    requires Inv(s) && s.calls != [] && s.calls[0].Answered?
    ensures Inv(Do(s, Resolve(0)))
  {
    hide Block, Queued, Lines, Tail, LastN, Newer, Streaming;
    var r := s.calls[0].response;
    SameStream(s, Do(s, Resolve(0)));
    if r.lines != [] && !Clearing(s) { MergeKeepsGoodIff(s.store, r, s.log, From(r), r.revision); }
  }

  lemma QueueMoves(s: Sys)
    requires s.aimed != [] && s.conn.Up? && |s.conn.queue| < MAX_QUEUE
    ensures Do(s, Queue(0)) == s.(aimed := s.aimed[1..], conn := s.conn.(queue := s.conn.queue + [s.aimed[0]]))
    ensures Pipe(Do(s, Queue(0))) == Pipe(s)
  {
    assert s.aimed == [s.aimed[0]] + s.aimed[1..];
  }

  lemma QueueKeeps(s: Sys)
    requires Inv(s) && Calm(s, Queue(0)) && s.aimed != []
    ensures Inv(Do(s, Queue(0)))
  {
    hide PipeInv, Held, CallInv, Pipe, Do, Push, Numbered;
    QueueMoves(s);
    MoveKeeps(s, Do(s, Queue(0)));
  }

  /** A frame finds the stream, or nobody. */
  lemma AimMoves(s: Sys)
    requires s.made != []
    ensures Do(s, Aim(0)) == s.(made := s.made[1..], aimed := if s.conn.Up? then s.aimed + [s.made[0]] else s.aimed)
    ensures s.conn.Up? ==> Pipe(Do(s, Aim(0))) == Pipe(s)
    ensures s.conn.Down? ==> Pipe(s) == [s.made[0]] + s.made[1..]
  {
    assert s.made == [s.made[0]] + s.made[1..];
  }

  lemma AimKeeps(s: Sys)
    requires Inv(s) && Calm(s, Aim(0)) && s.made != []
    ensures Inv(Do(s, Aim(0)))
  {
    hide PipeInv, Held, CallInv, Pipe, Do, Numbered;
    AimMoves(s);
    if s.conn.Up? { MoveKeeps(s, Do(s, Aim(0))); } else { LossKeeps(s, Do(s, Aim(0)), [s.made[0]]); }
  }

  lemma SendKeeps(s: Sys)
    requires Inv(s)
    ensures Inv(Do(s, Send))
  {
    hide PipeInv, Held, CallInv;
    assert Pipe(Do(s, Send)) == Pipe(s);
    MoveKeeps(s, Do(s, Send));
  }

  lemma HelloKeeps(s: Sys)
    requires Inv(s) && Calm(s, DeliverHello)
    ensures Inv(Do(s, DeliverHello))
  {
    hide Block, Queued, Lines, Tail, HasClear;
    var t := Do(s, DeliverHello);
    if t != s {
      assert t.conn.wire == s.conn.wire && t.conn.queue == s.conn.queue && t.aimed == s.aimed;
      assert Streaming(t) == Streaming(s);
    }
    assert Pipe(t) == Pipe(s);
  }

  lemma SubscribeKeeps(s: Sys)
    requires Inv(s)
    ensures Inv(Do(s, Subscribe))
  {
    hide PipeInv, Held, CallInv;
    if s.conn.Down? {
      assert Pipe(Do(s, Subscribe)) == Pipe(s);
      MoveKeeps(s, Do(s, Subscribe));
    }
  }

  lemma DeliverKeeps(s: Sys)
    requires Inv(s) && Calm(s, DeliverFrame)
    ensures Inv(Do(s, DeliverFrame))
  {
    hide Inv, Received;
    if s.conn.Up? && s.conn.greeting.Given? && s.conn.wire != [] {
      match s.conn.wire[0]
      case LineFrame(_) => LineKeeps(s);
      case ClearedFrame => ClearedKeeps(s);
      case OtherFrame => OtherArrives(s);
    }
  }

  lemma StepKeeps(s: Sys, op: Op)
    requires Inv(s) && Calm(s, op)
    ensures Inv(Do(s, op))
  {
    hide Block, Queued, Lines, Tail, LastN, Newer;
    match op
    case Emit(text) => EmitKeeps(s, text);
    case EngineClear => ClearKeeps(s);
    case Aim(i) => if i < |s.made| { AimKeeps(s); }
    case Queue(i) => if i < |s.aimed| { QueueKeeps(s); }
    case Other => if s.conn.Up? { OtherKeeps(s); }
    case Send => SendKeeps(s);
    case Subscribe => SubscribeKeeps(s);
    case DeliverHello => HelloKeeps(s);
    case DeliverFrame => DeliverKeeps(s);
    case Disconnect => LossKeeps(s, Do(s, op), Streaming(s));
    case ReadLines(i) => if i == 0 && s.calls != [] && s.calls[0].Asked? { ReadLinesKeeps(s); }
    case ReadNumber(i) => if i == 0 && s.calls != [] && s.calls[0].LinesRead? { ReadNumberKeeps(s); }
    case Resolve(i) => if i == 0 && s.calls != [] && s.calls[0].Answered? { ResolveKeeps(s); }
    case _ =>
  }

  lemma {:induction false} RunKeeps(s: Sys, ops: seq<Op>)
    requires Inv(s) && CalmRun(s, ops)
    ensures Inv(Run(s, ops))
    decreases |ops|
  {
    hide Inv, Do, Calm;
    if ops != [] {
      StepKeeps(s, ops[0]);
      RunKeeps(Do(s, ops[0]), ops[1..]);
    }
  }

  lemma InvAtStart()
    ensures Inv(INITIAL)
  {
  }

  /** The stream is up and nothing is under way. */
  predicate Idle(s: Sys) {
    s.made == [] && s.aimed == [] && s.conn == Up(Given, [], []) && s.calls == []
  }

  lemma InvMeans(s: Sys)
    requires Inv(s)
    ensures !Clearing(s) ==> Good(s.store, s.log)
    ensures Idle(s) && s.store.lines != [] ==> s.store.revision == |s.log|
  {
    hide Block, Queued, Tail;
  }

  /** Main result: in every calm run, unless a clear is on its way that will empty
      it, the pane holds a gap-free, duplicate-free block of at most 4096 engine
      lines ending at its revision; and when nothing is under way, a pane that
      holds anything holds the newest line. */
  lemma PaneIsGood(ops: seq<Op>)
    requires CalmRun(INITIAL, ops)
    ensures var s := Run(INITIAL, ops);
            && (!Clearing(s) ==> Good(s.store, s.log))
            && (Idle(s) && s.store.lines != [] ==> s.store.revision == |s.log|)
  {
    hide Inv, Good, Run, CalmRun, HasClear;
    InvAtStart();
    RunKeeps(INITIAL, ops);
    InvMeans(Run(INITIAL, ops));
  }

  // ----- catching up

  function PushAll(conn: Conn, fs: seq<Frame>): Conn {
    if fs == [] then conn else Push(PushAll(conn, fs[..|fs| - 1]), fs[|fs| - 1])
  }

  /** The backlog of a subscriber is the newest 512 frames. */
  lemma {:induction false} BacklogIsNewest(conn: Conn, fs: seq<Frame>)
    requires conn.Up? && |conn.queue| <= 512
    ensures PushAll(conn, fs) == conn.(queue := LastN(conn.queue + fs, 512))
  {
    if fs == [] {
      assert conn.queue + fs == conn.queue;
    } else {
      var front, last := fs[..|fs| - 1], fs[|fs| - 1];
      BacklogIsNewest(conn, front);
      assert conn.queue + fs == (conn.queue + front) + [last];
    }
  }

  /** Main result: a pane that starts, or starts again, empty gets everything that
      the engine retains, which is at most its newest 4096 lines since the last
      clear. */
  lemma FreshPaneCatchesUp(s: Sys)
    requires Numbered(s.log) && s.cleared <= |s.log|
    requires s.conn.Down? && s.calls == [] && s.store == EMPTY
    ensures var t, n := Replay(Reconnect(s)), |s.log|;
            var from := if n > s.cleared + 4096 then n - 4096 else s.cleared;
            && t.store.lines == Block(s.log, from, n)
            && t.store.revision == (if from < n then n else 0) && t.calls == []
  {
    hide Do, Replay, Block, Newer, LastN;
    var n := |s.log|;
    var since := if n > 4096 then n - 4096 else 0;
    FreshAsks(s);
    ReplayMerges(Reconnect(s), since);
    var from := if n > s.cleared + 4096 then n - 4096 else s.cleared;
    NewerIs(s.log, from, n, 0);
    LastOfBlock(s.log, from, n, MAX_LINES);
    assert [] + Block(s.log, from, n) == Block(s.log, from, n);
    NoBlock(s.log);
  }

  lemma NoBlock(log: seq<Line>)
    ensures Block(log, |log|, |log|) == [] && forall a | 0 <= a < |log| :: Block(log, a, |log|) != []
  {
  }

  lemma FreshAsks(s: Sys)
    requires s.conn.Down? && s.calls == [] && s.store == EMPTY
    ensures Reconnect(s) == s.(conn := Up(Given, [], []),
                               calls := [Asked(if |s.log| > 4096 then |s.log| - 4096 else 0)])
  {
    var c := Asked(if |s.log| > 4096 then |s.log| - 4096 else 0);
    assert [] + [c] == [c];
  }

  /** An engine that was started again counts its lines from 1. The pane notices as
      long as there are fewer of them than it has seen, and gets everything that is
      retained. */
  lemma RestartNoticed(s: Sys)
    requires Numbered(s.log) && s.cleared <= |s.log|
    requires s.conn.Down? && s.calls == [] && |s.log| < s.store.revision
    ensures var t, n := Replay(Reconnect(s)), |s.log|;
            var from := if n > s.cleared + 4096 then n - 4096 else s.cleared;
            && t.store.lines == Block(s.log, from, n) && t.store.revision == if from < n then n else 0
  {
    hide Replay, Block, Newer, LastN, Merge, Retained;
    var anew := s.(store := EMPTY);
    assert Reconnect(s) == Reconnect(anew);
    FreshPaneCatchesUp(anew);
  }

  /** Otherwise it goes on behind the lines of the engine before: unless its last
      one happens to be that of the new engine too, the pane mixes both. */
  lemma RestartUnnoticed(s: Sys)
    requires Numbered(s.log) && s.conn.Down? && s.calls == [] && s.store.lines != []
    requires var n, r := |s.log|, s.store.revision;
             0 < r <= n < r + 4096 && s.cleared <= r && s.store.lines[|s.store.lines| - 1] != s.log[r - 1]
    ensures var t := Replay(Reconnect(s)); !Good(t.store, t.log)
  {
    hide Do, Replay, Block, Newer, LastN, Good, Reconnect;
    var n, r, old_ := |s.log|, s.store.revision, s.store.lines;
    ReconnectAsks(s);
    ReplayMerges(Reconnect(s), r);
    NewerIs(s.log, r, n, r);
    if n == r {
      assert Retained(s, r) == [] by { NoBlock(s.log); }
      ForeignEnd(s.store, s.log, r);
    } else {
      MixedIsBad(old_, s.log, r, n);
    }
  }

  lemma ForeignEnd(s: Store, log: seq<Line>, r: nat)
    requires Numbered(log) && s.lines != [] && s.revision == r && 0 < r <= |log|
    requires s.lines[|s.lines| - 1] != log[r - 1]
    ensures !Good(s, log)
  {
  }

  /** Lines of the new engine behind a foreign one. */
  lemma MixedIsBad(old_: seq<Line>, log: seq<Line>, r: nat, n: nat)
    requires 0 < r < n <= |log| && n - r < MAX_LINES && old_ != [] && old_[|old_| - 1] != log[r - 1]
    ensures !Good(Store(LastN(old_ + Block(log, r, n), MAX_LINES), n), log)
  {
    var merged := LastN(old_ + Block(log, r, n), MAX_LINES);
    var k := |merged| - (n - r) - 1;
    assert k >= 0 && merged[k] == old_[|old_| - 1];
    GoodAt(Store(merged, n), log, k);
  }

  lemma GoodAt(s: Store, log: seq<Line>, k: nat)
    requires k < |s.lines|
    ensures Good(s, log) ==> s.revision - |s.lines| >= 0 && s.lines[k] == log[s.revision - |s.lines| + k]
  {
  }

  // ----- what goes wrong outside calm runs

  /** Nothing is under way and the pane holds the engine's newest line. */
  ghost predicate Settled(s: Sys) {
    Inv(s) && Idle(s) && s.store.lines != []
  }

  /** The oldest frame goes all the way to the wire, or is lost. */
  function HandOver(s: Sys): Sys {
    Do(Do(Do(s, Aim(0)), Queue(0)), Send)
  }

  /** A line is printed, a clear happens, while nothing else does. */
  function Say(s: Sys, text: string): Sys {
    HandOver(Do(s, Emit(text)))
  }

  function Wipe(s: Sys): Sys {
    HandOver(Do(s, EngineClear))
  }

  /** Reconnecting, up to the replay request. */
  function Reconnect(s: Sys): Sys {
    Do(Do(Do(s, Subscribe), ReadRevision), DeliverHello)
  }

  function Replay(s: Sys): Sys {
    Do(Do(Do(s, ReadLines(0)), ReadNumber(0)), Resolve(0))
  }

  /** With the stream down the line is only logged. */
  lemma SayDown(s: Sys, text: string)
    requires s.conn.Down? && s.made == [] && s.aimed == []
    ensures Say(s, text) == s.(log := s.log + [Line(|s.log| + 1, text)])
    ensures Wipe(s) == s.(cleared := |s.log|)
  {
    hide Push;
  }

  lemma SendLast(s: Sys, f: Frame, queue: seq<Frame>)
    requires s.aimed == [f] && s.conn == Up(Given, queue, []) && |queue| < MAX_QUEUE
    ensures Do(Do(s, Queue(0)), Send) == s.(aimed := [], conn := Up(Given, [], queue + [f]))
  {
    assert [] + (queue + [f]) == queue + [f];
  }

  lemma HandOverOne(s: Sys, f: Frame)
    requires s.made == [f] && s.aimed == [] && s.conn == Up(Given, [], [])
    ensures HandOver(s) == s.(made := [], conn := Up(Given, [], [f]))
  {
    assert [] + [f] == [f];
    SendLast(Do(s, Aim(0)), f, []);
  }

  /** A pane that holds something asks for what follows its last line. */
  lemma ReconnectAsks(s: Sys)
    requires s.conn.Down? && s.calls == [] && 0 < s.store.revision <= |s.log|
    ensures Reconnect(s) == s.(conn := Up(Given, [], []), calls := [Asked(s.store.revision)])
  {
    assert [] + [Asked(s.store.revision)] == [Asked(s.store.revision)];
  }

  /** The replay merges the retained lines. */
  lemma ReplayMerges(s: Sys, since: nat)
    requires s.calls == [Asked(since)]
    ensures Replay(s) == s.(calls := [], store := Merge(s.store, Response(Retained(s, since), |s.log|)))
  {
    hide Retained, Merge;
    var t := Do(s, ReadLines(0));
    assert t == s.(calls := [LinesRead(Retained(s, since))]);
    assert Do(t, ReadNumber(0)) == s.(calls := [Answered(Response(Retained(s, since), |s.log|))]);
  }

  /** A pane that held a good block still does once more lines exist. */
  lemma Extends(s: Sys, t: Sys, more: seq<Line>)
    requires Good(s.store, s.log) && t.store == s.store && t.log == s.log + more
    ensures Good(t.store, t.log)
  {
  }

  /** The pane of a settled state, once the stream is down and lines are missed. */
  lemma SettledDown(s: Sys)
    requires Settled(s)
    ensures Good(s.store, s.log) && Numbered(s.log) && s.store.revision == |s.log| > 0 && s.cleared <= |s.log|
    ensures Do(s, Disconnect) == s.(conn := Down)
  {
    hide Block, Queued, Tail;
    InvMeans(s);
  }

  /** A clear that happens while the stream is down always leaves a gap, once
      one line before and one after it were missed too. */
  lemma MissedClearLeavesGap(s: Sys, before: string, after: string)
    requires Settled(s)
    ensures var away := Say(Wipe(Say(Do(s, Disconnect), before)), after);
            var back := Replay(Reconnect(away));
            !Good(back.store, back.log)
  {
    hide Inv, Good, Block, Newer, LastN, Do, Say, Wipe, Reconnect, Replay;
    var n := |s.log|;
    SettledDown(s);
    var down := Do(s, Disconnect);
    SayDown(down, before);
    var s1 := Say(down, before);
    SayDown(s1, before);
    SayDown(Wipe(s1), after);
    var away := Say(Wipe(s1), after);
    Extends(s, away, [Line(n + 1, before), Line(n + 2, after)]);
    ReconnectAsks(away);
    var asked := Reconnect(away);
    ReplayMerges(asked, n);
    MergeGap(away.store, Response(Retained(asked, n), n + 2), away.log, n + 1);
  }

  /** One line is missed, and the pane reconnects and asks. */
  function AfterMiss(s: Sys, missed: string): Sys {
    Reconnect(Say(Do(s, Disconnect), missed))
  }

  lemma MissAsks(s: Sys, missed: string)
    requires Settled(s)
    ensures var n := |s.log|;
            var t := AfterMiss(s, missed);
            && t == s.(log := s.log + [Line(n + 1, missed)], calls := [Asked(n)])
            && Good(t.store, t.log) && Numbered(t.log) && t.store.revision == n > 0 && s.cleared <= n
  {
    hide Good, Inv, Do, Say, Reconnect;
    SettledDown(s);
    SayDown(Do(s, Disconnect), missed);
    var away := Say(Do(s, Disconnect), missed);
    ReconnectAsks(away);
    Extends(s, away, [Line(|s.log| + 1, missed)]);
  }

  /** One more line is handed over behind the request. */
  lemma SayBehindRequest(s: Sys, missed: string, next: string)
    requires Settled(s)
    ensures var n := |s.log|;
            var line := Line(n + 2, next);
            var live := Say(AfterMiss(s, missed), next);
            && live == Sys(s.log + [Line(n + 1, missed), line], s.cleared, [], [],
                           Up(Given, [], [LineFrame(line)]), s.store, [Asked(n)])
            && Good(live.store, live.log) && Numbered(live.log) && live.store.revision == n > 0 && s.cleared <= n
            && !Good(OnLine(live.store, line), live.log)
  {
    hide Good, Inv, OnLine, AfterMiss, HandOver, Block, LastN;
    var n := |s.log|;
    var more := [Line(n + 1, missed), Line(n + 2, next)];
    MissAsks(s, missed);
    var t := AfterMiss(s, missed);
    HandOverOne(Do(t, Emit(next)), LineFrame(more[1]));
    var live := Say(t, next);
    assert live.log == s.log + more;
    Extends(t, live, [more[1]]);
    assert live.log[n + 1] == more[1];
    LineKeepsGoodIff(live.store, live.log, n + 1);
    NotEmpty(live.store, live.log);
  }

  lemma NotEmpty(s: Store, log: seq<Line>)
    requires Good(s, log) && s.revision > 0
    ensures s.lines != []
  {
  }

  /** When the replay fails while the stream stays up, the next live line leaves
      a gap. */
  lemma FailedReplayLeavesGap(s: Sys, missed: string, next: string)
    requires Settled(s)
    ensures var later := Do(Do(Say(AfterMiss(s, missed), next), Fail(0)), DeliverFrame);
            !Good(later.store, later.log)
  {
    hide Good, Inv, AfterMiss, Say, OnLine;
    SayBehindRequest(s, missed, next);
  }

  /** A live line that lands between the request and its response loses the
      missed line for good: the response no longer counts as newer. */
  lemma LineDuringReplayLosesLines(s: Sys, missed: string, next: string)
    requires Settled(s)
    ensures var later := Replay(Do(Say(AfterMiss(s, missed), next), DeliverFrame));
            Idle(later) && !Good(later.store, later.log) && later.store.revision == |later.log|
  {
    hide Good, Inv, AfterMiss, Say, Replay, LastN, Merge, Newer, Block;
    SayBehindRequest(s, missed, next);
    var n := |s.log|;
    var live := Say(AfterMiss(s, missed), next);
    var landed := Do(live, DeliverFrame);
    assert landed.store == OnLine(live.store, Line(n + 2, next)) && landed.calls == [Asked(n)];
    ReplayMerges(landed, n);
    var from := if n > Lost(landed) then n else Lost(landed);
    MergeOld(landed.store, Response(Retained(landed, n), n + 2), live.log, from);
  }

  /** A response that ends where the pane already is changes nothing, even if
      the pane has a gap. */
  lemma MergeOld(s: Store, r: Response, log: seq<Line>, from: nat)
    requires Numbered(log) && IsAnswer(r, log, from, r.revision) && |s.lines| <= MAX_LINES && s.revision == r.revision
    ensures Merge(s, r) == s
  {
    hide Block, Newer;
    NewerIs(log, from, r.revision, s.revision);
    if from == r.revision { NewerNothing(s.revision); }
    assert s.lines + [] == s.lines;
  }

  /** The replay's lines are read, a line is numbered, the replay's number is
      read, and the response lands. */
  function TornReplay(s: Sys, next: string): Sys {
    Do(Do(Do(Do(s, ReadLines(0)), Emit(next)), ReadNumber(0)), Resolve(0))
  }

  lemma TornReplayIs(s: Sys, since: nat, next: string)
    requires s.calls == [Asked(since)] && s.made == []
    ensures var line := Line(|s.log| + 1, next);
            TornReplay(s, next) == s.(log := s.log + [line], made := [LineFrame(line)], calls := [],
                                      store := Merge(s.store, Response(Retained(s, since), |s.log| + 1)))
  {
    hide Retained, Merge;
    var line := Line(|s.log| + 1, next);
    var t := Do(s, ReadLines(0));
    assert t == s.(calls := [LinesRead(Retained(s, since))]);
    var u := Do(t, Emit(next));
    assert [] + [LineFrame(line)] == [LineFrame(line)];
    assert u == t.(log := s.log + [line], made := [LineFrame(line)]);
    assert Do(u, ReadNumber(0)) == u.(calls := [Answered(Response(Retained(s, since), |s.log| + 1))]);
  }

  /** A line numbered between the two reads of a replay is lost for good: the
      response claims it, so that it is dropped when it arrives. */
  lemma TornReplayLosesLine(s: Sys, missed: string, next: string)
    requires Settled(s)
    ensures var torn := TornReplay(AfterMiss(s, missed), next);
            var later := Do(HandOver(torn), DeliverFrame);
            && later.store == torn.store && Idle(later)
            && !Good(later.store, later.log) && later.store.revision == |later.log|
  {
    hide Good, Inv, AfterMiss, TornReplay, HandOver, LastN, Newer, Block;
    var n := |s.log|;
    var line := Line(n + 2, next);
    MissAsks(s, missed);
    var asked := AfterMiss(s, missed);
    TornReplayIs(asked, n, next);
    var torn := TornReplay(asked, next);
    HandOverOne(torn, LineFrame(line));
    Extends(asked, asked.(log := torn.log), [line]);
    var r := Response(Retained(asked, n), n + 2);
    var from := if n > Lost(asked) then n else Lost(asked);
    BlockOfLonger(asked.log, line, from, n + 1);
    TornIsBad(asked.store, r, torn.log, from, n + 1);
  }

  /** Two lines are numbered, and the second is queued before the first. */
  function Swapped(s: Sys, first: string, second: string): Sys {
    QueueSwapped(Do(Do(Do(Do(s, Emit(first)), Emit(second)), Aim(0)), Aim(0)))
  }

  function QueueSwapped(s: Sys): Sys {
    Do(Do(Do(s, Queue(1)), Queue(0)), Send)
  }

  lemma QueueSwappedIs(s: Sys, a: Frame, b: Frame)
    requires s.aimed == [a, b] && s.conn == Up(Given, [], [])
    ensures QueueSwapped(s) == s.(aimed := [], conn := Up(Given, [], [b, a]))
  {
    assert Without([a, b], 1) == [a] && [] + [b] == [b];
    var one := s.(aimed := [a], conn := Up(Given, [b], []));
    assert Do(s, Queue(1)) == one;
    SendLast(one, a, [b]);
    assert [b] + [a] == [b, a];
  }

  lemma SwappedIs(s: Sys, first: string, second: string)
    requires Idle(s)
    ensures var a, b := Line(|s.log| + 1, first), Line(|s.log| + 2, second);
            Swapped(s, first, second) == s.(log := s.log + [a, b], conn := Up(Given, [], [LineFrame(b), LineFrame(a)]))
  {
    hide QueueSwapped, Push;
    var a, b := LineFrame(Line(|s.log| + 1, first)), LineFrame(Line(|s.log| + 2, second));
    var both := Do(Do(s, Emit(first)), Emit(second));
    assert [] + [a] == [a] && [a] + [b] == [a, b];
    assert both == s.(log := s.log + [a.line, b.line], made := [a, b]);
    assert Without([a, b], 0) == [b] && Without([b], 0) == [];
    var aimed := Do(Do(both, Aim(0)), Aim(0));
    assert aimed == both.(made := [], aimed := [a, b]);
    QueueSwappedIs(aimed, a, b);
  }

  /** Two lines queued in the wrong order lose the first one for good. */
  lemma SwappedLinesLoseOne(s: Sys, first: string, second: string)
    requires Settled(s)
    ensures var later := Do(Do(Swapped(s, first, second), DeliverFrame), DeliverFrame);
            Idle(later) && !Good(later.store, later.log) && later.store.revision == |later.log|
  {
    hide Good, Inv, Swapped, Block, LastN;
    var n := |s.log|;
    var a, b := Line(n + 1, first), Line(n + 2, second);
    SettledDown(s);
    SwappedIs(s, first, second);
    var t := Swapped(s, first, second);
    Extends(s, t, [a, b]);
    assert t.log[n + 1] == b;
    LineKeepsGoodIff(s.store, t.log, n + 1);
    var once := Do(t, DeliverFrame);
    assert once.store == OnLine(s.store, b) && once.conn.wire == [LineFrame(a)];
    assert Do(once, DeliverFrame).conn == Up(Given, [], []);
  }
}
