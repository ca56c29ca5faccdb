/** The command palette's fuzzy matcher, its ranking and its highlighting. */
module Palette {
  import opened Words

  // ----- characters

  function Lower(c: char): char {
    if 'A' <= c <= 'Z' then (c as int + 32) as char else c
  }

  predicate IsSep(c: char) {
    c in {' ', '_', '-', '/', ':', '.'}
  }

  predicate IsUpper(c: char) {
    'A' <= c <= 'Z'
  }

  predicate IsLower(c: char) {
    'a' <= c <= 'z'
  }

  predicate SameLetter(a: char, b: char) {
    Lower(a) == Lower(b)
  }

  // ----- the greedy matcher

  /** The matcher after some characters: how much of the pattern is matched,
      the score so far, and where. */
  datatype Greedy = Greedy(matched: nat, score: int, last: int, positions: seq<nat>)

  datatype Match = Match(score: int, positions: seq<nat>)

  /** Bonus for matching the character at `si`. */
  function Bonus(str: string, si: nat): int
    requires si < |str|
  {
    if si == 0 then 17
    else
      2 + (if IsSep(str[si - 1]) then 12 else 0)
        + (if IsLower(str[si - 1]) && IsUpper(str[si]) then 9 else 0)
  }

  /** One character further: it is taken if it is the next one wanted. */
  function Next(pat: string, str: string, n: nat, g: Greedy): Greedy
    requires n < |str| && g.matched <= |pat|
  {
    if g.matched == |pat| || !SameLetter(str[n], pat[g.matched]) then g
    else
      var adjacent := if n == g.last + 1 then 8 else if g.last >= 0 then -1 else 0;
      Greedy(g.matched + 1, g.score + Bonus(str, n) + adjacent, n, g.positions + [n])
  }

  /** The matcher after the first `n` characters of `str`. */
  function GreedyAt(pat: string, str: string, n: nat): (g: Greedy)
    requires n <= |str|
    ensures g.matched <= |pat| && |g.positions| == g.matched
  {
    if n == 0 then Greedy(0, 0, -2, []) else Next(pat, str, n - 1, GreedyAt(pat, str, n - 1))
  }

  /** Late first matches cost up to ten points, but only when positions are
      collected. */
  function FuzzyResult(pat: string, str: string, collect: bool): Option<Match> {
    if pat == "" then Some(Match(0, []))
    else
      var g := GreedyAt(pat, str, |str|);
      if g.matched != |pat| then None
      else if collect then
        Some(Match(g.score - (if g.positions[0] > 10 then 10 else g.positions[0]), g.positions))
      else
        Some(Match(g.score, []))
  }

  method FuzzyScore(pat: string, str: string, collect: bool) returns (r: Option<Match>)
    ensures r == FuzzyResult(pat, str, collect)
  {
    if pat == "" {
      return Some(Match(0, []));
    }
    var score, lastMatch, pi, positions := 0, -2, 0, [];
    var si := 0;
    while si < |str| && pi < |pat|
      invariant 0 <= si <= |str| && 0 <= pi <= |pat|
      invariant var g := GreedyAt(pat, str, si);
                && g.matched == pi && g.score == score && g.last == lastMatch
                && positions == if collect then g.positions else []
    {
      if SameLetter(str[si], pat[pi]) {
        var bonus := 2;
        if si == 0 {
          bonus := bonus + 15;
        } else {
          var prev := str[si - 1];
          if IsSep(prev) { bonus := bonus + 12; }
          if IsLower(prev) && IsUpper(str[si]) { bonus := bonus + 9; }
        }
        if si == lastMatch + 1 { bonus := bonus + 8; }
        else if lastMatch >= 0 { score := score - 1; }
        score := score + bonus;
        lastMatch := si;
        if collect { positions := positions + [si]; }
        pi := pi + 1;
      }
      si := si + 1;
    }
    if si < |str| { GreedyStays(pat, str, si, |str|); }
    if pi != |pat| {
      return None;
    }
    var lead := if positions != [] then positions[0] else 0;
    score := score - if lead > 10 then 10 else lead;
    return Some(Match(score, positions));
  }

  /** Once the pattern is used up nothing changes any more. */
  lemma {:induction false} GreedyStays(pat: string, str: string, n: nat, m: nat)
    requires n <= m <= |str| && GreedyAt(pat, str, n).matched == |pat|
    ensures GreedyAt(pat, str, m) == GreedyAt(pat, str, n)
    decreases m
  {
    if n < m {
      GreedyStays(pat, str, n, m - 1);
    }
  }

  // ----- complete and leftmost

  ghost predicate Increasing(q: seq<nat>) {
    forall i, j | 0 <= i < j < |q| :: q[i] < q[j]
  }

  /** `q` picks out the pattern, in order and ignoring case. */
  ghost predicate Embeds(pat: string, str: string, q: seq<nat>) {
    && |q| == |pat| && Increasing(q)
    && forall i | 0 <= i < |q| :: q[i] < |str| && SameLetter(str[q[i]], pat[i])
  }

  lemma {:induction false} GreedyEmbeds(pat: string, str: string, n: nat)
    requires n <= |str|
    ensures var g := GreedyAt(pat, str, n);
            && Increasing(g.positions)
            && (forall i | 0 <= i < g.matched :: g.positions[i] < n && SameLetter(str[g.positions[i]], pat[i]))
  {
    if n > 0 {
      GreedyEmbeds(pat, str, n - 1);
    }
  }

  /** Whatever any embedding has matched within the first `n` characters, the
      matcher has matched too, and no later. */
  lemma {:induction false} GreedyAhead(pat: string, str: string, n: nat, q: seq<nat>, i: nat)
    requires n <= |str| && Embeds(pat, str, q) && i < |pat| && q[i] < n
    ensures var g := GreedyAt(pat, str, n);
            i < g.matched && g.positions[i] <= q[i]
  {
    if q[i] < n - 1 {
      GreedyAhead(pat, str, n - 1, q, i);
    } else {
      if i > 0 { GreedyAhead(pat, str, n - 1, q, i - 1); }
      GreedyEmbeds(pat, str, n - 1);
    }
  }

  /** Main result: matching succeeds exactly when the pattern is a subsequence,
      ignoring case. */
  lemma FuzzyComplete(pat: string, str: string, collect: bool)
    ensures FuzzyResult(pat, str, collect).Some? <==> exists q :: Embeds(pat, str, q)
  {
    if pat == "" {
      assert Embeds(pat, str, []);
    } else {
      var g := GreedyAt(pat, str, |str|);
      if g.matched == |pat| {
        GreedyEmbeds(pat, str, |str|);
        assert Embeds(pat, str, g.positions);
      }
      if q :| Embeds(pat, str, q) {
        GreedyAhead(pat, str, |str|, q, |pat| - 1);
      }
    }
  }

  /** Main result: the positions embed the pattern, and no embedding has any
      character earlier. */
  lemma FuzzyLeftmost(pat: string, str: string)
    requires FuzzyResult(pat, str, true).Some?
    ensures var pos := FuzzyResult(pat, str, true).value.positions;
            && Embeds(pat, str, pos)
            && forall q, i | Embeds(pat, str, q) && 0 <= i < |pat| :: pos[i] <= q[i]
  {
    if pat != "" {
      GreedyEmbeds(pat, str, |str|);
      var pos := FuzzyResult(pat, str, true).value.positions;
      forall q, i | Embeds(pat, str, q) && 0 <= i < |pat|
        ensures pos[i] <= q[i]
      {
        GreedyAhead(pat, str, |str|, q, i);
      }
    }
  }

  // ----- the score

  const CAPITALS := "ABCDEFGHIJKLMNOPQRSTUVWXYZ"
  const SMALL := "abcdefghijklmnopqrstuvwxyz"

  /** Two characters are the same letter if they are equal, or the same letter of
      the alphabet in two cases. */
  lemma SameLetterIff(a: char, b: char)
    ensures SameLetter(a, b) <==>
            || a == b
            || exists k :: 0 <= k < 26 && ((CAPITALS[k] == a && SMALL[k] == b) || (SMALL[k] == a && CAPITALS[k] == b))
  {
    hide CAPITALS, SMALL;
    Alphabet();
    if a != b && SameLetter(a, b) {
      var k := if IsUpper(a) then a as int - 'A' as int else b as int - 'A' as int;
      assert IsUpper(a) || IsUpper(b);
      assert (CAPITALS[k] == a && SMALL[k] == b) || (SMALL[k] == a && CAPITALS[k] == b);
    }
  }

  lemma Alphabet()
    ensures |CAPITALS| == |SMALL| == 26
    ensures forall k | 0 <= k < 26 :: CAPITALS[k] as int == 'A' as int + k && SMALL[k] as int == 'a' as int + k
  {
  }

  /** What the match at position `p` earns: seventeen points at the start, two
      elsewhere; twelve more behind a separator, and nine where a capital follows a
      small letter. */
  function Earned(str: string, p: nat): int
    requires p < |str|
  {
    if p == 0 then 17
    else 2 + (if str[p - 1] in " _-/:." then 12 else 0)
           + (if str[p - 1] in SMALL && str[p] in CAPITALS then 9 else 0)
  }

  /** Eight points for standing right behind the match before, one less for a gap. */
  function Joined(q: seq<nat>, i: nat): int
    requires i < |q|
  {
    if i == 0 then 0 else if q[i] == q[i - 1] + 1 then 8 else -1
  }

  function Earnings(str: string, q: seq<nat>, n: nat): int
    requires n <= |q| && forall i | 0 <= i < |q| :: q[i] < |str|
  {
    if n == 0 then 0 else Earnings(str, q, n - 1) + Earned(str, q[n - 1]) + Joined(q, n - 1)
  }

  lemma LetterMeans(c: char)
    ensures IsLower(c) <==> c in SMALL
    ensures IsUpper(c) <==> c in CAPITALS
    ensures IsSep(c) <==> c in " _-/:."
  {
    hide CAPITALS, SMALL;
    Alphabet();
    if IsLower(c) { assert SMALL[c as int - 'a' as int] == c; }
    if IsUpper(c) { assert CAPITALS[c as int - 'A' as int] == c; }
    Separators(c);
  }

  lemma Separators(c: char)
    ensures IsSep(c) <==> c in " _-/:."
  {
    var seps := " _-/:.";
    assert seps[0] == ' ' && seps[1] == '_' && seps[2] == '-' && seps[3] == '/' && seps[4] == ':' && seps[5] == '.';
  }

  lemma BonusIsEarned(str: string, p: nat)
    requires p < |str|
    ensures Bonus(str, p) == Earned(str, p)
  {
    hide IsLower, IsUpper, IsSep;
    if p > 0 {
      LetterMeans(str[p - 1]);
      LetterMeans(str[p]);
    }
  }

  lemma {:induction false} EarningsOfFront(str: string, q: seq<nat>, p: nat, n: nat)
    requires n <= |q| && p < |str| && forall i | 0 <= i < |q| :: q[i] < |str|
    ensures Earnings(str, q + [p], n) == Earnings(str, q, n)
  {
    hide Earned;
    if n > 0 { EarningsOfFront(str, q, p, n - 1); }
  }

  lemma {:induction false} GreedyEarns(pat: string, str: string, n: nat)
    requires n <= |str|
    ensures var g := GreedyAt(pat, str, n);
            && (forall i | 0 <= i < |g.positions| :: g.positions[i] < n)
            && g.last == (if g.positions == [] then -2 else g.positions[|g.positions| - 1])
            && g.score == Earnings(str, g.positions, |g.positions|)
  {
    hide Bonus, Earned;
    if n > 0 {
      var before := GreedyAt(pat, str, n - 1);
      GreedyEarns(pat, str, n - 1);
      BonusIsEarned(str, n - 1);
      EarningsOfFront(str, before.positions, n - 1, |before.positions|);
    }
  }

  /** Main result: the score of a match is what its positions earn, less a point
      for each character before the first one, at most ten, if positions are asked
      for. */
  lemma FuzzyScoreIs(pat: string, str: string)
    requires pat != "" && FuzzyResult(pat, str, true).Some?
    ensures var q := FuzzyResult(pat, str, true).value.positions;
            && q != [] && (forall i | 0 <= i < |q| :: q[i] < |str|)
            && FuzzyResult(pat, str, false) == Some(Match(Earnings(str, q, |q|), []))
            && FuzzyResult(pat, str, true).value.score
               == Earnings(str, q, |q|) - if q[0] > 10 then 10 else q[0]
  {
    hide Earnings;
    GreedyEarns(pat, str, |str|);
  }

  // ----- score bounds

  lemma {:induction false} GreedyScore(pat: string, str: string, n: nat)
    requires n <= |str|
    ensures var g := GreedyAt(pat, str, n);
            && (g.matched == 0 ==> g.score == 0 && g.last == -2)
            && (g.matched > 0 ==> 0 <= g.last < n && g.matched + 1 <= g.score <= 22 * g.matched - 5)
  {
    if n > 0 {
      GreedyScore(pat, str, n - 1);
    }
  }

  /** A match that collects positions scores at least m - 9, one that does not
      at most 22m - 5, for a pattern of m characters. */
  lemma FuzzyBounds(pat: string, str: string)
    requires pat != ""
    ensures FuzzyResult(pat, str, true).Some? ==> FuzzyResult(pat, str, true).value.score >= |pat| - 9
    ensures FuzzyResult(pat, str, false).Some? ==> FuzzyResult(pat, str, false).value.score <= 22 * |pat| - 5
  {
    GreedyScore(pat, str, |str|);
  }

  // ----- the filtered list

  datatype Command = Command(title: string, group: string)

  /** A command that matched; only a match in the title has positions. */
  datatype Hit = Hit(cmd: nat, score: int, positions: seq<nat>)

  const GROUP_PENALTY: int := 100

  /** At most one hit for a command: by its title, failing that by its group. */
  function HitFor(pat: string, c: Command, i: nat): seq<Hit> {
    var byTitle := FuzzyResult(pat, c.title, true);
    if byTitle.Some? then [Hit(i, byTitle.value.score, byTitle.value.positions)]
    else
      var byGroup := FuzzyResult(pat, c.group, false);
      if byGroup.Some? then [Hit(i, byGroup.value.score - GROUP_PENALTY, [])] else []
  }

  /** Main result: a command is ranked by its title if that embeds the query, and
      otherwise by its group, a hundred points lower and without positions. */
  lemma HitScores(pat: string, c: Command, i: nat)
    requires pat != ""
    ensures (exists q :: Embeds(pat, c.title, q)) ==>
              FuzzyResult(pat, c.title, true).Some? &&
              var q := FuzzyResult(pat, c.title, true).value.positions;
              && q != [] && Embeds(pat, c.title, q)
              && HitFor(pat, c, i) == [Hit(i, Earnings(c.title, q, |q|) - (if q[0] > 10 then 10 else q[0]), q)]
    ensures !(exists q :: Embeds(pat, c.title, q)) && (exists q :: Embeds(pat, c.group, q)) ==>
              FuzzyResult(pat, c.group, true).Some? &&
              var q := FuzzyResult(pat, c.group, true).value.positions;
              && q != [] && Embeds(pat, c.group, q)
              && HitFor(pat, c, i) == [Hit(i, Earnings(c.group, q, |q|) - 100, [])]
    ensures HitFor(pat, c, i) == []
            <==> !(exists q :: Embeds(pat, c.title, q)) && !(exists q :: Embeds(pat, c.group, q))
  {
    hide FuzzyResult, Earnings, Embeds;
    FuzzyComplete(pat, c.title, true);
    FuzzyComplete(pat, c.group, true);
    FuzzyComplete(pat, c.group, false);
    if FuzzyResult(pat, c.title, true).Some? {
      FuzzyLeftmost(pat, c.title);
      FuzzyScoreIs(pat, c.title);
    }
    if FuzzyResult(pat, c.group, true).Some? {
      FuzzyLeftmost(pat, c.group);
      FuzzyScoreIs(pat, c.group);
    }
  }

  function Unranked(pat: string, commands: seq<Command>, n: nat): seq<Hit>
    requires n <= |commands|
  {
    if n == 0 then [] else Unranked(pat, commands, n - 1) + HitFor(pat, commands[n - 1], n - 1)
  }

  /** `a` belongs before `b`: a higher score, or an equal one and registered
      earlier. */
  predicate Before(a: Hit, b: Hit) {
    a.score > b.score || (a.score == b.score && a.cmd < b.cmd)
  }

  ghost predicate Ranked(hits: seq<Hit>) {
    forall i, j | 0 <= i < j < |hits| :: Before(hits[i], hits[j])
  }

  /** Registration order. */
  ghost predicate ByCommand(hits: seq<Hit>) {
    forall i, j | 0 <= i < j < |hits| :: hits[i].cmd < hits[j].cmd
  }

  class Palette {
    var commands: seq<Command>
    var filtered: seq<Hit>

    /** Rebuilds the list for a query: every matching command once, and for a
        non-empty query ranked by score, ties in registration order. */
    method BuildFiltered(pat: string)
      modifies this`filtered
      ensures pat == "" ==> filtered == Unranked(pat, commands, |commands|)
      ensures pat != "" ==> Ranked(filtered)
      ensures multiset(filtered) == multiset(Unranked(pat, commands, |commands|))
    {
      hide FuzzyResult, Before;
      var hits := [];
      for i := 0 to |commands|
        invariant hits == Unranked(pat, commands, i)
      {
        UnrankedNext(pat, commands, i);
        var byTitle := FuzzyScore(pat, commands[i].title, true);
        if byTitle.Some? {
          hits := hits + [Hit(i, byTitle.value.score, byTitle.value.positions)];
        } else {
          var byGroup := FuzzyScore(pat, commands[i].group, false);
          if byGroup.Some? {
            hits := hits + [Hit(i, byGroup.value.score - GROUP_PENALTY, [])];
          }
        }
      }
      UnrankedInOrder(pat, commands, |commands|);
      filtered := hits;
      if pat != "" {
        filtered := StableSort(hits);
      }
    }
  }

  lemma UnrankedNext(pat: string, commands: seq<Command>, i: nat)
    requires i < |commands|
    ensures Unranked(pat, commands, i + 1) == Unranked(pat, commands, i) + HitFor(pat, commands[i], i)
  {
    hide HitFor;
  }

  /** A stable descending sort by score: each hit goes behind those that score
      at least as much. */
  method StableSort(hits: seq<Hit>) returns (sorted: seq<Hit>)
    requires ByCommand(hits)
    ensures Ranked(sorted) && multiset(sorted) == multiset(hits)
  {
    hide Before;
    sorted := [];
    for i := 0 to |hits|
      invariant Ranked(sorted) && multiset(sorted) == multiset(hits[..i])
    {
      ghost var before := sorted;
      sorted := Insert(sorted, hits, i);
      assert hits[..i + 1] == hits[..i] + [hits[i]];
    }
    assert hits[..|hits|] == hits;
  }

  method Insert(sorted: seq<Hit>, hits: seq<Hit>, i: nat) returns (r: seq<Hit>)
    requires ByCommand(hits) && i < |hits|
    requires Ranked(sorted) && multiset(sorted) == multiset(hits[..i])
    ensures Ranked(r) && multiset(r) == multiset(sorted) + multiset{hits[i]}
  {
    hide Ranked, ByCommand;
    forall j | 0 <= j < |sorted|
      ensures sorted[j].cmd < hits[i].cmd
    {
      EarlierHit(sorted, hits, i, j);
    }
    var at := |sorted|;
    while at > 0 && sorted[at - 1].score < hits[i].score
      invariant 0 <= at <= |sorted|
      invariant forall j | at <= j < |sorted| :: sorted[j].score < hits[i].score
    {
      at := at - 1;
    }
    r := sorted[..at] + [hits[i]] + sorted[at..];
    InsertRanked(sorted, at, hits[i]);
    InsertedMultiset(sorted, at, hits[i]);
  }

  lemma EarlierHit(sorted: seq<Hit>, hits: seq<Hit>, i: nat, j: nat)
    requires ByCommand(hits) && i < |hits| && j < |sorted|
    requires multiset(sorted) == multiset(hits[..i])
    ensures sorted[j].cmd < hits[i].cmd
  {
    assert sorted[j] in multiset(sorted);
    assert sorted[j] in hits[..i];
    var k :| 0 <= k < i && hits[k] == sorted[j];
  }

  lemma InsertedMultiset(sorted: seq<Hit>, at: nat, h: Hit)
    requires at <= |sorted|
    ensures multiset(sorted[..at] + [h] + sorted[at..]) == multiset(sorted) + multiset{h}
  {
    assert sorted == sorted[..at] + sorted[at..];
  }

  lemma InsertRanked(sorted: seq<Hit>, at: nat, h: Hit)
    requires at <= |sorted| && Ranked(sorted)
    requires forall j | at <= j < |sorted| :: Before(h, sorted[j])
    requires at > 0 ==> Before(sorted[at - 1], h)
    ensures Ranked(sorted[..at] + [h] + sorted[at..])
  {
    forall j | 0 <= j < at
      ensures Before(sorted[j], h)
    {
      if j < at - 1 { assert Before(sorted[j], sorted[at - 1]); }
    }
  }

  lemma HitForOne(pat: string, c: Command, i: nat)
    ensures |HitFor(pat, c, i)| <= 1 && forall h | h in HitFor(pat, c, i) :: h.cmd == i
  {
    hide FuzzyResult;
  }

  lemma {:induction false} UnrankedInOrder(pat: string, commands: seq<Command>, n: nat)
    requires n <= |commands|
    ensures ByCommand(Unranked(pat, commands, n))
    ensures forall h | h in Unranked(pat, commands, n) :: h.cmd < n && h in HitFor(pat, commands[h.cmd], h.cmd)
  {
    hide HitFor;
    if n > 0 {
      UnrankedInOrder(pat, commands, n - 1);
      HitForOne(pat, commands[n - 1], n - 1);
      var before, last := Unranked(pat, commands, n - 1), HitFor(pat, commands[n - 1], n - 1);
      assert forall k | 0 <= k < |before| :: before[k] in before;
      assert forall k | 0 <= k < |last| :: last[k] in last;
    }
  }

  lemma {:induction false} UnrankedHas(pat: string, commands: seq<Command>, n: nat, i: nat)
    requires i < n <= |commands|
    ensures forall h | h in HitFor(pat, commands[i], i) :: h in Unranked(pat, commands, n)
  {
    if i < n - 1 {
      UnrankedHas(pat, commands, n - 1, i);
    }
  }

  lemma RankedHeads(a: seq<Hit>, b: seq<Hit>)
    requires Ranked(a) && Ranked(b) && multiset(a) == multiset(b) && a != [] && b != []
    ensures a[0] == b[0]
  {
    var x, y := a[0], b[0];
    assert x in multiset(b) && y in multiset(a);
    var i :| 0 <= i < |b| && b[i] == x;
    var j :| 0 <= j < |a| && a[j] == y;
    assert i == 0 || Before(y, x);
    assert j == 0 || Before(x, y);
  }

  lemma TailMultiset(a: seq<Hit>)
    requires a != []
    ensures multiset(a[1..]) == multiset(a) - multiset{a[0]}
  {
    assert a == [a[0]] + a[1..];
  }

  /** Two ranked lists of the same hits are the same list, so the contract of
      `BuildFiltered` leaves nothing open. */
  lemma {:induction false} RankedUnique(a: seq<Hit>, b: seq<Hit>)
    requires Ranked(a) && Ranked(b) && multiset(a) == multiset(b)
    ensures a == b
    decreases |a|
  {
    hide Before;
    assert |a| == |multiset(a)| == |multiset(b)| == |b|;
    if a != [] {
      RankedHeads(a, b);
      TailMultiset(a);
      TailMultiset(b);
      RankedUnique(a[1..], b[1..]);
      assert a == [a[0]] + a[1..] && b == [b[0]] + b[1..];
    }
  }

  /** A command is listed exactly when the query is a subsequence of its title
      or of its group. */
  lemma ListedIff(pat: string, commands: seq<Command>, i: nat)
    requires i < |commands|
    ensures (exists h :: h in Unranked(pat, commands, |commands|) && h.cmd == i)
            <==> (exists q :: Embeds(pat, commands[i].title, q)) || (exists q :: Embeds(pat, commands[i].group, q))
  {
    FuzzyComplete(pat, commands[i].title, true);
    FuzzyComplete(pat, commands[i].group, false);
    UnrankedInOrder(pat, commands, |commands|);
    UnrankedHas(pat, commands, |commands|, i);
    if HitFor(pat, commands[i], i) != [] {
      var h := HitFor(pat, commands[i], i)[0];
      assert h in HitFor(pat, commands[i], i);
      assert h in Unranked(pat, commands, |commands|) && h.cmd == i;
    }
  }

  lemma HitBounds(pat: string, c: Command, i: nat, h: Hit)
    requires pat != "" && h in HitFor(pat, c, i)
    ensures h.positions != [] ==> h.score >= |pat| - 9
    ensures h.positions == [] ==> h.score <= 22 * |pat| - 105
  {
    FuzzyBounds(pat, c.title);
    FuzzyBounds(pat, c.group);
  }

  /** Main result: with a query of one to four characters every title hit comes
      before every group-only hit, whatever the commands are. */
  lemma TitlesFirst(pat: string, commands: seq<Command>, ranked: seq<Hit>, i: nat, j: nat)
    requires 1 <= |pat| <= 4
    requires Ranked(ranked) && multiset(ranked) == multiset(Unranked(pat, commands, |commands|))
    requires i < j < |ranked| && ranked[j].positions != []
    ensures ranked[i].positions != []
  {
    UnrankedInOrder(pat, commands, |commands|);
    var a, b := ranked[i], ranked[j];
    assert a in multiset(ranked) && b in multiset(ranked);
    assert Before(a, b);
    HitBounds(pat, commands[a.cmd], a.cmd, a);
    HitBounds(pat, commands[b.cmd], b.cmd, b);
  }

  // ----- four is the limit

  /** m - 1 spaces, then a letter. */
  function Padded(m: nat): (s: string)
    ensures |s| == m && forall i | 0 <= i < m :: s[i] == if i == m - 1 then 'a' else ' '
  {
    seq(m, i => if i == m - 1 then 'a' else ' ')
  }

  /** A title that matches it as badly as can be: late, and with a letter before
      each match. */
  function Spread(m: nat): (s: string)
    requires m >= 1
    ensures |s| == 2 * m + 10
    ensures forall i | 0 <= i < |s| :: s[i] == SpreadAt(m, i)
  {
    seq(2 * m + 10, i => SpreadAt(m, i))
  }

  function SpreadAt(m: nat, i: int): char {
    if i == 2 * m + 9 then 'a' else if i >= 11 && i % 2 == 1 then ' ' else 'x'
  }

  lemma Advance(pat: string, str: string, n: nat, g: Greedy)
    requires n < |str| && g.matched <= |pat| && GreedyAt(pat, str, n) == g
    ensures GreedyAt(pat, str, n + 1) == Next(pat, str, n, g)
  {
  }

  lemma {:induction false} NoneYet(pat: string, str: string, n: nat)
    requires pat != "" && n <= |str| && forall i | 0 <= i < n :: !SameLetter(str[i], pat[0])
    ensures GreedyAt(pat, str, n) == Greedy(0, 0, -2, [])
  {
    if n > 0 {
      NoneYet(pat, str, n - 1);
    }
  }

  lemma {:induction false} SpreadMatch(m: nat, n: nat)
    requires m >= 2 && n <= m - 1
    ensures var g := GreedyAt(Padded(m), Spread(m), 11 + 2 * n);
            && g.matched == n && g.score == (if n == 0 then 0 else n + 1)
            && g.last == (if n == 0 then -2 else 9 + 2 * n)
            && (n > 0 ==> g.positions[0] == 11)
  {
    hide GreedyAt;
    var p, t := Padded(m), Spread(m);
    if n == 0 {
      NoneYet(p, t, 11);
    } else {
      SpreadMatch(m, n - 1);
      var at := 9 + 2 * n;
      Advance(p, t, at, GreedyAt(p, t, at));
      Advance(p, t, at + 1, GreedyAt(p, t, at + 1));
    }
  }

  lemma {:induction false} PaddedMatch(m: nat, n: nat)
    requires n <= m
    ensures var g := GreedyAt(Padded(m), Padded(m), n);
            g.matched == n && g.score == (if n == 0 then 0 else 22 * n - 5) && g.last == (if n == 0 then -2 else n - 1)
  {
    hide GreedyAt;
    var p := Padded(m);
    if n == 0 {
      NothingYet(p, p);
    } else {
      PaddedMatch(m, n - 1);
      Advance(p, p, n - 1, GreedyAt(p, p, n - 1));
    }
  }

  lemma NothingYet(pat: string, str: string)
    ensures GreedyAt(pat, str, 0) == Greedy(0, 0, -2, [])
  {
  }

  /** The bounds are met for every length: the title scores m - 9 and the group
      22m - 105. */
  lemma BoundsAreMet(m: nat, i: nat)
    requires m >= 2
    ensures var title := HitFor(Padded(m), Command(Spread(m), ""), i);
            |title| == 1 && title[0].cmd == i && title[0].score == m - 9 && title[0].positions != []
    ensures HitFor(Padded(m), Command("", Padded(m)), i) == [Hit(i, 22 * m - 105, [])]
  {
    hide GreedyAt;
    var p, t := Padded(m), Spread(m);
    SpreadMatch(m, m - 1);
    Advance(p, t, 2 * m + 9, GreedyAt(p, t, 2 * m + 9));
    PaddedMatch(m, m);
    NothingYet(p, "");
  }

  /** For queries of m characters: whatever the commands, every title hit comes
      before every group-only hit. */
  ghost predicate TitlesAlwaysFirst(m: nat) {
    forall pat: string, commands: seq<Command>, ranked: seq<Hit> | |pat| == m && IsRanking(pat, commands, ranked) ::
      TitlesLead(ranked)
  }

  ghost predicate TitlesLead(ranked: seq<Hit>) {
    forall i, j | 0 <= i < j < |ranked| && ranked[j].positions != [] :: ranked[i].positions != []
  }

  ghost predicate IsRanking(pat: string, commands: seq<Command>, ranked: seq<Hit>) {
    Ranked(ranked) && multiset(ranked) == multiset(Unranked(pat, commands, |commands|))
  }

  lemma LongQuery(m: nat)
    requires m >= 5
    ensures !TitlesAlwaysFirst(m)
  {
    hide FuzzyResult, Ranked, Before, HitFor, Unranked, IsRanking, TitlesLead;
    var p, a, b := Padded(m), Command(Spread(m), ""), Command("", Padded(m));
    BoundsAreMet(m, 0);
    BoundsAreMet(m, 1);
    var title, group := HitFor(p, a, 0)[0], HitFor(p, b, 1)[0];
    TwoRanked(p, a, b, title, group);
    GroupLeads(group, title);
  }

  lemma GroupLeads(group: Hit, title: Hit)
    requires group.positions == [] && title.positions != []
    ensures !TitlesLead([group, title])
  {
    var ranked := [group, title];
    assert ranked[1].positions != [] && ranked[0].positions == [];
  }

  lemma TwoRanked(pat: string, a: Command, b: Command, title: Hit, group: Hit)
    requires HitFor(pat, a, 0) == [title] && HitFor(pat, b, 1) == [group] && group.score > title.score
    ensures IsRanking(pat, [a, b], [group, title])
  {
    hide HitFor;
    TwoUnranked(pat, [a, b]);
    assert multiset([title] + [group]) == multiset([group, title]);
  }

  lemma TwoUnranked(pat: string, commands: seq<Command>)
    requires |commands| == 2
    ensures Unranked(pat, commands, 2) == HitFor(pat, commands[0], 0) + HitFor(pat, commands[1], 1)
  {
    hide HitFor;
    assert Unranked(pat, commands, 1) == HitFor(pat, commands[0], 0);
  }

  /** Main result: title hits always come first exactly for queries of at most
      four characters. */
  lemma TitlesFirstIff(m: nat)
    requires m >= 1
    ensures TitlesAlwaysFirst(m) <==> m <= 4
  {
    if m <= 4 {
      forall pat: string, commands: seq<Command>, ranked: seq<Hit> | |pat| == m && IsRanking(pat, commands, ranked)
        ensures TitlesLead(ranked)
      {
        forall i, j | 0 <= i < j < |ranked| && ranked[j].positions != [] ensures ranked[i].positions != [] {
          TitlesFirst(pat, commands, ranked, i, j);
        }
      }
    } else {
      LongQuery(m);
    }
  }

  // ----- highlighting

  /** Which characters of a title are tinted: with increasing positions inside
      the title, exactly those. */
  method DrawHighlighted(s: string, positions: seq<nat>) returns (tinted: seq<bool>)
    requires Increasing(positions)
    ensures |tinted| == |s|
    ensures forall i | 0 <= i < |s| :: tinted[i] <==> i in positions
  {
    var k := 0;
    tinted := [];
    for i := 0 to |s|
      invariant 0 <= k <= |positions| && |tinted| == i
      invariant forall j | 0 <= j < k :: positions[j] < i
      invariant k < |positions| ==> positions[k] >= i
      invariant forall j | 0 <= j < i :: tinted[j] <==> j in positions
    {
      var m := k < |positions| && positions[k] == i;
      if m { k := k + 1; }
      tinted := tinted + [m];
    }
  }
}
