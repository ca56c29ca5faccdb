/** The handshake between the engine process and its front end: what the engine
    prints on stdout, how the front end reads it, and that the two agree. */
module Handshake {
  import opened Words
  import opened Monitor

  // ----- white space and fields

  /** The Unicode White_Space characters. */
  predicate IsSpace(c: char) {
    || '\U{9}' <= c <= '\U{D}' || c in {'\U{20}', '\U{85}', '\U{A0}', '\U{1680}',
                                   '\U{2028}', '\U{2029}', '\U{202F}', '\U{205F}', '\U{3000}'}
    || '\U{2000}' <= c <= '\U{200A}'
  }

  const SPACES: seq<char> := [
    '\U{9}', '\U{A}', '\U{B}', '\U{C}', '\U{D}', '\U{20}', '\U{85}', '\U{A0}', '\U{1680}',
    '\U{2000}', '\U{2001}', '\U{2002}', '\U{2003}', '\U{2004}', '\U{2005}', '\U{2006}', '\U{2007}',
    '\U{2008}', '\U{2009}', '\U{200A}', '\U{2028}', '\U{2029}', '\U{202F}', '\U{205F}', '\U{3000}']

  lemma SpaceIff(c: char)
    ensures IsSpace(c) <==> c in SPACES
  {
  }

  ghost predicate Solid(s: string) {
    forall i | 0 <= i < |s| :: !IsSpace(s[i])
  }

  /** Characters before the first space. */
  function WordLength(s: string): (n: nat)
    ensures n <= |s| && forall i | 0 <= i < n :: !IsSpace(s[i])
    ensures n < |s| ==> IsSpace(s[n])
  {
    if s == [] || IsSpace(s[0]) then 0 else 1 + WordLength(s[1..])
  }

  /** The maximal runs of other characters, in order. */
  function Fields(s: string): seq<string>
    decreases |s|
  {
    if s == [] then []
    else if IsSpace(s[0]) then Fields(s[1..])
    else
      var n := WordLength(s);
      [s[..n]] + Fields(s[n..])
  }

  lemma {:induction false} WordLengthOf(word: string, rest: string)
    requires Solid(word) && (rest == [] || IsSpace(rest[0]))
    ensures WordLength(word + rest) == |word|
  {
    hide IsSpace;
    if word == [] {
      assert word + rest == rest;
    } else {
      assert (word + rest)[0] == word[0] && (word + rest)[1..] == word[1..] + rest;
      WordLengthOf(word[1..], rest);
    }
  }

  lemma WordThenSpace(word: string, rest: string)
    requires Solid(word) && word != [] && (rest == [] || IsSpace(rest[0]))
    ensures Fields(word + rest) == [word] + Fields(rest)
  {
    hide IsSpace;
    WordLengthOf(word, rest);
    assert (word + rest)[..|word|] == word && (word + rest)[|word|..] == rest;
  }

  lemma SkipSpace(rest: string)
    ensures Fields(" " + rest) == Fields(rest)
  {
    assert (" " + rest)[1..] == rest;
  }

  lemma {:induction false} FieldsAreSolid(s: string)
    ensures forall f | f in Fields(s) :: Solid(f)
    decreases |s|
  {
    if s != [] {
      if IsSpace(s[0]) {
        FieldsAreSolid(s[1..]);
      } else {
        FieldsAreSolid(s[WordLength(s)..]);
      }
    }
  }

  /** Words, each behind some white space, and white space at the end. */
  datatype Spaced = Spaced(gap: string, word: string)

  ghost predicate Blank(s: string) {
    forall i | 0 <= i < |s| :: IsSpace(s[i])
  }

  function Written(ws: seq<Spaced>): string {
    if ws == [] then "" else ws[0].gap + ws[0].word + Written(ws[1..])
  }

  function WordsOf(ws: seq<Spaced>): (r: seq<string>)
    ensures |r| == |ws|
  {
    seq(|ws|, i requires 0 <= i < |ws| => ws[i].word)
  }

  /** Words without white space, at least one blank between two of them. */
  ghost predicate Apart(ws: seq<Spaced>) {
    && (forall i | 0 <= i < |ws| :: Blank(ws[i].gap) && Solid(ws[i].word) && ws[i].word != "")
    && forall i | 0 < i < |ws| :: ws[i].gap != ""
  }

  lemma {:induction false} SkipBlank(gap: string, rest: string)
    requires Blank(gap)
    ensures Fields(gap + rest) == Fields(rest)
  {
    hide IsSpace;
    if gap == "" {
      assert gap + rest == rest;
    } else {
      assert (gap + rest)[1..] == gap[1..] + rest && (gap + rest)[0] == gap[0];
      SkipBlank(gap[1..], rest);
    }
  }

  /** Splitting gives back the words, whatever white space is between them. */
  lemma {:induction false} FieldsReadBack(ws: seq<Spaced>, tail: string)
    requires Apart(ws) && Blank(tail)
    ensures Fields(Written(ws) + tail) == WordsOf(ws)
    decreases |ws|
  {
    hide IsSpace, Fields;
    if ws == [] {
      SkipBlank(tail, "");
      assert tail + "" == "" + tail;
      NoFields();
    } else {
      var rest := Written(ws[1..]) + tail;
      FieldsReadBack(ws[1..], tail);
      assert Written(ws) + tail == ws[0].gap + (ws[0].word + rest);
      SkipBlank(ws[0].gap, ws[0].word + rest);
      if |ws| > 1 {
        assert Written(ws[1..]) == ws[1].gap + ws[1].word + Written(ws[1..][1..]);
        assert rest[0] == ws[1].gap[0];
      }
      WordThenSpace(ws[0].word, rest);
      assert WordsOf(ws) == [ws[0].word] + WordsOf(ws[1..]);
    }
  }

  lemma NoFields()
    ensures Fields("") == []
  {
  }

  // ----- decimal ports

  const DIGITS: string := "0123456789"

  function Decimal(n: nat): (s: string)
    ensures s != [] && forall i | 0 <= i < |s| :: s[i] in DIGITS
  {
    if n < 10 then [DIGITS[n]] else Decimal(n / 10) + [DIGITS[n % 10]]
  }

  function DigitValue(c: char): (v: nat)
    requires '0' <= c <= '9'
    ensures v < 10
  {
    c as int - '0' as int
  }

  predicate AllDigits(s: string) {
    forall i | 0 <= i < |s| :: '0' <= s[i] <= '9'
  }

  function Value(s: string): nat
    requires AllDigits(s)
  {
    if s == [] then 0 else Value(s[..|s| - 1]) * 10 + DigitValue(s[|s| - 1])
  }

  /** Rust's reading of a u16: an optional plus sign, then digits, no more than
      the type holds. */
  function ParseU16(s: string): Option<nat> {
    var digits := if s != [] && s[0] == '+' then s[1..] else s;
    if digits == [] || !AllDigits(digits) || Value(digits) > 65535 then None else Some(Value(digits))
  }

  lemma {:induction false} DecimalValue(n: nat)
    ensures AllDigits(Decimal(n)) && Value(Decimal(n)) == n
  {
    if n < 10 {
      assert Decimal(n)[..0] == [];
    } else {
      DecimalValue(n / 10);
      var s, front := Decimal(n), Decimal(n / 10);
      assert s == front + Decimal(n % 10);
      assert Decimal(n % 10)[..0] == [];
      assert s[..|s| - 1] == front && s[|s| - 1] == Decimal(n % 10)[0];
    }
  }

  function Zeros(z: nat): string {
    if z == 0 then "" else "0" + Zeros(z - 1)
  }

  /** The number as it may be written: a plus sign, zeros in front. */
  ghost predicate Spells(s: string, n: nat) {
    exists z: nat :: s == Zeros(z) + Decimal(n) || s == "+" + (Zeros(z) + Decimal(n))
  }

  lemma {:induction false} ZerosValue(z: nat, s: string)
    requires AllDigits(s)
    ensures AllDigits(Zeros(z) + s) && Value(Zeros(z) + s) == Value(s)
  {
    hide Value, DigitValue;
    if z == 0 {
      assert Zeros(0) + s == s;
    } else {
      ZerosValue(z - 1, s);
      assert Zeros(z) + s == "0" + (Zeros(z - 1) + s);
      LeadingZero(Zeros(z - 1) + s);
    }
  }

  lemma {:induction false} LeadingZero(s: string)
    requires AllDigits(s)
    ensures AllDigits("0" + s) && Value("0" + s) == Value(s)
  {
    var t := "0" + s;
    if s == "" {
      assert t[..0] == "";
    } else {
      LeadingZero(s[..|s| - 1]);
      assert t[..|t| - 1] == "0" + s[..|s| - 1];
    }
  }

  /** Every digit string is a number behind zeros. */
  lemma {:induction false} DigitsSpell(s: string) returns (z: nat)
    requires s != "" && AllDigits(s)
    ensures s == Zeros(z) + Decimal(Value(s))
    decreases |s|
  {
    hide Value, Decimal, Zeros, DIGITS, DigitValue;
    var front, last := s[..|s| - 1], s[|s| - 1];
    assert s == front + [last];
    var v := DigitValue(last);
    DigitOf(last);
    ValueSnoc(front, last);
    if front == "" {
      z := 0;
      DecimalSmall(v);
      NoZeros([last]);
    } else {
      z := DigitsSpell(front);
      z := SpellSnoc(z, Value(front), v);
    }
  }

  lemma SpellSnoc(z: nat, n: nat, v: nat) returns (z': nat)
    requires v < 10
    ensures Zeros(z') + Decimal(n * 10 + v) == Zeros(z) + Decimal(n) + [DIGITS[v]]
  {
    hide Decimal, Zeros;
    if n == 0 {
      ZerosSnoc(z);
      DecimalSmall(0);
      DecimalSmall(v);
      z' := z + 1;
    } else {
      DecimalStep(n, v);
      z' := z;
      assert Zeros(z) + (Decimal(n) + [DIGITS[v]]) == Zeros(z) + Decimal(n) + [DIGITS[v]];
    }
  }

  lemma NoZeros(s: string)
    ensures Zeros(0) + s == s
  {
  }

  lemma ValueSnoc(front: string, c: char)
    requires AllDigits(front) && '0' <= c <= '9'
    ensures AllDigits(front + [c]) && Value(front + [c]) == Value(front) * 10 + DigitValue(c)
    ensures front == "" ==> Value(front) == 0
  {
    assert (front + [c])[..|front|] == front;
  }

  lemma DecimalSmall(v: nat)
    requires v < 10
    ensures Decimal(v) == [DIGITS[v]]
  {
  }

  lemma DecimalStep(n: nat, v: nat)
    requires n > 0 && v < 10
    ensures Decimal(n * 10 + v) == Decimal(n) + [DIGITS[v]]
  {
    hide DIGITS;
    var m := n * 10 + v;
    assert m / 10 == n && m % 10 == v && m >= 10;
  }

  lemma DigitOf(c: char)
    requires '0' <= c <= '9'
    ensures DIGITS[DigitValue(c)] == c
  {
  }

  lemma {:induction false} ZerosSnoc(z: nat)
    ensures Zeros(z + 1) == Zeros(z) + "0"
  {
    if z > 0 { ZerosSnoc(z - 1); }
  }

  lemma NoSign(s: string)
    requires AllDigits(s) && s != ""
    ensures s[0] != '+' && !AllDigits("+" + s) && ("+" + s)[1..] == s
  {
    assert ("+" + s)[0] == '+';
  }

  /** Main result: a port is read exactly from its spellings. */
  lemma PortIff(s: string, n: nat)
    ensures ParseU16(s) == Some(n) <==> n <= 65535 && Spells(s, n)
  {
    hide Value, Decimal, AllDigits, Zeros;
    if ParseU16(s) == Some(n) {
      var digits := if s[0] == '+' then s[1..] else s;
      var z := DigitsSpell(digits);
      assert s[0] == '+' ==> s == "+" + digits;
    }
    if n <= 65535 && Spells(s, n) {
      var z: nat :| s == Zeros(z) + Decimal(n) || s == "+" + (Zeros(z) + Decimal(n));
      DecimalValue(n);
      ZerosValue(z, Decimal(n));
      NoSign(Zeros(z) + Decimal(n));
    }
  }

  lemma DecimalIsSolid(n: nat)
    ensures Solid(Decimal(n))
  {
    DecimalValue(n);
  }

  lemma PortRoundTrip(port: nat)
    ensures ParseU16(Decimal(port)) == if port <= 65535 then Some(port) else None
  {
    DecimalValue(port);
  }

  // ----- the lines

  const READY: string := "SLOP_ENGINE_READY"
  const EXISTING: string := "SLOP_ENGINE_EXISTING"
  const FAILED: string := "SLOP_ENGINE_FAILED"

  function ReadyLine(port: nat, token: string): string {
    READY + " " + Decimal(port) + " " + token
  }

  function ExistingLine(pid: nat): string {
    EXISTING + " " + Decimal(pid)
  }

  const FAILED_LINE: string := FAILED + " mcp server did not bind"

  // ----- the front end's reader

  /** The keyword taken off the front as often as it stands there. */
  function WithoutKeyword(s: string): string
    decreases |s|
  {
    if FAILED <= s then WithoutKeyword(s[|FAILED|..]) else s
  }

  function TrimFront(s: string): string {
    if s != "" && IsSpace(s[0]) then TrimFront(s[1..]) else s
  }

  function TrimBack(s: string): string {
    if s != "" && IsSpace(s[|s| - 1]) then TrimBack(s[..|s| - 1]) else s
  }

  function FailureText(line: string): string {
    TrimBack(TrimFront(WithoutKeyword(line)))
  }

  /** What one line does to the monitor. */
  function OnLine(i: Inner, line: string): Inner {
    var fields := Fields(line);
    if fields == [] then i
    else if fields[0] == READY then
      var port := if |fields| > 1 then ParseU16(fields[1]) else None;
      if port.Some? && port.value != 0
      then Published(i, Endpoint(port.value, if |fields| > 2 then fields[2] else ""))
      else Failed(i, "malformed handshake: " + line)
    else if fields[0] == FAILED then Failed(i, FailureText(line))
    else i
  }

  /** A port number from 1 up that the word spells. */
  ghost predicate SpellsPort(word: string, port: nat) {
    0 < port <= 65535 && Spells(word, port)
  }

  lemma KeywordsDiffer()
    ensures READY == "SLOP_ENGINE_READY" && FAILED == "SLOP_ENGINE_FAILED" && READY != FAILED
  {
    assert READY[12] != FAILED[12];
  }

  /** Main result: what each line does, in terms of its words. A ready line with a
      port publishes it with the token behind it, one without a port is a failure
      that quotes it, and a failure line gives its reason; every other line does
      nothing. */
  lemma LineMeans(i: Inner, ws: seq<Spaced>, tail: string)
    requires Apart(ws) && Blank(tail)
    ensures var line := Written(ws) + tail;
            var ready := ws != [] && ws[0].word == "SLOP_ENGINE_READY";
            && (forall port | ready && |ws| > 1 && SpellsPort(ws[1].word, port) ::
                  OnLine(i, line) == Published(i, Endpoint(port, if |ws| > 2 then ws[2].word else "")))
            && (ready && (|ws| > 1 ==> forall port :: !SpellsPort(ws[1].word, port)) ==>
                  OnLine(i, line) == Failed(i, "malformed handshake: " + line))
            && (ws != [] && ws[0].word == "SLOP_ENGINE_FAILED" ==> OnLine(i, line) == Failed(i, FailureText(line)))
            && (!ready && (ws != [] ==> ws[0].word != "SLOP_ENGINE_FAILED") ==> OnLine(i, line) == i)
  {
    hide Fields, ParseU16, Spells, Written, Apart, Blank, FailureText, READY, FAILED;
    KeywordsDiffer();
    FieldsReadBack(ws, tail);
    if |ws| > 1 {
      var word := ws[1].word;
      forall port ensures ParseU16(word) == Some(port) <==> port <= 65535 && Spells(word, port) { PortIff(word, port); }
      if ParseU16(word).Some? && ParseU16(word).value != 0 { assert SpellsPort(word, ParseU16(word).value); }
    }
  }

  /** The reason of a failure line is what stands behind the keyword, without the
      white space around it. */
  lemma FailureReads(gap: string, reason: string, tail: string)
    requires gap != "" && Blank(gap) && Blank(tail)
    requires reason != "" && !IsSpace(reason[0]) && !IsSpace(reason[|reason| - 1])
    ensures FailureText("SLOP_ENGINE_FAILED" + gap + reason + tail) == reason
  {
    hide IsSpace, TrimFront, TrimBack, WithoutKeyword, READY, FAILED;
    KeywordsDiffer();
    KeywordsAreSolid();
    var rest := gap + (reason + tail);
    assert FAILED + gap + reason + tail == FAILED + rest;
    assert !(FAILED <= rest) by { assert rest[0] == gap[0]; }
    KeywordOff(rest);
    assert (reason + tail)[0] == reason[0];
    FrontTrimmed(gap, reason + tail);
    BackTrimmed(reason, tail);
  }

  lemma KeywordOff(rest: string)
    requires !(FAILED <= rest)
    ensures |FAILED| > 0 && WithoutKeyword(FAILED + rest) == rest
  {
    assert (FAILED + rest)[|FAILED|..] == rest;
  }

  lemma {:induction false} FrontTrimmed(gap: string, rest: string)
    requires Blank(gap) && rest != "" && !IsSpace(rest[0])
    ensures TrimFront(gap + rest) == rest
  {
    hide IsSpace;
    if gap == "" {
      assert gap + rest == rest;
    } else {
      assert (gap + rest)[0] == gap[0] && (gap + rest)[1..] == gap[1..] + rest;
      FrontTrimmed(gap[1..], rest);
    }
  }

  lemma {:induction false} BackTrimmed(text: string, tail: string)
    requires Blank(tail) && text != "" && !IsSpace(text[|text| - 1])
    ensures TrimBack(text + tail) == text
    decreases |tail|
  {
    hide IsSpace;
    if tail == "" {
      assert text + tail == text;
    } else {
      var s := text + tail;
      assert s[|s| - 1] == tail[|tail| - 1] && s[..|s| - 1] == text + tail[..|tail| - 1];
      BackTrimmed(text, tail[..|tail| - 1]);
    }
  }

  function OnLines(i: Inner, lines: seq<string>): Inner {
    if lines == [] then i else OnLine(OnLines(i, lines[..|lines| - 1]), lines[|lines| - 1])
  }

  const EOF_REASON: string := "engine exited before reporting a port"

  /** The whole stream: the lines, then the end of it. */
  function Reader(i: Inner, lines: seq<string>): Inner {
    Failed(OnLines(i, lines), EOF_REASON)
  }

  method ReadStdout(engine: Engine, lines: seq<string>)
    modifies engine
    ensures engine.Value() == Reader(old(engine.Value()), lines)
  {
    ghost var start := engine.Value();
    assert lines[..0] == [];
    for k := 0 to |lines|
      invariant engine.Value() == OnLines(start, lines[..k])
    {
      assert lines[..k + 1][..k] == lines[..k];
      var fields := Fields(lines[k]);
      if fields != [] {
        if fields[0] == READY {
          var port := if |fields| > 1 then ParseU16(fields[1]) else None;
          var token := if |fields| > 2 then fields[2] else "";
          if port.Some? && port.value != 0 {
            engine.Publish(Endpoint(port.value, token));
          } else {
            engine.Fail("malformed handshake: " + lines[k]);
          }
        } else if fields[0] == FAILED {
          engine.Fail(FailureText(lines[k]));
        }
      }
    }
    assert lines[..|lines|] == lines;
    engine.Fail(EOF_REASON);
  }

  lemma KeywordsAreSolid()
    ensures Solid(READY) && Solid(EXISTING) && Solid(FAILED)
  {
  }

  /** The fields of a printed ready line, whatever the token is. */
  lemma ReadyFields(port: nat, token: string)
    ensures Fields(ReadyLine(port, token)) == [READY, Decimal(port)] + Fields(token)
  {
    hide IsSpace, Decimal, Fields;
    KeywordsAreSolid();
    DecimalIsSolid(port);
    SpaceIsSpace();
    assert ReadyLine(port, token) == READY + (" " + (Decimal(port) + (" " + token)));
    WordThenSpace(READY, " " + (Decimal(port) + (" " + token)));
    SkipSpace(Decimal(port) + (" " + token));
    WordThenSpace(Decimal(port), " " + token);
    SkipSpace(token);
  }

  lemma SpaceIsSpace()
    ensures IsSpace(' ')
  {
  }

  lemma SolidField(token: string)
    requires Solid(token)
    ensures Fields(token) == if token == [] then [] else [token]
  {
    if token != [] {
      WordThenSpace(token, []);
      assert token + [] == token;
    }
  }

  /** Main result: the printed ready line reads back as the endpoint it was
      printed for exactly when the port is not 0 and the token, possibly empty,
      has no white space. */
  lemma ReadyRoundTrip(i: Inner, port: nat, token: string)
    requires port <= 65535 && (i.endpoint.Some? ==> i.endpoint.value.port != 0)
    ensures OnLine(i, ReadyLine(port, token)) == Published(i, Endpoint(port, token))
            <==> port != 0 && Solid(token)
  {
    hide IsSpace, Fields, Decimal, ParseU16;
    ReadyFields(port, token);
    PortRoundTrip(port);
    var fields := Fields(ReadyLine(port, token));
    if Solid(token) {
      SolidField(token);
    } else {
      FieldsAreSolid(token);
      assert Fields(token) != [] ==> Fields(token)[0] in Fields(token);
    }
    assert fields[0] == READY && fields[1] == Decimal(port) && |fields| == 2 + |Fields(token)|;
    assert |fields| > 2 ==> fields[2] == Fields(token)[0];
  }

  /** Lines that are not ready lines, and the end of the stream, never replace a
      published endpoint. */
  lemma {:induction false} EndpointSurvives(i: Inner, lines: seq<string>)
    requires i.endpoint.Some?
    requires forall k | 0 <= k < |lines| :: Fields(lines[k]) != [] ==> Fields(lines[k])[0] != READY
    ensures OnLines(i, lines) == i && Reader(i, lines) == i
  {
    if lines != [] {
      EndpointSurvives(i, lines[..|lines| - 1]);
    }
  }

  // ----- the engine's side

  /** One turn of the main loop: what booting has come to, and whether quitting
      was asked for before it. */
  datatype Turn = Turn(quit: bool, mcpOk: bool, port: nat, token: string, booted: bool)

  /** A live engine's endpoint and process, if there is one already. */
  datatype Live = Live(port: nat, token: string, pid: nat)

  predicate Decisive(t: Turn) {
    t.mcpOk || t.booted
  }

  function Announcement(t: Turn): string
    requires Decisive(t)
  {
    if t.mcpOk then ReadyLine(t.port, t.token) else FAILED_LINE
  }

  /** The first decisive turn, unless the loop is left before it. */
  function FirstDecisive(turns: seq<Turn>): (r: Option<Turn>)
    ensures r.Some? ==> Decisive(r.value)
  {
    if turns == [] || turns[0].quit then None
    else if Decisive(turns[0]) then Some(turns[0])
    else FirstDecisive(turns[1..])
  }

  function Printed(live: Option<Live>, turns: seq<Turn>): seq<string> {
    if live.Some? then [ReadyLine(live.value.port, live.value.token), ExistingLine(live.value.pid)]
    else
      var t := FirstDecisive(turns);
      if t.Some? then [Announcement(t.value)] else []
  }

  /** A second engine hands over the first one's endpoint and leaves; otherwise
      the main loop announces at most once. */
  method EngineMain(live: Option<Live>, turns: seq<Turn>) returns (lines: seq<string>)
    ensures lines == Printed(live, turns)
  {
    if live.Some? {
      return [ReadyLine(live.value.port, live.value.token), ExistingLine(live.value.pid)];
    }
    lines := [];
    var announced, quitRequested, k := false, false, 0;
    assert turns[0..] == turns;
    while k < |turns| && !quitRequested && !turns[k].quit
      invariant 0 <= k <= |turns|
      invariant announced <==> lines != []
      invariant !announced ==> FirstDecisive(turns) == FirstDecisive(turns[k..]) && !quitRequested
      invariant announced ==> FirstDecisive(turns).Some? && lines == [Announcement(FirstDecisive(turns).value)]
    {
      assert turns[k..][1..] == turns[k + 1..];
      if !announced {
        if turns[k].mcpOk {
          lines := lines + [ReadyLine(turns[k].port, turns[k].token)];
          announced := true;
        } else if turns[k].booted {
          lines := lines + [FAILED_LINE];
          announced := true;
          quitRequested := true;
        }
      }
      k := k + 1;
    }
  }

  lemma OtherLines(pid: nat)
    ensures Fields(ExistingLine(pid)) == [EXISTING, Decimal(pid)]
    ensures Fields(FAILED_LINE) != [] && Fields(FAILED_LINE)[0] == FAILED
  {
    hide IsSpace, Decimal, Fields;
    KeywordsAreSolid();
    DecimalIsSolid(pid);
    SpaceIsSpace();
    assert ExistingLine(pid) == EXISTING + (" " + Decimal(pid));
    WordThenSpace(EXISTING, " " + Decimal(pid));
    SkipSpace(Decimal(pid));
    SolidField(Decimal(pid));
    assert FAILED_LINE == FAILED + " mcp server did not bind";
    WordThenSpace(FAILED, " mcp server did not bind");
  }

  /** The lines as they are printed. */
  lemma PrintedLines(port: nat, token: string, pid: nat)
    ensures ReadyLine(port, token) == "SLOP_ENGINE_READY " + Decimal(port) + " " + token
    ensures ExistingLine(pid) == "SLOP_ENGINE_EXISTING " + Decimal(pid)
    ensures FailureText(FAILED_LINE) == "mcp server did not bind"
  {
    hide Decimal, FailureText, IsSpace;
    SpaceIsSpace();
    LettersAreNoSpace();
    FailureReads(" ", "mcp server did not bind", "");
    assert "SLOP_ENGINE_FAILED" + " " + "mcp server did not bind" + "" == FAILED_LINE;
  }

  lemma LettersAreNoSpace()
    ensures !IsSpace('m') && !IsSpace('d')
  {
  }

  lemma OneLine(i: Inner, line: string)
    ensures OnLines(i, [line]) == OnLine(i, line)
  {
    assert [line][..0] == [];
  }

  lemma TwoLines(i: Inner, a: string, b: string)
    ensures OnLines(i, [a, b]) == OnLine(OnLine(i, a), b)
  {
    assert [a, b][..1] == [a];
    OneLine(i, a);
  }

  /** Main result: from engine to front end. A fresh monitor ends up with the
      endpoint the engine announced, its own or the live one it found; without
      an announcement, or with a failed one, it ends up with the failure that the
      end of the stream stands for, whatever reason was announced. */
  lemma EngineToFrontEnd(live: Option<Live>, turns: seq<Turn>)
    requires live.Some? ==> 0 < live.value.port <= 65535 && Solid(live.value.token)
    requires forall k | 0 <= k < |turns| && turns[k].mcpOk :: 0 < turns[k].port <= 65535 && Solid(turns[k].token)
    ensures var end := Reader(Inner(None, None), Printed(live, turns));
            && (live.Some? ==> end == Inner(Some(Endpoint(live.value.port, live.value.token)), None))
            && (live.None? ==>
                  match FirstDecisive(turns)
                  case None => end == Inner(None, Some("engine exited before reporting a port"))
                  case Some(t) => if t.mcpOk then end == Inner(Some(Endpoint(t.port, t.token)), None)
                                  else end == Inner(None, Some("engine exited before reporting a port")))
  {
    hide IsSpace, Fields, Decimal, ParseU16, ReadyLine, ExistingLine, OnLine, OnLines;
    var i := Inner(None, None);
    if live.Some? {
      ReadyRoundTrip(i, live.value.port, live.value.token);
      OtherLine(Published(i, Endpoint(live.value.port, live.value.token)), live.value.pid);
      TwoLines(i, ReadyLine(live.value.port, live.value.token), ExistingLine(live.value.pid));
    } else {
      FirstDecisiveIsTurn(turns);
      match FirstDecisive(turns)
      case None => assert OnLines(i, []) == i by { NoLines(i); }
      case Some(t) =>
        OneLine(i, Announcement(t));
        if t.mcpOk { ReadyRoundTrip(i, t.port, t.token); } else { OtherLine(i, 0); }
    }
  }

  lemma NoLines(i: Inner)
    ensures OnLines(i, []) == i
  {
  }

  lemma OtherLine(i: Inner, pid: nat)
    ensures OnLine(i, ExistingLine(pid)) == i
    ensures OnLine(i, FAILED_LINE) == Failed(i, FailureText(FAILED_LINE))
  {
    hide Fields, Decimal;
    OtherLines(pid);
  }

  lemma {:induction false} FirstDecisiveIsTurn(turns: seq<Turn>)
    ensures FirstDecisive(turns).Some? ==> FirstDecisive(turns).value in turns && Decisive(FirstDecisive(turns).value)
  {
    if turns != [] && !turns[0].quit && !Decisive(turns[0]) {
      FirstDecisiveIsTurn(turns[1..]);
    }
  }

  /** Turn `k` is the first at which booting has come to an end, and no turn up to
      it was asked to quit. */
  ghost predicate DecidesAt(turns: seq<Turn>, k: nat) {
    && k < |turns| && (turns[k].mcpOk || turns[k].booted)
    && (forall j | 0 <= j < k :: !turns[j].mcpOk && !turns[j].booted)
    && forall j | 0 <= j <= k :: !turns[j].quit
  }

  /** Main result on the engine: it announces exactly what that turn stands for, the
      endpoint if the server runs and the failure otherwise, and nothing if there is
      no such turn. */
  lemma {:induction false} AnnouncedIff(turns: seq<Turn>)
    ensures forall k: nat | DecidesAt(turns, k) ::
              Printed(None, turns) == [if turns[k].mcpOk then ReadyLine(turns[k].port, turns[k].token) else FAILED_LINE]
    ensures (forall k: nat :: !DecidesAt(turns, k)) ==> Printed(None, turns) == []
  {
    hide ReadyLine, FAILED_LINE;
    if turns != [] {
      AnnouncedIff(turns[1..]);
      if !turns[0].quit && Decisive(turns[0]) {
        assert DecidesAt(turns, 0);
      } else {
        forall k: nat | DecidesAt(turns, k) ensures k > 0 && DecidesAt(turns[1..], k - 1) {
        }
        forall k: nat | DecidesAt(turns[1..], k) && !turns[0].quit ensures DecidesAt(turns, k + 1) {
        }
      }
    }
  }

  // ----- mirroring the output ring

  /** The engine mirrors its output lines on stderr, remembering the last one. */
  class Mirror {
    var mirrored: nat
    var printed: seq<nat>

    ghost predicate Valid()
      reads this
    {
      && Rising(printed)
      && (if printed == [] then mirrored == 0 else mirrored == printed[|printed| - 1])
    }

    constructor ()
      ensures Valid() && printed == []
    {
      mirrored, printed := 0, [];
    }

    /** `ring` holds the retained sequence numbers, oldest first. Exactly those
        after the last mirrored one are printed, so no line is printed twice or
        out of order, and none that is retained is left out. */
    method Drain(ring: seq<nat>)
      requires Valid() && Rising(ring)
      modifies this
      ensures Valid() && printed == old(printed) + After(ring, old(mirrored))
    {
      hide After;
      var k := FirstAfter(ring, mirrored);
      ghost var all := printed + ring[k..];
      while k < |ring|
        invariant 0 <= k <= |ring| && Valid() && printed + ring[k..] == all
        invariant k < |ring| ==> mirrored < ring[k]
      {
        assert ring[k..] == [ring[k]] + ring[k + 1..];
        assert printed + ([ring[k]] + ring[k + 1..]) == (printed + [ring[k]]) + ring[k + 1..];
        printed := printed + [ring[k]];
        mirrored := ring[k];
        k := k + 1;
      }
      assert ring[k..] == [];
    }
  }

  method FirstAfter(ring: seq<nat>, since: nat) returns (u: nat)
    ensures u <= |ring| && After(ring, since) == ring[u..] && (u < |ring| ==> ring[u] > since)
  {
    u := 0;
    assert ring[0..] == ring;
    while u < |ring| && ring[u] <= since
      invariant 0 <= u <= |ring| && After(ring, since) == After(ring[u..], since)
    {
      assert ring[u..][1..] == ring[u + 1..];
      u := u + 1;
    }
  }

  ghost predicate Rising(ring: seq<nat>) {
    forall i, j | 0 <= i < j < |ring| :: ring[i] < ring[j]
  }

  /** The part of a rising ring after `since`. */
  function After(ring: seq<nat>, since: nat): seq<nat> {
    if ring == [] || ring[0] > since then ring else After(ring[1..], since)
  }

  lemma {:induction false} AfterIs(ring: seq<nat>, since: nat, n: nat)
    requires Rising(ring)
    ensures n in After(ring, since) <==> n in ring && n > since
  {
    if ring != [] {
      if ring[0] <= since {
        AfterIs(ring[1..], since, n);
        assert ring == [ring[0]] + ring[1..];
      } else if n in ring {
        var k :| 0 <= k < |ring| && ring[k] == n;
      }
    }
  }
}
