/** Quoting the arguments of a Windows command line, and reading them back by
    the rules of "Parsing C command-line arguments" in the Microsoft C
    documentation. */
module Quoting {

  function Slashes(n: nat): (r: string)
    ensures |r| == n && forall i | 0 <= i < n :: r[i] == '\\'
  {
    seq(n, _ => '\\')
  }

  // ----- quoting

  /** The body of a quoted argument, with `pending` backslashes not written yet:
      how many are written depends on what follows them. */
  function Escaped(s: string, pending: nat): string
    decreases |s|
  {
    if s == [] then Slashes(pending * 2)
    else if s[0] == '\\' then Escaped(s[1..], pending + 1)
    else if s[0] == '\"' then Slashes(pending * 2 + 1) + "\"" + Escaped(s[1..], 0)
    else Slashes(pending) + [s[0]] + Escaped(s[1..], 0)
  }

  function Quote(s: string): string {
    "\"" + Escaped(s, 0) + "\""
  }

  method QuoteArg(arg: string) returns (out: string)
    ensures out == Quote(arg)
  {
    out := "\"";
    var slashes := 0;
    assert arg[0..] == arg;
    for i := 0 to |arg|
      invariant out + Escaped(arg[i..], slashes) + "\"" == Quote(arg)
    {
      ghost var before := out;
      assert arg[i..][1..] == arg[i + 1..];
      if arg[i] == '\\' {
        slashes := slashes + 1;
      } else if arg[i] == '\"' {
        out := out + Slashes(slashes * 2 + 1);
        out := out + "\"";
        assert out + Escaped(arg[i + 1..], 0) == before + (Slashes(slashes * 2 + 1) + "\"" + Escaped(arg[i + 1..], 0));
        slashes := 0;
      } else {
        out := out + Slashes(slashes);
        out := out + [arg[i]];
        assert out + Escaped(arg[i + 1..], 0) == before + (Slashes(slashes) + [arg[i]] + Escaped(arg[i + 1..], 0));
        slashes := 0;
      }
    }
    assert arg[|arg|..] == [];
    out := out + Slashes(slashes * 2);
    out := out + "\"";
  }

  // ----- the documented rules

  predicate IsBlank(c: char) {
    c == ' ' || c == '\t'
  }

  /** Number of backslashes at the front. */
  function Leading(s: string): (n: nat)
    ensures n <= |s|
    ensures n < |s| ==> s[n] != '\\'
  {
    if s == [] || s[0] != '\\' then 0 else 1 + Leading(s[1..])
  }

  /** Reads one argument and returns it with the text after it. Backslashes
      count only before a quotation mark, where each pair stands for one and an
      odd one makes the mark literal. A blank ends the argument outside quotes.
      `doubled` says whether two marks inside quotes stand for a literal one, as
      they do since the 2008 runtime. */
  function ReadArg(s: string, quoted: bool, doubled: bool): (r: (string, string))
    ensures |r.1| <= |s|
    ensures s != [] && !IsBlank(s[0]) ==> |r.1| < |s|
    decreases |s|
  {
    var n := Leading(s);
    if n < |s| && s[n] == '\"' then
      if n % 2 == 1 then
        var (arg, rest) := ReadArg(s[n + 1..], quoted, doubled);
        (Slashes(n / 2) + "\"" + arg, rest)
      else if quoted && doubled && n + 1 < |s| && s[n + 1] == '\"' then
        var (arg, rest) := ReadArg(s[n + 2..], quoted, doubled);
        (Slashes(n / 2) + "\"" + arg, rest)
      else
        var (arg, rest) := ReadArg(s[n + 1..], !quoted, doubled);
        (Slashes(n / 2) + arg, rest)
    else if n > 0 then
      var (arg, rest) := ReadArg(s[n..], quoted, doubled);
      (Slashes(n) + arg, rest)
    else if s == [] || (!quoted && IsBlank(s[0])) then
      ("", s)
    else
      var (arg, rest) := ReadArg(s[1..], quoted, doubled);
      ([s[0]] + arg, rest)
  }

  function ReadArgs(s: string, doubled: bool): seq<string>
    decreases |s|
  {
    if s == [] then []
    else if IsBlank(s[0]) then ReadArgs(s[1..], doubled)
    else
      var (arg, rest) := ReadArg(s, false, doubled);
      [arg] + ReadArgs(rest, doubled)
  }

  /** The program's name comes first and is read differently: quotation marks
      only protect blanks, and backslashes are never special. */
  function ReadName(s: string, quoted: bool): (r: (string, string))
    ensures |r.1| <= |s|
  {
    if s == [] then ("", s)
    else if s[0] == '\"' then ReadName(s[1..], !quoted)
    else if !quoted && IsBlank(s[0]) then ("", s)
    else
      var (name, rest) := ReadName(s[1..], quoted);
      ([s[0]] + name, rest)
  }

  function ReadCommandLine(s: string, doubled: bool): seq<string> {
    var (name, rest) := ReadName(s, false);
    [name] + ReadArgs(rest, doubled)
  }

  // ----- reading a quoted argument back

  /** Text that ends an argument. */
  predicate Ends(rest: string) {
    rest == [] || IsBlank(rest[0])
  }

  lemma {:induction false} LeadingSlashes(n: nat, t: string)
    requires t == [] || t[0] != '\\'
    ensures Leading(Slashes(n) + t) == n
  {
    if n > 0 {
      assert (Slashes(n) + t)[1..] == Slashes(n - 1) + t;
      LeadingSlashes(n - 1, t);
    } else {
      assert Slashes(0) + t == t;
    }
  }

  /** Backslashes, then a quotation mark. */
  lemma ReadMark(n: nat, t: string, quoted: bool, doubled: bool)
    ensures var s := Slashes(n) + ("\"" + t);
            && (n % 2 == 1 ==>
                  var r := ReadArg(t, quoted, doubled);
                  ReadArg(s, quoted, doubled) == (Slashes(n / 2) + "\"" + r.0, r.1))
            && (n % 2 == 0 && (t == [] || t[0] != '\"' || !quoted) ==>
                  var r := ReadArg(t, !quoted, doubled);
                  ReadArg(s, quoted, doubled) == (Slashes(n / 2) + r.0, r.1))
  {
    var s := Slashes(n) + ("\"" + t);
    LeadingSlashes(n, "\"" + t);
    assert s[n] == '\"' && s[n + 1..] == t;
  }

  lemma ReadOne(c: char, t: string, doubled: bool)
    requires c != '\\' && c != '\"'
    ensures var r := ReadArg(t, true, doubled);
            ReadArg([c] + t, true, doubled) == ([c] + r.0, r.1)
  {
    assert ([c] + t)[1..] == t;
  }

  /** Backslashes, then an ordinary character. */
  lemma ReadPlain(n: nat, c: char, t: string, doubled: bool)
    requires c != '\\' && c != '\"'
    ensures var r := ReadArg(t, true, doubled);
            ReadArg(Slashes(n) + ([c] + t), true, doubled) == (Slashes(n) + ([c] + r.0), r.1)
  {
    ReadOne(c, t, doubled);
    if n == 0 {
      NoSlashes([c] + t);
      NoSlashes([c] + ReadArg(t, true, doubled).0);
    } else {
      var s := Slashes(n) + ([c] + t);
      LeadingSlashes(n, [c] + t);
      assert s[n] == c && s[n..] == [c] + t;
    }
  }

  lemma NoSlashes(s: string)
    ensures Slashes(0) + s == s
  {
  }

  lemma MoreSlashes(n: nat, s: string)
    requires s != [] && s[0] == '\\'
    ensures Slashes(n + 1) + s[1..] == Slashes(n) + s
  {
  }

  lemma HeadTail(n: nat, s: string)
    requires s != []
    ensures Slashes(n) + ([s[0]] + s[1..]) == Slashes(n) + s
  {
    assert [s[0]] + s[1..] == s;
  }

  lemma Regroup(a: string, b: string, c: string, d: string, e: string)
    ensures a + b + c + d + e == a + (b + (c + d + e))
  {
  }

  lemma EscapedMark(s: string, pending: nat, rest: string, doubled: bool)
    requires s != [] && s[0] == '\"'
    requires ReadArg(Escaped(s[1..], 0) + "\"" + rest, true, doubled) == (s[1..], rest)
    ensures ReadArg(Escaped(s, pending) + "\"" + rest, true, doubled) == (Slashes(pending) + s, rest)
  {
    hide ReadArg, Slashes;
    var body, k := Escaped(s[1..], 0), pending * 2 + 1;
    assert Escaped(s, pending) == Slashes(k) + "\"" + body;
    hide Escaped;
    Regroup(Slashes(k), "\"", body, "\"", rest);
    ReadMark(k, body + "\"" + rest, true, doubled);
    assert k / 2 == pending && "\"" == [s[0]];
    Associate(Slashes(pending), [s[0]], s[1..]);
    HeadTail(pending, s);
  }

  lemma Associate(a: string, b: string, c: string)
    ensures a + b + c == a + (b + c)
  {
  }

  lemma EscapedOther(s: string, pending: nat, rest: string, doubled: bool)
    requires s != [] && s[0] != '\"' && s[0] != '\\'
    requires ReadArg(Escaped(s[1..], 0) + "\"" + rest, true, doubled) == (s[1..], rest)
    ensures ReadArg(Escaped(s, pending) + "\"" + rest, true, doubled) == (Slashes(pending) + s, rest)
  {
    hide ReadArg, Slashes;
    var body := Escaped(s[1..], 0);
    assert Escaped(s, pending) == Slashes(pending) + [s[0]] + body;
    hide Escaped;
    Regroup(Slashes(pending), [s[0]], body, "\"", rest);
    ReadPlain(pending, s[0], body + "\"" + rest, doubled);
    HeadTail(pending, s);
  }

  lemma EscapedEnd(pending: nat, rest: string, doubled: bool)
    requires Ends(rest)
    ensures ReadArg(Escaped([], pending) + "\"" + rest, true, doubled) == (Slashes(pending) + [], rest)
  {
    hide Slashes;
    assert Escaped([], pending) == Slashes(pending * 2);
    ReadMark(pending * 2, rest, true, doubled);
    Associate(Slashes(pending * 2), "\"", rest);
    assert ReadArg(rest, false, doubled) == ("", rest);
  }

  /** The quoted body reads back, the pending backslashes in front. */
  lemma {:induction false} ReadEscaped(s: string, pending: nat, rest: string, doubled: bool)
    requires Ends(rest)
    ensures ReadArg(Escaped(s, pending) + "\"" + rest, true, doubled) == (Slashes(pending) + s, rest)
    decreases |s|
  {
    hide ReadArg, Slashes;
    if s == [] {
      EscapedEnd(pending, rest, doubled);
    } else if s[0] == '\\' {
      ReadEscaped(s[1..], pending + 1, rest, doubled);
      MoreSlashes(pending, s);
    } else {
      ReadEscaped(s[1..], 0, rest, doubled);
      NoSlashes(s[1..]);
      if s[0] == '\"' { EscapedMark(s, pending, rest, doubled); } else { EscapedOther(s, pending, rest, doubled); }
    }
  }

  /** A quoted argument reads back as itself, and reading goes on after it. */
  lemma QuotedReadsBack(s: string, rest: string, doubled: bool)
    requires Ends(rest)
    ensures ReadArg(Quote(s) + rest, false, doubled) == (s, rest)
    ensures ReadArgs(Quote(s) + rest, doubled) == [s] + ReadArgs(rest, doubled)
  {
    hide Slashes, Escaped, ReadArg;
    var t := Escaped(s, 0) + "\"" + rest;
    ReadEscaped(s, 0, rest, doubled);
    ReadMark(0, t, false, doubled);
    NoSlashes("\"" + t);
    NoSlashes(s);
    Regroup("", "\"", Escaped(s, 0), "\"", rest);
    assert Quote(s) + rest == "\"" + t;
  }

  /** Main result: for every string the quoted form is exactly one argument, the
      string itself, under the older and the newer runtime rule. */
  lemma QuoteRoundTrip(s: string, doubled: bool)
    ensures ReadArgs(Quote(s), doubled) == [s]
  {
    QuotedReadsBack(s, "", doubled);
    assert Quote(s) + "" == Quote(s);
  }

  // ----- the whole command line

  function UnpackCommand(program: string, input: string): string {
    Quote(program) + " /unpack " + Quote(input)
  }

  /** The name read never contains a quotation mark. */
  lemma {:induction false} NameHasNoMark(s: string, quoted: bool)
    ensures '\"' !in ReadName(s, quoted).0
  {
    if s != [] {
      NameHasNoMark(s[1..], quoted);
      NameHasNoMark(s[1..], !quoted);
    }
  }

  lemma {:induction false} ReadNameThrough(s: string, rest: string)
    requires '\"' !in s && Ends(rest)
    ensures ReadName(s + "\"" + rest, true) == (s, rest)
  {
    var t := s + "\"" + rest;
    if s == [] {
      assert t[1..] == rest;
    } else {
      assert t[0] == s[0] && t[1..] == s[1..] + "\"" + rest;
      ReadNameThrough(s[1..], rest);
      assert [s[0]] + s[1..] == s;
    }
  }

  /** Backslashes still pending at the end. */
  function Trailing(s: string, pending: nat): nat
    decreases |s|
  {
    if s == [] then pending else Trailing(s[1..], if s[0] == '\\' then pending + 1 else 0)
  }

  lemma {:induction false} NoneTrailing(s: string, pending: nat)
    ensures Trailing(s, pending) == 0 <==> if s == [] then pending == 0 else s[|s| - 1] != '\\'
    decreases |s|
  {
    if s != [] {
      NoneTrailing(s[1..], if s[0] == '\\' then pending + 1 else 0);
      if |s| > 1 { assert s[|s| - 1] == s[1..][|s| - 2]; }
    }
  }

  /** Without quotation marks escaping only doubles the backslashes at the end. */
  lemma {:induction false} EscapedPlain(s: string, pending: nat)
    requires '\"' !in s
    ensures Escaped(s, pending) == Slashes(pending) + s + Slashes(Trailing(s, pending))
    decreases |s|
  {
    var more := if s == [] then [] else Slashes(Trailing(s, pending));
    if s == [] {
      assert Slashes(pending * 2) == Slashes(pending) + s + Slashes(pending);
    } else if s[0] == '\\' {
      hide Slashes;
      EscapedPlain(s[1..], pending + 1);
      MoreSlashes(pending, s);
    } else {
      hide Slashes;
      EscapedPlain(s[1..], 0);
      NoSlashes(s[1..]);
      assert Slashes(pending) + [s[0]] + (s[1..] + more) == Slashes(pending) + ([s[0]] + s[1..]) + more;
      HeadTail(pending, s);
    }
  }

  lemma {:induction false} ReadWord(word: string, rest: string, doubled: bool)
    requires forall i | 0 <= i < |word| :: word[i] !in {' ', '\t', '\\', '\"'}
    requires Ends(rest)
    ensures ReadArg(word + rest, false, doubled) == (word, rest)
  {
    if word == [] {
      assert word + rest == rest;
    } else {
      assert (word + rest)[0] == word[0] && (word + rest)[1..] == word[1..] + rest;
      ReadWord(word[1..], rest, doubled);
      assert [word[0]] + word[1..] == word;
    }
  }

  lemma RestReadsBack(input: string, doubled: bool)
    ensures ReadArgs(" /unpack " + Quote(input), doubled) == ["/unpack", input]
  {
    var q := Quote(input);
    QuoteRoundTrip(input, doubled);
    var tail := " " + q;
    var line := " /unpack " + q;
    assert line[1..] == "/unpack" + tail;
    ReadWord("/unpack", tail, doubled);
    assert tail[1..] == q;
    assert ReadArgs(tail, doubled) == ReadArgs(q, doubled);
  }

  /** Main result: the unpacker reads back its own path, the switch and the
      input exactly when the path contains no quotation mark and does not end in
      a backslash; the input may be any string. */
  lemma UnpackCommandReadsBack(program: string, input: string, doubled: bool)
    ensures ReadCommandLine(UnpackCommand(program, input), doubled) == [program, "/unpack", input]
            <==> '\"' !in program && (program == [] || program[|program| - 1] != '\\')
  {
    var line := UnpackCommand(program, input);
    var rest := " /unpack " + Quote(input);
    assert line == "\"" + (Escaped(program, 0) + "\"" + rest);
    assert line[1..] == Escaped(program, 0) + "\"" + rest;
    NameHasNoMark(line, false);
    if '\"' in program {
      assert ReadCommandLine(line, doubled)[0] != program;
    } else {
      var more := Slashes(Trailing(program, 0));
      EscapedPlain(program, 0);
      NoneTrailing(program, 0);
      NoSlashes(program);
      ReadNameThrough(Escaped(program, 0), rest);
      RestReadsBack(input, doubled);
      assert ReadCommandLine(line, doubled) == [program + more, "/unpack", input];
      assert program + more == program <==> |more| == 0;
    }
  }
}
