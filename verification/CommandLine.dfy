/** One command line out of many arguments, and back (src/lib/platform/wsl_host.cpp). */
module CommandLine {
  import opened Units

  const SPACE: Unit := 0x20
  const TAB: Unit := 0x09
  const QUOTE: Unit := 0x22
  const BACKSLASH: Unit := 0x5C

  // ---- Reading: the rules CommandLineToArgvW documents ---------------------------

  predicate Separator(u: Unit) {
    u == SPACE || u == TAB
  }

  /** The number of backslashes `s` begins with. */
  function Slashes(s: Wide): (n: nat)
    ensures n <= |s| && (n < |s| ==> s[n] != BACKSLASH)
  {
    if s == [] || s[0] != BACKSLASH then 0 else 1 + Slashes(s[1..])
  }

  function Repeat(u: Unit, n: nat): (r: Wide)
    ensures |r| == n && forall k | 0 <= k < n :: r[k] == u
  {
    seq(n, _ => u)
  }

  /** `m` backslashes, then `c`, then `t`. */
  function After(m: nat, c: Unit, t: Wide): Wide {
    Repeat(BACKSLASH, m) + [c] + t
  }

  datatype Piece = Piece(text: Wide, rest: Wide)

  /** One argument, from inside or outside quotes: 2n backslashes and a quote are n backslashes and a quote that opens or
      closes; 2n+1 are n backslashes and a literal quote; backslashes before anything else are themselves. Inside quotes
      a pair of quotes may also be one literal quote, which readers differ on: `pairs` says which kind this one is. */
  function ReadArgument(s: Wide, quoted: bool, pairs: bool): (p: Piece)
    ensures |p.rest| <= |s|
    ensures p.rest != [] ==> Separator(p.rest[0])
    decreases |s|
  {
    var n := Slashes(s);
    if n == |s| then Piece(Repeat(BACKSLASH, n), [])
    else if s[n] == QUOTE then
      if n % 2 == 1 then Then(Repeat(BACKSLASH, n / 2) + [QUOTE], ReadArgument(s[n + 1..], quoted, pairs))
      else if quoted && pairs && n + 1 < |s| && s[n + 1] == QUOTE then
        Then(Repeat(BACKSLASH, n / 2) + [QUOTE], ReadArgument(s[n + 2..], quoted, pairs))
      else Then(Repeat(BACKSLASH, n / 2), ReadArgument(s[n + 1..], !quoted, pairs))
    else if !quoted && Separator(s[n]) then Piece(Repeat(BACKSLASH, n), s[n..])
    else Then(Repeat(BACKSLASH, n) + [s[n]], ReadArgument(s[n + 1..], quoted, pairs))
  }

  function Then(text: Wide, p: Piece): Piece {
    Piece(text + p.text, p.rest)
  }

  function SkipSeparators(s: Wide): (r: Wide)
    ensures |r| <= |s| && (r != [] ==> !Separator(r[0]))
  {
    if s != [] && Separator(s[0]) then SkipSeparators(s[1..]) else s
  }

  function ReadArguments(s: Wide, pairs: bool): seq<Wide>
    decreases |s|
  {
    var t := SkipSeparators(s);
    if t == [] then [] else
      var p := ReadArgument(t, false, pairs);
      ArgumentIsRead(t, pairs);
      [p.text] + ReadArguments(p.rest, pairs)
  }

  lemma ArgumentIsRead(t: Wide, pairs: bool)
    requires t != [] && !Separator(t[0])
    ensures |ReadArgument(t, false, pairs).rest| < |t|
  {
  }

  /** The program name is read by other rules: it ends at the first separator, or at its closing quote. */
  function ProgramName(s: Wide): (p: Piece)
    ensures |p.rest| <= |s|
  {
    if s != [] && s[0] == QUOTE then
      var n := Find(s[1..], QUOTE);
      Piece(s[1..][..n], if n + 2 <= |s| then s[n + 2..] else [])
    else
      var n := FindSeparator(s);
      Piece(s[..n], s[n..])
  }

  function Find(s: Wide, u: Unit): (n: nat)
    ensures n <= |s|
  {
    if s == [] || s[0] == u then 0 else 1 + Find(s[1..], u)
  }

  function FindSeparator(s: Wide): (n: nat)
    ensures n <= |s|
  {
    if s == [] || Separator(s[0]) then 0 else 1 + FindSeparator(s[1..])
  }

  /** The text a program is handed: it ends at the first NUL. */
  function UpToNul(s: Wide): Wide {
    s[..Find(s, 0)]
  }

  /** What a child process makes of a command line. */
  function ReadCommandLine(line: Wide, pairs: bool): seq<Wide> {
    var p := ProgramName(UpToNul(line));
    [p.text] + ReadArguments(p.rest, pairs)
  }

  // ---- Writing ---------------------------------------------------------------------

  predicate NeedsQuotes(argument: Wide) {
    argument == [] || exists k | 0 <= k < |argument| :: argument[k] in {SPACE, TAB, 0x0A, 0x0B, QUOTE}
  }

  /** An argument is written as it is exactly when it has something and no space, tab, line feed, vertical tab or quote. */
  lemma WrittenAsItIs(argument: Wide)
    ensures Written(argument) == argument <==>
            argument != [] && forall k | 0 <= k < |argument| :: argument[k] !in {0x20, 0x09, 0x0A, 0x0B, 0x22}
  {
    if NeedsQuotes(argument) {
      EscapedIsNoShorter(argument);
    }
  }

  lemma {:induction false} EscapedIsNoShorter(s: Wide)
    ensures |Escaped(s)| >= |s|
    decreases |s|
  {
    var n := Slashes(s);
    if n < |s| {
      EscapedIsNoShorter(s[n + 1..]);
    }
  }

  /** The inside of a quoted argument: backslashes double before a quote and before the closing one. */
  function Escaped(s: Wide): Wide
    decreases |s|
  {
    var n := Slashes(s);
    if n == |s| then Repeat(BACKSLASH, 2 * n)
    else After(if s[n] == QUOTE then 2 * n + 1 else n, s[n], Escaped(s[n + 1..]))
  }

  function Written(argument: Wide): (r: Wide)
    ensures r != []
  {
    if NeedsQuotes(argument) then [QUOTE] + Escaped(argument) + [QUOTE] else argument
  }

  function Line(arguments: seq<Wide>): (r: Wide)
    ensures arguments != [] ==> r != []
  {
    if arguments == [] then [] else
      var front := Line(arguments[..|arguments| - 1]);
      (if front == [] then [] else front + [SPACE]) + Written(arguments[|arguments| - 1])
  }

  method CountBackslashes(argument: Wide, from: nat) returns (index: nat)
    requires from <= |argument|
    ensures index == from + Slashes(argument[from..])
  {
    index := from;
    while index < |argument| && argument[index] == BACKSLASH
      invariant from <= index <= |argument|
      invariant index + Slashes(argument[index..]) == from + Slashes(argument[from..])
    {
      assert argument[index..][1..] == argument[index + 1..];
      index := index + 1;
    }
  }

  /** Appending what one run and the character after it are written as. */
  lemma EscapedFrom(done: Wide, argument: Wide, from: nat, end: nat)
    requires from <= |argument| && end == from + Slashes(argument[from..])
    ensures end <= |argument|
    ensures end == |argument| ==> Escaped(argument[from..]) == Repeat(BACKSLASH, (end - from) * 2)
    ensures end < |argument| ==>
              var run := if argument[end] == QUOTE then (end - from) * 2 + 1 else end - from;
              done + Repeat(BACKSLASH, run) + [argument[end]] + Escaped(argument[end + 1..])
                == done + Escaped(argument[from..])
  {
    hide Slashes;
    var s := argument[from..];
    if end < |argument| {
      var run := if argument[end] == QUOTE then (end - from) * 2 + 1 else end - from;
      assert s[end - from] == argument[end] && s[end - from + 1..] == argument[end + 1..];
      AppendedRun(done, run, argument[end], Escaped(argument[end + 1..]));
    }
  }

  lemma AppendedRun(done: Wide, m: nat, c: Unit, t: Wide)
    ensures done + Repeat(BACKSLASH, m) + [c] + t == done + After(m, c, t)
  {
  }

  /** One argument's inside, appended with the backslashes counted run by run. */
  method AppendEscaped(line: Wide, argument: Wide) returns (longer: Wide)
    ensures longer == line + Escaped(argument)
  {
    hide Slashes, Escaped;
    longer := line;
    var index := 0;
    assert argument[0..] == argument;
    while index < |argument|
      invariant 0 <= index <= |argument|
      invariant longer + Escaped(argument[index..]) == line + Escaped(argument)
    {
      var end := CountBackslashes(argument, index);
      EscapedFrom(longer, argument, index, end);
      var backslashes := end - index;
      if end == |argument| {
        longer := longer + Repeat(BACKSLASH, backslashes * 2);
        return;
      }
      if argument[end] == QUOTE {
        longer := longer + Repeat(BACKSLASH, backslashes * 2 + 1);
      } else {
        longer := longer + Repeat(BACKSLASH, backslashes);
      }
      longer := longer + [argument[end]];
      index := end + 1;
    }
    NothingToEscape();
    assert argument[index..] == [];
  }

  lemma NothingToEscape()
    ensures Escaped([]) == []
  {
  }

  lemma LineOfOneMore(arguments: seq<Wide>, i: nat)
    requires i < |arguments|
    ensures Line(arguments[..i + 1]) ==
            (if Line(arguments[..i]) == [] then [] else Line(arguments[..i]) + [SPACE]) + Written(arguments[i])
  {
    assert arguments[..i + 1][..i] == arguments[..i];
  }

  method BuildCommandLine(arguments: seq<Wide>) returns (line: Wide)
    ensures line == Line(arguments)
  {
    line := [];
    for i := 0 to |arguments|
      invariant line == Line(arguments[..i])
    {
      LineOfOneMore(arguments, i);
      if line != [] {
        line := line + [SPACE];
      }
      if NeedsQuotes(arguments[i]) {
        var inner := AppendEscaped([QUOTE], arguments[i]);
        line := line + (inner + [QUOTE]);
      } else {
        line := line + arguments[i];
      }
    }
    assert arguments[..|arguments|] == arguments;
  }

  // ---- Reading undoes writing ---------------------------------------------------------

  /** What may follow an argument: nothing, or the space before the next one. */
  predicate Ends(rest: Wide) {
    rest == [] || rest[0] == SPACE
  }

  lemma {:induction false} SlashesOfRun(m: nat, t: Wide)
    requires t == [] || t[0] != BACKSLASH
    ensures Slashes(Repeat(BACKSLASH, m) + t) == m
  {
    if m > 0 {
      assert (Repeat(BACKSLASH, m) + t)[1..] == Repeat(BACKSLASH, m - 1) + t;
      SlashesOfRun(m - 1, t);
    } else {
      assert Repeat(BACKSLASH, m) + t == t;
    }
  }

  lemma {:induction false} SlashesAreLeading(s: Wide)
    ensures s[..Slashes(s)] == Repeat(BACKSLASH, Slashes(s))
  {
    if s != [] && s[0] == BACKSLASH {
      SlashesAreLeading(s[1..]);
      assert s[..Slashes(s)] == [BACKSLASH] + s[1..][..Slashes(s[1..])];
    }
  }

  lemma SplitAt(s: Wide, n: nat)
    requires n < |s|
    ensures s == s[..n] + [s[n]] + s[n + 1..]
  {
  }

  lemma WholeIsPrefix(s: Wide)
    ensures s[..|s|] == s
  {
  }

  /** A text is its leading backslashes, the character after them, and the rest. */
  lemma SplitAfterSlashes(s: Wide)
    ensures var n := Slashes(s);
            if n == |s| then s == Repeat(BACKSLASH, n) else s == After(n, s[n], s[n + 1..])
  {
    hide Slashes, Repeat;
    SlashesAreLeading(s);
    if Slashes(s) == |s| {
      WholeIsPrefix(s);
    } else {
      SplitAt(s, Slashes(s));
    }
  }

  lemma AfterThenMore(m: nat, c: Unit, t: Wide, u: Wide)
    ensures After(m, c, t) + u == After(m, c, t + u)
  {
  }

  lemma AfterParts(m: nat, c: Unit, t: Wide)
    requires c != BACKSLASH
    ensures var s := After(m, c, t); Slashes(s) == m < |s| && s[m] == c && s[m + 1..] == t
  {
    assert After(m, c, t) == Repeat(BACKSLASH, m) + ([c] + t);
    SlashesOfRun(m, [c] + t);
  }

  /** Reading one run of backslashes and the quote after it. */
  lemma ReadQuoteAfter(m: nat, t: Wide, quoted: bool, pairs: bool)
    requires quoted && pairs && m % 2 == 0 ==> t == [] || t[0] != QUOTE
    ensures ReadArgument(After(m, QUOTE, t), quoted, pairs) ==
            if m % 2 == 1 then Then(Repeat(BACKSLASH, m / 2) + [QUOTE], ReadArgument(t, quoted, pairs))
            else Then(Repeat(BACKSLASH, m / 2), ReadArgument(t, !quoted, pairs))
  {
    AfterParts(m, QUOTE, t);
    var s := After(m, QUOTE, t);
    assert m + 1 < |s| ==> s[m + 1] == s[m + 1..][0];
  }

  /** Reading one run of backslashes and an ordinary character after it. */
  lemma ReadOrdinaryAfter(m: nat, c: Unit, t: Wide, quoted: bool, pairs: bool)
    requires c != QUOTE && c != BACKSLASH && (quoted || !Separator(c))
    ensures ReadArgument(After(m, c, t), quoted, pairs) ==
            Then(Repeat(BACKSLASH, m) + [c], ReadArgument(t, quoted, pairs))
  {
    AfterParts(m, c, t);
  }

  lemma ReadEnd(m: nat, rest: Wide, pairs: bool)
    requires Ends(rest)
    ensures ReadArgument(Repeat(BACKSLASH, m) + rest, false, pairs) == Piece(Repeat(BACKSLASH, m), rest)
  {
    SlashesOfRun(m, rest);
    assert (Repeat(BACKSLASH, m) + rest)[m..] == rest;
  }

  /** Backslashes that end a quoted argument. */
  lemma ReadClosing(n: nat, rest: Wide, pairs: bool)
    requires Ends(rest)
    ensures ReadArgument(Repeat(BACKSLASH, 2 * n) + ([QUOTE] + rest), true, pairs) == Piece(Repeat(BACKSLASH, n), rest)
  {
    var run := Repeat(BACKSLASH, n);
    assert Repeat(BACKSLASH, 2 * n) + ([QUOTE] + rest) == After(2 * n, QUOTE, rest);
    assert 2 * n % 2 == 0 && 2 * n / 2 == n;
    ReadQuoteAfter(2 * n, rest, true, pairs);
    ReadEnd(0, rest, pairs);
    assert Repeat(BACKSLASH, 0) + rest == rest;
    assert Then(run, Piece([], rest)) == Piece(run, rest);
  }

  /** One run of backslashes, as it is written inside quotes, read back. */
  lemma ReadOneRun(n: nat, c: Unit, more: Wide, tail: Wide, pairs: bool)
    requires c != BACKSLASH
    ensures var m := if c == QUOTE then 2 * n + 1 else n;
            ReadArgument(After(m, c, more) + tail, true, pairs) ==
            Then(Repeat(BACKSLASH, n) + [c], ReadArgument(more + tail, true, pairs))
  {
    hide ReadArgument, After, Repeat, Then;
    if c == QUOTE {
      AfterThenMore(2 * n + 1, c, more, tail);
      assert (2 * n + 1) % 2 == 1 && (2 * n + 1) / 2 == n;
      ReadQuoteAfter(2 * n + 1, more + tail, true, pairs);
    } else {
      AfterThenMore(n, c, more, tail);
      ReadOrdinaryAfter(n, c, more + tail, true, pairs);
    }
  }

  lemma {:induction false} ReadEscaped(argument: Wide, rest: Wide, pairs: bool)
    requires Ends(rest)
    ensures ReadArgument(Escaped(argument) + ([QUOTE] + rest), true, pairs) == Piece(argument, rest)
    decreases |argument|
  {
    hide ReadArgument, Slashes;
    var n := Slashes(argument);
    SplitAfterSlashes(argument);
    if n == |argument| {
      ReadClosing(n, rest, pairs);
    } else {
      var more := argument[n + 1..];
      ReadEscaped(more, rest, pairs);
      ReadOneRun(n, argument[n], Escaped(more), [QUOTE] + rest, pairs);
    }
  }

  lemma {:induction false} ReadPlain(argument: Wide, rest: Wide, pairs: bool)
    requires Ends(rest)
    requires forall k | 0 <= k < |argument| :: argument[k] != QUOTE && !Separator(argument[k])
    ensures ReadArgument(argument + rest, false, pairs) == Piece(argument, rest)
    decreases |argument|
  {
    hide ReadArgument, Slashes;
    var n := Slashes(argument);
    SplitAfterSlashes(argument);
    if n == |argument| {
      ReadEnd(n, rest, pairs);
    } else {
      var c, more := argument[n], argument[n + 1..];
      ReadPlain(more, rest, pairs);
      AfterThenMore(n, c, more, rest);
      ReadOrdinaryAfter(n, c, more + rest, false, pairs);
    }
  }

  lemma ReadWritten(argument: Wide, rest: Wide, pairs: bool)
    requires Ends(rest)
    ensures ReadArgument(Written(argument) + rest, false, pairs) == Piece(argument, rest)
    ensures !Separator(Written(argument)[0])
  {
    hide ReadArgument, Escaped;
    if NeedsQuotes(argument) {
      var inner := Escaped(argument) + ([QUOTE] + rest);
      ReadEscaped(argument, rest, pairs);
      ReadQuoteAfter(0, inner, false, pairs);
      assert Written(argument) + rest == After(0, QUOTE, inner);
    } else {
      assert forall k | 0 <= k < |argument| :: argument[k] !in {SPACE, TAB, 0x0A, 0x0B, QUOTE};
      ReadPlain(argument, rest, pairs);
    }
  }

  /** The line after the program name. */
  function Tail(arguments: seq<Wide>): (r: Wide)
    ensures Ends(r)
  {
    if arguments == [] then [] else [SPACE] + Written(arguments[0]) + Tail(arguments[1..])
  }

  lemma {:induction false} LineIsProgramAndTail(program: Wide, arguments: seq<Wide>)
    ensures Line([program] + arguments) == Written(program) + Tail(arguments)
  {
    hide Written;
    if arguments == [] {
      assert Line([program]) == Written(program);
      assert [program] + arguments == [program] && Written(program) + [] == Written(program);
    } else {
      var front, last := arguments[..|arguments| - 1], arguments[|arguments| - 1];
      LineIsProgramAndTail(program, front);
      TailOfOneMore(front, last);
      assert arguments == front + [last];
      assert ([program] + arguments)[..|arguments|] == [program] + front;
    }
  }

  lemma {:induction false} TailOfOneMore(front: seq<Wide>, last: Wide)
    ensures Tail(front + [last]) == Tail(front) + [SPACE] + Written(last)
  {
    if front != [] {
      assert (front + [last])[1..] == front[1..] + [last];
      TailOfOneMore(front[1..], last);
    } else {
      assert front + [last] == [last] && Tail([last]) == [SPACE] + Written(last) + [];
    }
  }

  lemma {:induction false} ReadTail(arguments: seq<Wide>, pairs: bool)
    ensures ReadArguments(Tail(arguments), pairs) == arguments
  {
    if arguments != [] {
      var rest := Tail(arguments[1..]);
      var t := Written(arguments[0]) + rest;
      ReadWritten(arguments[0], rest, pairs);
      assert Tail(arguments) == [SPACE] + t;
      assert SkipSeparators(Tail(arguments)) == t;
      ReadTail(arguments[1..], pairs);
    }
  }

  // ---- NUL ends a command line ---------------------------------------------------------

  predicate Free(s: Wide, u: Unit) {
    forall k | 0 <= k < |s| :: s[k] != u
  }

  lemma {:induction false} FindMissesNothing(s: Wide, u: Unit)
    ensures Free(s[..Find(s, u)], u)
    ensures Free(s, u) <==> Find(s, u) == |s|
  {
    if s != [] && s[0] != u {
      FindMissesNothing(s[1..], u);
      assert s[..Find(s, u)] == [s[0]] + s[1..][..Find(s[1..], u)];
      assert s == [s[0]] + s[1..];
    }
  }

  lemma FreeAfter(m: nat, c: Unit, t: Wide)
    ensures Free(After(m, c, t), 0) <==> c != 0 && Free(t, 0)
  {
    FreeOfSum(Repeat(BACKSLASH, m) + [c], t);
    FreeOfSum(Repeat(BACKSLASH, m), [c]);
    assert [c][0] == c;
  }

  lemma {:induction false} EscapedIsFree(s: Wide)
    ensures Free(Escaped(s), 0) <==> Free(s, 0)
    decreases |s|
  {
    var n := Slashes(s);
    SplitAfterSlashes(s);
    if n < |s| {
      EscapedIsFree(s[n + 1..]);
      FreeAfter(n, s[n], s[n + 1..]);
      FreeAfter(if s[n] == QUOTE then 2 * n + 1 else n, s[n], Escaped(s[n + 1..]));
    }
  }

  lemma FreeOfSum(s: Wide, t: Wide)
    ensures Free(s + t, 0) <==> Free(s, 0) && Free(t, 0)
  {
    if Free(s + t, 0) {
      assert forall k | 0 <= k < |s| :: (s + t)[k] == s[k];
      assert forall k | 0 <= k < |t| :: (s + t)[|s| + k] == t[k];
    }
  }

  lemma {:induction false} TailIsFree(arguments: seq<Wide>)
    ensures Free(Tail(arguments), 0) <==> forall k | 0 <= k < |arguments| :: Free(arguments[k], 0)
  {
    if arguments != [] {
      var first, rest := arguments[0], Tail(arguments[1..]);
      TailIsFree(arguments[1..]);
      WrittenIsFree(first);
      assert Tail(arguments) == [SPACE] + (Written(first) + rest);
      FreeOfSum([SPACE], Written(first) + rest);
      FreeOfSum(Written(first), rest);
      assert forall k | 0 < k < |arguments| :: arguments[k] == arguments[1..][k - 1];
    }
  }

  lemma WrittenIsFree(argument: Wide)
    ensures Free(Written(argument), 0) <==> Free(argument, 0)
  {
    if NeedsQuotes(argument) {
      EscapedIsFree(argument);
      FreeOfSum([QUOTE] + Escaped(argument), [QUOTE]);
      FreeOfSum([QUOTE], Escaped(argument));
    }
  }

  predicate FreePiece(p: Piece) {
    Free(p.text, 0) && Free(p.rest, 0)
  }

  lemma ThenStaysFree(text: Wide, p: Piece)
    requires Free(text, 0) && FreePiece(p)
    ensures FreePiece(Then(text, p))
  {
  }

  lemma {:induction false} ReadArgumentStaysFree(s: Wide, quoted: bool, pairs: bool)
    requires Free(s, 0)
    ensures FreePiece(ReadArgument(s, quoted, pairs))
    decreases |s|
  {
    var n := Slashes(s);
    if n < |s| {
      var next := s[n + 1..];
      ReadArgumentStaysFree(next, quoted, pairs);
      ReadArgumentStaysFree(next, !quoted, pairs);
      if s[n] == QUOTE {
        ThenStaysFree(Repeat(BACKSLASH, n / 2) + [QUOTE], ReadArgument(next, quoted, pairs));
        ThenStaysFree(Repeat(BACKSLASH, n / 2), ReadArgument(next, !quoted, pairs));
        if n + 1 < |s| {
          ReadArgumentStaysFree(s[n + 2..], quoted, pairs);
          ThenStaysFree(Repeat(BACKSLASH, n / 2) + [QUOTE], ReadArgument(s[n + 2..], quoted, pairs));
        }
      } else {
        ThenStaysFree(Repeat(BACKSLASH, n) + [s[n]], ReadArgument(next, quoted, pairs));
      }
    }
  }

  lemma {:induction false} ReadArgumentsStayFree(s: Wide, pairs: bool)
    requires Free(s, 0)
    ensures forall k | 0 <= k < |ReadArguments(s, pairs)| :: Free(ReadArguments(s, pairs)[k], 0)
    decreases |s|
  {
    var t := SkipSeparators(s);
    SkippingStaysFree(s);
    if t != [] {
      ArgumentIsRead(t, pairs);
      ReadArgumentStaysFree(t, false, pairs);
      ReadArgumentsStayFree(ReadArgument(t, false, pairs).rest, pairs);
    }
  }

  lemma {:induction false} SkippingStaysFree(s: Wide)
    requires Free(s, 0)
    ensures Free(SkipSeparators(s), 0)
  {
    if s != [] && Separator(s[0]) {
      SkippingStaysFree(s[1..]);
    }
  }

  /** `wsl.exe`, the program every line starts with. */
  const WSL: Wide := [0x77, 0x73, 0x6C, 0x2E, 0x65, 0x78, 0x65]

  lemma ProgramIsWsl(rest: Wide)
    requires Ends(rest)
    ensures ProgramName(WSL + rest) == Piece(WSL, rest)
  {
    FirstSeparator(WSL, rest);
    assert (WSL + rest)[..|WSL|] == WSL && (WSL + rest)[|WSL|..] == rest;
  }

  lemma {:induction false} FirstSeparator(s: Wide, rest: Wide)
    requires Ends(rest) && forall k | 0 <= k < |s| :: !Separator(s[k])
    ensures FindSeparator(s + rest) == |s|
  {
    if s != [] {
      assert (s + rest)[1..] == s[1..] + rest;
      FirstSeparator(s[1..], rest);
    } else {
      assert s + rest == rest;
    }
  }

  lemma WslNeedsNoQuotes()
    ensures Written(WSL) == WSL && Free(WSL, 0)
  {
    assert forall k | 0 <= k < 7 :: WSL[k] > 0x22;
  }

  lemma NoneReadHoldsNul(line: Wide, pairs: bool, k: nat)
    requires k + 1 < |ReadCommandLine(line, pairs)|
    ensures Free(ReadCommandLine(line, pairs)[k + 1], 0)
  {
    FindMissesNothing(line, 0);
    var p := ProgramName(UpToNul(line));
    assert Free(p.rest, 0);
    ReadArgumentsStayFree(p.rest, pairs);
  }

  /** The child sees exactly the arguments it was given, whichever kind of reader it uses, as long as none holds a NUL:
      a NUL ends the line it is in, and no quoting can keep it. */
  lemma ArgumentsSurvive(arguments: seq<Wide>, pairs: bool)
    ensures ReadCommandLine(Line([WSL] + arguments), pairs) == [WSL] + arguments
       <==> forall k | 0 <= k < |arguments| :: Free(arguments[k], 0)
  {
    hide Line, ReadCommandLine, Free;
    if forall k | 0 <= k < |arguments| :: Free(arguments[k], 0) {
      FreeArgumentsSurvive(arguments, pairs);
    }
    var line := Line([WSL] + arguments);
    if ReadCommandLine(line, pairs) == [WSL] + arguments {
      forall k | 0 <= k < |arguments|
        ensures Free(arguments[k], 0)
      {
        NoneReadHoldsNul(line, pairs, k);
        assert ([WSL] + arguments)[k + 1] == arguments[k];
      }
    }
  }

  lemma NothingIsCut(line: Wide)
    requires Free(line, 0)
    ensures UpToNul(line) == line
  {
    FindMissesNothing(line, 0);
    WholeIsPrefix(line);
  }

  lemma FreeArgumentsSurvive(arguments: seq<Wide>, pairs: bool)
    requires forall k | 0 <= k < |arguments| :: Free(arguments[k], 0)
    ensures ReadCommandLine(Line([WSL] + arguments), pairs) == [WSL] + arguments
  {
    hide Line, Tail, ReadArguments, Written, ProgramName, UpToNul, Free;
    LineIsProgramAndTail(WSL, arguments);
    WslNeedsNoQuotes();
    TailIsFree(arguments);
    FreeOfSum(WSL, Tail(arguments));
    NothingIsCut(Line([WSL] + arguments));
    ProgramIsWsl(Tail(arguments));
    ReadTail(arguments, pairs);
  }
}
