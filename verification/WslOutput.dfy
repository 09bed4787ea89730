/** The names `wsl.exe` prints: UTF-16LE bytes, one distribution to a line (src/lib/model/wsl_output.cpp). */
module WslOutput {
  import opened Units
  import Text

  const NEWLINE := 0x0A

  predicate OneLine(s: seq<int>) {
    forall k | 0 <= k < |s| :: s[k] != NEWLINE
  }

  predicate Trimmable(c: int) {
    c == 0x0D || c == 0x0A || c == 0x09 || c == 0x00 || c == 0x20
  }

  // ---- Specification -----------------------------------------------------------

  /** The units a byte stream holds; an odd byte at the end is half a unit and is dropped. */
  function UnitsOf(bytes: Bytes): Wide {
    if |bytes| < 2 then [] else [bytes[0] as int + bytes[1] as int * 256] + UnitsOf(bytes[2..])
  }

  /** The stream without its byte-order mark (section 3.2 of RFC 2781). */
  function WithoutMark(bytes: Bytes): Bytes {
    if [0xFF, 0xFE] <= bytes then bytes[2..] else bytes
  }

  function TrimFront(s: Bytes): (r: Bytes)
    ensures |r| <= |s|
    ensures r != [] ==> !Trimmable(r[0])
  {
    if s != [] && Trimmable(s[0]) then TrimFront(s[1..]) else s
  }

  function TrimBack(s: Bytes): (r: Bytes)
    ensures r <= s
    ensures r != [] ==> !Trimmable(r[|r| - 1])
  {
    if s != [] && Trimmable(s[|s| - 1]) then TrimBack(s[..|s| - 1]) else s
  }

  function Trim(s: Bytes): Bytes {
    TrimBack(TrimFront(s))
  }

  /** Where the first line of `s` ends. */
  function LineEnd(s: Bytes): (n: nat)
    ensures n <= |s| && OneLine(s[..n]) && (n < |s| ==> s[n] == NEWLINE)
  {
    if s == [] || s[0] == NEWLINE then 0 else
      var n := 1 + LineEnd(s[1..]);
      assert s[..n] == [s[0]] + s[1..][..n - 1];
      n
  }

  /** The trimmed lines of a text, blank ones left out. */
  function Names(s: Bytes): seq<Bytes>
    decreases |s|
  {
    if s == [] then [] else
      var n := LineEnd(s);
      var name := Trim(s[..n]);
      (if name == [] then [] else [name]) + (if n < |s| then Names(s[n + 1..]) else [])
  }

  function Listed(bytes: Bytes): seq<Bytes> {
    Names(Text.Narrowed(UnitsOf(WithoutMark(bytes))))
  }

  // ---- The code ------------------------------------------------------------------

  lemma UnitsOfOneMore(bytes: Bytes, index: nat)
    requires index + 1 < |bytes|
    ensures UnitsOf(bytes[index..]) ==
            [bytes[index] as int + bytes[index + 1] as int * 256] + UnitsOf(bytes[index + 2..])
  {
    var rest := bytes[index..];
    assert rest[0] == bytes[index] && rest[1] == bytes[index + 1] && rest[2..] == bytes[index + 2..];
  }

  lemma NoUnits(bytes: Bytes)
    requires |bytes| < 2
    ensures UnitsOf(bytes) == []
  {
  }

  lemma AfterTheMark(bytes: Bytes)
    ensures WithoutMark(bytes) == bytes[if |bytes| >= 2 && bytes[0] == 0xFF && bytes[1] == 0xFE then 2 else 0..]
  {
  }

  method DecodeUtf16le(bytes: Bytes) returns (text: Bytes)
    ensures text == Text.Narrowed(UnitsOf(WithoutMark(bytes)))
  {
    hide UnitsOf, WithoutMark, Text.Narrowed;
    var index := 0;
    if |bytes| >= 2 && bytes[0] == 0xFF && bytes[1] == 0xFE {
      index := 2;
    }
    AfterTheMark(bytes);
    ghost var all := UnitsOf(bytes[index..]);
    var units: Wide := [];
    while index + 1 < |bytes|
      invariant index <= |bytes|
      invariant units + UnitsOf(bytes[index..]) == all
    {
      UnitsOfOneMore(bytes, index);
      units := units + [bytes[index] as int + bytes[index + 1] as int * 256];
      index := index + 2;
    }
    NoUnits(bytes[index..]);
    assert units == all;
    text := Text.ToUtf8(units);
  }

  method FindFirst(line: Bytes) returns (first: nat)
    ensures first <= |line| && line[first..] == TrimFront(line)
  {
    first := 0;
    assert line[0..] == line;
    while first < |line| && Trimmable(line[first])
      invariant first <= |line|
      invariant TrimFront(line[first..]) == TrimFront(line)
    {
      assert line[first..][1..] == line[first + 1..];
      first := first + 1;
    }
  }

  method FindLast(line: Bytes) returns (last: nat)
    ensures last <= |line| && line[..last] == TrimBack(line)
  {
    last := |line|;
    assert line[..last] == line;
    while last > 0 && Trimmable(line[last - 1])
      invariant 0 <= last <= |line|
      invariant TrimBack(line[..last]) == TrimBack(line)
    {
      assert line[..last][..last - 1] == line[..last - 1];
      last := last - 1;
    }
  }

  /** The part of a line between its first and its last character worth keeping. */
  method TrimLine(line: Bytes) returns (name: Bytes)
    ensures name == Trim(line)
  {
    hide TrimFront, TrimBack;
    var first := FindFirst(line);
    var last := FindLast(line[first..]);
    name := line[first..][..last];
  }

  /** Where the line that starts at `start` ends. */
  method FindNewline(text: Bytes, start: nat) returns (lineEnd: nat)
    requires start <= |text|
    ensures lineEnd == start + LineEnd(text[start..])
  {
    lineEnd := start;
    while lineEnd < |text| && text[lineEnd] != NEWLINE
      invariant start <= lineEnd <= |text|
      invariant lineEnd + LineEnd(text[lineEnd..]) == start + LineEnd(text[start..])
    {
      assert text[lineEnd..][1..] == text[lineEnd + 1..];
      lineEnd := lineEnd + 1;
    }
  }

  /** The names on one line and the lines after it. */
  lemma NamesOfText(s: Bytes)
    requires s != []
    ensures var n := LineEnd(s);
            Names(s) == (if Trim(s[..n]) == [] then [] else [Trim(s[..n])]) + Names(if n < |s| then s[n + 1..] else [])
  {
    hide Trim, LineEnd;
  }

  lemma NamesTakesOneLine(done: seq<Bytes>, text: Bytes, start: nat)
    requires start < |text|
    ensures var lineEnd := start + LineEnd(text[start..]);
            var name := Trim(text[start..lineEnd]);
            done + Names(text[start..]) == (if name == [] then done else done + [name])
              + Names(text[if lineEnd == |text| then |text| else lineEnd + 1..])
  {
    hide Trim, LineEnd, Names;
    var rest := text[start..];
    var n := LineEnd(rest);
    NamesOfText(rest);
    SlicesOfRest(text, start, n);
    SumsAssociate(done, Trim(rest[..n]), Names(if n < |rest| then rest[n + 1..] else []));
  }

  lemma SlicesOfRest(text: Bytes, start: nat, n: nat)
    requires start + n <= |text|
    ensures text[start..][..n] == text[start..start + n]
    ensures if start + n < |text| then text[start..][n + 1..] == text[start + n + 1..] else text[|text|..] == []
  {
  }

  lemma SumsAssociate(done: seq<Bytes>, name: Bytes, more: seq<Bytes>)
    ensures done + ((if name == [] then [] else [name]) + more) == (if name == [] then done else done + [name]) + more
  {
  }

  lemma NoNames()
    ensures Names([]) == []
  {
  }

  method ParseDistributionList(bytes: Bytes) returns (names: seq<Bytes>)
    ensures names == Listed(bytes)
  {
    var text := DecodeUtf16le(bytes);
    names := NamesIn(text);
  }

  /** The loop over the lines. */
  method NamesIn(text: Bytes) returns (names: seq<Bytes>)
    ensures names == Names(text)
  {
    hide Names, Trim, LineEnd;
    names := [];
    var start := 0;
    assert text[0..] == text;
    while start < |text|
      invariant start <= |text|
      invariant names + Names(text[start..]) == Names(text)
    {
      NamesTakesOneLine(names, text, start);
      var lineEnd := FindNewline(text, start);
      var name := TrimLine(text[start..lineEnd]);
      if name != [] {
        names := names + [name];
      }
      start := if lineEnd == |text| then |text| else lineEnd + 1;
    }
    assert text[start..] == [];
    NoNames();
  }

  // ---- What `wsl.exe` writes -----------------------------------------------------

  /** A printed line: a distribution's name, or white space. */
  datatype Line = Name(name: Wide) | Blank(white: Wide)

  /** A name that survives printing: text of its own, without a line feed, and with no NUL, tab, line feed, carriage return
      or space at either end. */
  predicate Printable(name: Wide) {
    && name != [] && Text.WellFormed16(name) && (forall k | 0 <= k < |name| :: name[k] != 0x0A)
    && name[0] !in {0x00, 0x09, 0x0A, 0x0D, 0x20} && name[|name| - 1] !in {0x00, 0x09, 0x0A, 0x0D, 0x20}
  }

  predicate GoodLine(line: Line) {
    match line
    case Name(name) => Printable(name)
    case Blank(white) => forall k | 0 <= k < |white| :: white[k] in {0x00, 0x09, 0x0D, 0x20}
  }

  /** What trimming takes off, on either side, and where it stops. */
  lemma TrimSays(s: Bytes) returns (front: Bytes, back: Bytes)
    ensures s == front + Trim(s) + back
    ensures forall k | 0 <= k < |front| :: front[k] in {0x00, 0x09, 0x0A, 0x0D, 0x20}
    ensures forall k | 0 <= k < |back| :: back[k] in {0x00, 0x09, 0x0A, 0x0D, 0x20}
    ensures Trim(s) != [] ==>
              && Trim(s)[0] !in {0x00, 0x09, 0x0A, 0x0D, 0x20}
              && Trim(s)[|Trim(s)| - 1] !in {0x00, 0x09, 0x0A, 0x0D, 0x20}
  {
    front := FrontIsWhite(s);
    back := BackIsWhite(TrimFront(s));
    assert Trim(s) != [] ==> Trim(s)[0] == TrimFront(s)[0];
  }

  lemma {:induction false} FrontIsWhite(s: Bytes) returns (front: Bytes)
    ensures s == front + TrimFront(s)
    ensures forall k | 0 <= k < |front| :: front[k] in {0x00, 0x09, 0x0A, 0x0D, 0x20}
  {
    front := [];
    if s != [] && Trimmable(s[0]) {
      var rest := FrontIsWhite(s[1..]);
      front := [s[0]] + rest;
    }
  }

  lemma {:induction false} BackIsWhite(s: Bytes) returns (back: Bytes)
    ensures s == TrimBack(s) + back
    ensures forall k | 0 <= k < |back| :: back[k] in {0x00, 0x09, 0x0A, 0x0D, 0x20}
  {
    back := [];
    if s != [] && Trimmable(s[|s| - 1]) {
      var rest := BackIsWhite(s[..|s| - 1]);
      back := rest + [s[|s| - 1]];
    }
  }

  function LineText(line: Line): Wide {
    (if line.Name? then line.name else line.white) + [0x0D, 0x0A]
  }

  function PageText(page: seq<Line>): Wide {
    if page == [] then [] else LineText(page[0]) + PageText(page[1..])
  }

  function NamesOn(page: seq<Line>): seq<Bytes> {
    if page == [] then []
    else (if page[0].Name? then [Text.Narrowed(page[0].name)] else []) + NamesOn(page[1..])
  }

  function LittleEndian(units: Wide): Bytes {
    if units == [] then [] else [units[0] % 256, units[0] / 256] + LittleEndian(units[1..])
  }

  /** The stream for a page: an optional mark, the lines, and perhaps half of a unit that was cut off. */
  function Stream(page: seq<Line>, mark: bool, tail: Bytes): Bytes {
    (if mark then [0xFF, 0xFE] else []) + LittleEndian(PageText(page)) + tail
  }

  // ---- Proof ---------------------------------------------------------------------

  lemma {:induction false} UnitsOfLittleEndian(units: Wide, tail: Bytes)
    requires |tail| <= 1
    ensures UnitsOf(LittleEndian(units) + tail) == units
  {
    if units != [] {
      var bytes := LittleEndian(units) + tail;
      assert bytes[2..] == LittleEndian(units[1..]) + tail;
      UnitsOfLittleEndian(units[1..], tail);
    }
  }

  lemma {:induction false} NarrowedPlain(s: Wide)
    requires forall k | 0 <= k < |s| :: s[k] < 0x80
    ensures Text.WellFormed16(s) && Text.Narrowed(s) == s
  {
    if s != [] {
      NarrowedPlain(s[1..]);
      assert Text.Decode16One(s) == Text.Decoded(s[0], 1);
    }
  }

  /** A narrowed name has no newline, and nothing trimmable at its ends, because the name had none. */
  lemma {:induction false} NarrowedKeepsLine(name: Wide)
    requires name != [] && Text.WellFormed16(name) && OneLine(name)
    ensures var b := Text.Narrowed(name);
            && b != [] && OneLine(b)
            && (Trimmable(b[0]) ==> Trimmable(name[0]))
            && (Trimmable(b[|b| - 1]) ==> Trimmable(name[|name| - 1]))
  {
    var d := Text.Decode16One(name);
    var rest := name[d.consumed..];
    var head := Text.Utf8(d.code);
    Text.EncodedIsChar(d.code);
    assert OneLine(head) && (Trimmable(head[0]) ==> Trimmable(name[0]));
    assert Text.Narrowed(name) == head + Text.Narrowed(rest);
    if rest == [] {
      assert Text.Narrowed(name) == head;
      assert Trimmable(head[|head| - 1]) ==> |head| == 1;
    } else {
      NarrowedKeepsLine(rest);
    }
  }

  lemma {:induction false} TrimTakesWhite(white: Bytes)
    requires forall k | 0 <= k < |white| :: Trimmable(white[k])
    ensures Trim(white) == []
  {
    if white != [] {
      TrimTakesWhite(white[1..]);
    }
  }

  /** The first line of `line`, a newline, and `rest` is `line`. */
  lemma {:induction false} FirstLine(line: Bytes, rest: Bytes)
    requires OneLine(line)
    ensures LineEnd(line + [NEWLINE] + rest) == |line|
  {
    var s := line + [NEWLINE] + rest;
    if line != [] {
      assert s[1..] == line[1..] + [NEWLINE] + rest;
      FirstLine(line[1..], rest);
    }
  }

  lemma NamesOfFirstLine(line: Bytes, rest: Bytes)
    requires OneLine(line)
    ensures Names(line + [NEWLINE] + rest) == (if Trim(line) == [] then [] else [Trim(line)]) + Names(rest)
  {
    hide Trim, LineEnd;
    var s := line + [NEWLINE] + rest;
    FirstLine(line, rest);
    assert s[..|line|] == line && s[|line| + 1..] == rest;
  }

  lemma {:induction false} WellFormedSum(v: Wide, w: Wide)
    requires Text.WellFormed16(v) && Text.WellFormed16(w)
    ensures Text.WellFormed16(v + w)
  {
    if v == [] {
      assert v + w == w;
    } else {
      var n := Text.Decode16One(v).consumed;
      assert (v + w)[n..] == v[n..] + w;
      WellFormedSum(v[n..], w);
    }
  }

  lemma BodyOfLine(line: Line) returns (body: Bytes)
    requires GoodLine(line)
    ensures Text.WellFormed16(LineText(line)) && Text.Narrowed(LineText(line)) == body + [0x0D, NEWLINE]
    ensures OneLine(body) && body == Text.Narrowed(if line.Name? then line.name else line.white)
    ensures line.Name? ==> body != [] && !Trimmable(body[0]) && !Trimmable(body[|body| - 1])
    ensures line.Blank? ==> forall k | 0 <= k < |body| :: Trimmable(body[k])
  {
    var text := if line.Name? then line.name else line.white;
    body := Text.Narrowed(text);
    if line.Blank? {
      NarrowedPlain(text);
    } else {
      NarrowedKeepsLine(text);
    }
    NarrowedPlain([0x0D, 0x0A]);
    WellFormedSum(text, [0x0D, 0x0A]);
    Text.NarrowedOfSum(text, [0x0D, 0x0A]);
  }

  lemma TrimKeepsName(b: Bytes)
    requires b != [] && !Trimmable(b[0]) && !Trimmable(b[|b| - 1])
    ensures Trim(b + [0x0D]) == b
  {
    var s: Bytes := b + [0x0D];
    assert s[..|s| - 1] == b && s[|s| - 1] == 0x0D && s[0] == b[0];
    assert TrimFront(s) == s && TrimBack(b) == b;
  }

  lemma NamesOfLine(line: Line, after: Bytes)
    requires GoodLine(line)
    ensures Names(Text.Narrowed(LineText(line)) + after) == NamesOn([line]) + Names(after)
  {
    hide Trim, Names;
    var b := BodyOfLine(line);
    assert Text.Narrowed(LineText(line)) + after == (b + [0x0D]) + [NEWLINE] + after;
    NamesOfFirstLine(b + [0x0D], after);
    if line.Blank? {
      TrimTakesWhite(b + [0x0D]);
      assert NamesOn([line]) == [];
    } else {
      TrimKeepsName(b);
      assert NamesOn([line]) == [b];
    }
  }

  lemma {:induction false} NamesOfPage(page: seq<Line>)
    requires forall k | 0 <= k < |page| :: GoodLine(page[k])
    ensures Text.WellFormed16(PageText(page))
    ensures Names(Text.Narrowed(PageText(page))) == NamesOn(page)
  {
    if page != [] {
      var rest := PageText(page[1..]);
      NamesOfPage(page[1..]);
      var _ := BodyOfLine(page[0]);
      WellFormedSum(LineText(page[0]), rest);
      Text.NarrowedOfSum(LineText(page[0]), rest);
      NamesOfLine(page[0], Text.Narrowed(rest));
    }
  }

  lemma MarkIsConsumed(text: Wide, mark: bool, tail: Bytes)
    requires |tail| <= 1
    requires !mark && text != [] ==> text[0] != 0xFEFF
    ensures WithoutMark((if mark then [0xFF, 0xFE] else []) + LittleEndian(text) + tail) == LittleEndian(text) + tail
  {
    if mark {
      MarkIsTaken(LittleEndian(text), tail);
    } else {
      assert [] + LittleEndian(text) == LittleEndian(text);
      NoMarkIsFound(text, tail);
    }
  }

  lemma MarkIsTaken(body: Bytes, tail: Bytes)
    ensures WithoutMark([0xFF, 0xFE] + body + tail) == body + tail
  {
    assert [0xFF, 0xFE] + body + tail == [0xFF, 0xFE] + (body + tail);
  }

  /** A first unit whose two bytes look like a mark is one. */
  lemma NoMarkIsFound(text: Wide, tail: Bytes)
    requires |tail| <= 1 && (text != [] ==> text[0] != 0xFEFF)
    ensures WithoutMark(LittleEndian(text) + tail) == LittleEndian(text) + tail
  {
    var bytes := LittleEndian(text) + tail;
    if text != [] {
      FirstUnit(text);
      assert bytes[0] == LittleEndian(text)[0] && bytes[1] == LittleEndian(text)[1];
    }
  }

  lemma FirstUnit(text: Wide)
    requires text != []
    ensures |LittleEndian(text)| >= 2 && LittleEndian(text)[0] as int + LittleEndian(text)[1] as int * 256 == text[0]
  {
  }

  /** Reading back what was printed gives the printed names, in order: with a mark or without, whatever blank lines
      stand between them, and whatever odd byte the read ended in. */
  lemma ListRoundTrip(page: seq<Line>, mark: bool, tail: Bytes)
    requires forall k | 0 <= k < |page| :: GoodLine(page[k])
    requires |tail| <= 1
    requires !mark && PageText(page) != [] ==> PageText(page)[0] != 0xFEFF
    ensures Listed(Stream(page, mark, tail)) == NamesOn(page)
  {
    MarkIsConsumed(PageText(page), mark, tail);
    UnitsOfLittleEndian(PageText(page), tail);
    NamesOfPage(page);
  }
}
