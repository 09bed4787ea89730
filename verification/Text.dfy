/** Conversions between UTF-16 and UTF-8 (src/lib/model/text.cpp), which repair malformed input instead of failing. */
module Text {
  import opened Units

  const REPLACEMENT: Scalar := 0xFFFD

  // ---- One code point ------------------------------------------------------

  /** The bytes one code point is written as; the bit masks of the source are divisions and remainders here. */
  function Utf8(c: Scalar): Bytes {
    if c < 0x80 then [c]
    else if c < 0x800 then [0xC0 + c / 64, 0x80 + c % 64]
    else if c < 0x10000 then [0xE0 + c / 64 / 64, 0x80 + c / 64 % 64, 0x80 + c % 64]
    else [0xF0 + c / 64 / 64 / 64, 0x80 + c / 64 / 64 % 64, 0x80 + c / 64 % 64, 0x80 + c % 64]
  }

  /** The units one code point is written as. */
  function Utf16(c: Scalar): Wide {
    if c < 0x10000 then [c]
    else [0xD800 + (c - 0x10000) / 1024, 0xDC00 + (c - 0x10000) % 1024]
  }

  function Encode8(s: seq<Scalar>): Bytes {
    if s == [] then [] else Utf8(s[0]) + Encode8(s[1..])
  }

  function Encode16(s: seq<Scalar>): Wide {
    if s == [] then [] else Utf16(s[0]) + Encode16(s[1..])
  }

  // ---- Well-formedness, from the standards ---------------------------------

  predicate Continuation(b: Byte) {
    0x80 <= b < 0xC0
  }

  /** One UTF8-char of the grammar in section 4 of RFC 3629. */
  predicate Utf8Char(s: Bytes) {
    match |s|
    case 1 => s[0] <= 0x7F
    case 2 => 0xC2 <= s[0] <= 0xDF && Continuation(s[1])
    case 3 =>
      && Continuation(s[2])
      && (|| (s[0] == 0xE0 && 0xA0 <= s[1] <= 0xBF)
          || (0xE1 <= s[0] <= 0xEC && Continuation(s[1]))
          || (s[0] == 0xED && 0x80 <= s[1] <= 0x9F)
          || (0xEE <= s[0] <= 0xEF && Continuation(s[1])))
    case 4 =>
      && Continuation(s[2]) && Continuation(s[3])
      && (|| (s[0] == 0xF0 && 0x90 <= s[1] <= 0xBF)
          || (0xF1 <= s[0] <= 0xF3 && Continuation(s[1]))
          || (s[0] == 0xF4 && 0x80 <= s[1] <= 0x8F))
    case _ => false
  }

  /** UTF8-octets of section 4 of RFC 3629: a run of UTF8-chars. */
  predicate WellFormed8(b: Bytes)
    decreases |b|
  {
    b == [] || exists n | 1 <= n <= 4 && n <= |b| :: Utf8Char(b[..n]) && WellFormed8(b[n..])
  }

  /** Sections 2.1 and 2.2 of RFC 2781: every high surrogate is followed by a low one, and no low one stands alone. */
  predicate WellFormed16(w: Wide) {
    if w == [] then true
    else if !(0xD800 <= w[0] < 0xE000) then WellFormed16(w[1..])
    else w[0] < 0xDC00 && |w| >= 2 && 0xDC00 <= w[1] < 0xE000 && WellFormed16(w[2..])
  }

  // ---- What the decoders read ----------------------------------------------

  datatype Decoded = Decoded(code: Scalar, consumed: nat)

  /** How many bytes the first byte claims; a byte that cannot start a character claims itself alone. */
  function Claimed(lead: Byte): (n: nat)
    ensures 1 <= n <= 4
  {
    if 0xC0 <= lead < 0xE0 then 2
    else if 0xE0 <= lead < 0xF0 then 3
    else if 0xF0 <= lead < 0xF8 then 4
    else 1
  }

  /** The number of continuation bytes `b` begins with. */
  function Run(b: Bytes): (n: nat)
    ensures n <= |b|
  {
    if b == [] || !Continuation(b[0]) then 0 else 1 + Run(b[1..])
  }

  /** The payload bits of a continuation byte. */
  function Low6(b: Byte): (r: int)
    ensures 0 <= r < 64
  {
    b % 64
  }

  /** What a UTF8-char stands for, read from its payload bits. */
  function Payload(s: Bytes): int
    requires 1 <= |s| <= 4
  {
    var lead: int := s[0];
    match |s|
    case 1 => lead
    case 2 => lead % 32 * 64 + Low6(s[1])
    case 3 => (lead % 16 * 64 + Low6(s[1])) * 64 + Low6(s[2])
    case 4 => ((lead % 8 * 64 + Low6(s[1])) * 64 + Low6(s[2])) * 64 + Low6(s[3])
  }

  /** One step of the repairing decoder: a UTF8-char if one starts here, or else U+FFFD for the lead byte and the
      continuation bytes that follow it, never more bytes than the lead byte claimed. */
  function Decode8One(b: Bytes): (d: Decoded)
    requires b != []
    ensures 1 <= d.consumed <= |b| && d.consumed <= 4
  {
    var n := Claimed(b[0]);
    if n <= |b| && Utf8Char(b[..n]) then
      PayloadIsScalar(b[..n]);
      Decoded(Payload(b[..n]), n)
    else
      Decoded(REPLACEMENT, 1 + Run(b[1..Min(n, |b|)]))
  }

  function Decode8(b: Bytes): seq<Scalar> {
    if b == [] then [] else [Decode8One(b).code] + Decode8(b[Decode8One(b).consumed..])
  }

  /** One step of the UTF-16 decoder: a pair, a plain unit, or U+FFFD for a lone surrogate. */
  function Decode16One(w: Wide): (d: Decoded)
    requires w != []
    ensures 1 <= d.consumed <= |w|
  {
    if !(0xD800 <= w[0] < 0xE000) then Decoded(w[0], 1)
    else if w[0] < 0xDC00 && |w| >= 2 && 0xDC00 <= w[1] < 0xE000 then
      Decoded(0x10000 + (w[0] as int - 0xD800) * 1024 + (w[1] as int - 0xDC00), 2)
    else Decoded(REPLACEMENT, 1)
  }

  function Decode16(w: Wide): seq<Scalar> {
    if w == [] then [] else [Decode16One(w).code] + Decode16(w[Decode16One(w).consumed..])
  }

  /** The UTF-8 text of a wide string, and the wide string of a UTF-8 text. */
  function Narrowed(w: Wide): Bytes {
    Encode8(Decode16(w))
  }

  function Widened(b: Bytes): Wide {
    Encode16(Decode8(b))
  }

  // ---- A character and its code point determine each other -------------------

  lemma SplitsBySixBits(high: int, low: int)
    requires 0 <= low < 64
    ensures (high * 64 + low) / 64 == high && (high * 64 + low) % 64 == low
  {
  }

  lemma LeadBits(lead: Byte)
    ensures 0xC0 <= lead < 0xE0 ==> lead % 32 == lead - 0xC0
    ensures 0xE0 <= lead < 0xF0 ==> lead % 16 == lead - 0xE0
    ensures 0xF0 <= lead < 0xF8 ==> lead % 8 == lead - 0xF0
    ensures Continuation(lead) ==> Low6(lead) == lead - 0x80
  {
  }

  lemma PayloadIsScalar2(s: Bytes)
    requires |s| == 2 && Utf8Char(s)
    ensures 0x80 <= Payload(s) < 0x800 && Utf8(Payload(s)) == s
  {
    LeadBits(s[0]);
    LeadBits(s[1]);
    SplitsBySixBits(s[0] as int - 0xC0, s[1] as int - 0x80);
  }

  lemma PayloadIsScalar3(s: Bytes)
    requires |s| == 3 && Utf8Char(s)
    ensures 0x800 <= Payload(s) < 0x10000 && !(0xD800 <= Payload(s) < 0xE000) && Utf8(Payload(s)) == s
  {
    LeadBits(s[0]);
    LeadBits(s[1]);
    LeadBits(s[2]);
    var high := (s[0] as int - 0xE0) * 64 + (s[1] as int - 0x80);
    SplitsBySixBits(s[0] as int - 0xE0, s[1] as int - 0x80);
    SplitsBySixBits(high, s[2] as int - 0x80);
  }

  lemma PayloadIsScalar4(s: Bytes)
    requires |s| == 4 && Utf8Char(s)
    ensures 0x10000 <= Payload(s) < 0x110000 && Utf8(Payload(s)) == s
  {
    LeadBits(s[0]);
    LeadBits(s[1]);
    LeadBits(s[2]);
    LeadBits(s[3]);
    var top := (s[0] as int - 0xF0) * 64 + (s[1] as int - 0x80);
    var high := top * 64 + (s[2] as int - 0x80);
    SplitsBySixBits(s[0] as int - 0xF0, s[1] as int - 0x80);
    SplitsBySixBits(top, s[2] as int - 0x80);
    SplitsBySixBits(high, s[3] as int - 0x80);
  }

  lemma PayloadIsScalar(s: Bytes)
    requires Utf8Char(s)
    ensures 0 <= Payload(s) < 0x110000 && !(0xD800 <= Payload(s) < 0xE000)
    ensures Utf8(Payload(s)) == s
  {
    match |s|
    case 1 =>
    case 2 => PayloadIsScalar2(s);
    case 3 => PayloadIsScalar3(s);
    case 4 => PayloadIsScalar4(s);
  }

  /** Dividing by 64 peels one continuation byte off a code point. */
  lemma EncodedIsChar(c: Scalar)
    ensures Utf8Char(Utf8(c)) && Claimed(Utf8(c)[0]) == |Utf8(c)| && Payload(Utf8(c)) == c
  {
    var s := Utf8(c);
    LeadBits(s[0]);
    if 0x80 <= c {
      LeadBits(s[1]);
    }
    if 0x800 <= c {
      LeadBits(s[2]);
    }
    if 0x10000 <= c {
      LeadBits(s[3]);
    }
  }

  lemma DecodesOneEncoded8(c: Scalar, rest: Bytes)
    ensures Decode8One(Utf8(c) + rest) == Decoded(c, |Utf8(c)|)
  {
    EncodedIsChar(c);
    assert (Utf8(c) + rest)[..|Utf8(c)|] == Utf8(c);
  }

  /** The three checks the decoder makes on an assembled value are exactly what the grammar asks of the bytes. */
  lemma ChecksAreTheGrammar(s: Bytes)
    requires 2 <= |s| <= 4 && Claimed(s[0]) == |s|
    requires forall k | 1 <= k < |s| :: Continuation(s[k])
    ensures Utf8Char(s) <==> !Overlong(|s|, Payload(s)) && !SurrogateHalf(Payload(s)) && Payload(s) <= 0x10FFFF
  {
    LeadBits(s[0]);
    LeadBits(s[1]);
    if |s| >= 3 {
      LeadBits(s[2]);
    }
    if |s| == 4 {
      LeadBits(s[3]);
    }
  }

  // ---- Whole texts -----------------------------------------------------------

  lemma {:induction false} Decode8OfEncode8(s: seq<Scalar>)
    ensures Decode8(Encode8(s)) == s
  {
    if s != [] {
      var rest := Encode8(s[1..]);
      DecodesOneEncoded8(s[0], rest);
      assert (Utf8(s[0]) + rest)[|Utf8(s[0])|..] == rest;
      Decode8OfEncode8(s[1..]);
    }
  }

  lemma {:induction false} Encode8IsWellFormed(s: seq<Scalar>)
    ensures WellFormed8(Encode8(s))
  {
    if s != [] {
      var n, b := |Utf8(s[0])|, Encode8(s);
      EncodedIsChar(s[0]);
      Encode8IsWellFormed(s[1..]);
      assert b[..n] == Utf8(s[0]) && b[n..] == Encode8(s[1..]);
    }
  }

  lemma {:induction false} Encode8OfDecode8(b: Bytes)
    requires WellFormed8(b)
    ensures Encode8(Decode8(b)) == b
    decreases |b|
  {
    hide Utf8, Utf8Char, Payload, Decode8One;
    if b != [] {
      var n :| 1 <= n <= 4 && n <= |b| && Utf8Char(b[..n]) && WellFormed8(b[n..]);
      var c := Payload(b[..n]);
      PayloadIsScalar(b[..n]);
      assert b == Utf8(c) + b[n..];
      DecodesOneEncoded8(c, b[n..]);
      Encode8OfDecode8(b[n..]);
    }
  }

  lemma {:induction false} Decode16OfEncode16(s: seq<Scalar>)
    ensures Decode16(Encode16(s)) == s
  {
    if s != [] {
      var rest := Encode16(s[1..]);
      assert Encode16(s)[|Utf16(s[0])|..] == rest;
      Decode16OfEncode16(s[1..]);
    }
  }

  lemma {:induction false} Encode16IsWellFormed(s: seq<Scalar>)
    ensures WellFormed16(Encode16(s))
  {
    if s != [] {
      assert Encode16(s)[|Utf16(s[0])|..] == Encode16(s[1..]);
      Encode16IsWellFormed(s[1..]);
    }
  }

  lemma {:induction false} Encode16OfDecode16(w: Wide)
    requires WellFormed16(w)
    ensures Encode16(Decode16(w)) == w
  {
    if w != [] {
      var d := Decode16One(w);
      Encode16OfDecode16(w[d.consumed..]);
      assert Utf16(d.code) == w[..d.consumed];
    }
  }

  lemma {:induction false} Encode8OfSum(s: seq<Scalar>, t: seq<Scalar>)
    ensures Encode8(s + t) == Encode8(s) + Encode8(t)
  {
    if s == [] {
      assert s + t == t;
    } else {
      assert (s + t)[1..] == s[1..] + t;
      Encode8OfSum(s[1..], t);
    }
  }

  lemma {:induction false} Decode16OfSum(v: Wide, w: Wide)
    requires WellFormed16(v)
    ensures Decode16(v + w) == Decode16(v) + Decode16(w)
  {
    if v == [] {
      assert v + w == w;
    } else {
      var n := Decode16One(v).consumed;
      assert Decode16One(v + w) == Decode16One(v);
      assert (v + w)[n..] == v[n..] + w;
      Decode16OfSum(v[n..], w);
    }
  }

  /** Narrowing goes piece by piece wherever the wide text is cut between characters. */
  lemma NarrowedOfSum(v: Wide, w: Wide)
    requires WellFormed16(v)
    ensures Narrowed(v + w) == Narrowed(v) + Narrowed(w)
  {
    Decode16OfSum(v, w);
    Encode8OfSum(Decode16(v), Decode16(w));
  }

  // ---- The laws --------------------------------------------------------------

  /** On any input at all, both conversions give well-formed text. */
  lemma ConversionsRepair(w: Wide, b: Bytes)
    ensures WellFormed8(Narrowed(w)) && WellFormed16(Widened(b))
  {
    Encode8IsWellFormed(Decode16(w));
    Encode16IsWellFormed(Decode8(b));
  }

  /** Going through UTF-8 and back keeps a wide text exactly when it was well-formed UTF-16. */
  lemma WideRoundTrip(w: Wide)
    ensures Widened(Narrowed(w)) == w <==> WellFormed16(w)
  {
    Decode8OfEncode8(Decode16(w));
    Encode16IsWellFormed(Decode16(w));
    if WellFormed16(w) {
      Encode16OfDecode16(w);
    }
  }

  /** Going through UTF-16 and back keeps a text exactly when it was well-formed UTF-8. */
  lemma NarrowRoundTrip(b: Bytes)
    ensures Narrowed(Widened(b)) == b <==> WellFormed8(b)
  {
    Decode16OfEncode16(Decode8(b));
    Encode8IsWellFormed(Decode8(b));
    if WellFormed8(b) {
      Encode8OfDecode8(b);
    }
  }

  // ---- How much of a malformed sequence is consumed ---------------------------------

  /** `s` can be completed to a character. */
  ghost predicate Begins(s: Bytes) {
    exists rest: Bytes :: Utf8Char(s + rest)
  }

  /** The length of the maximal well-formed subpart at the start of `b`: the longest prefix, of at most `n` bytes, that
      begins a character, or one byte if none does. */
  ghost function Subpart(b: Bytes, n: nat): (length: nat)
    requires n <= |b|
  {
    if n <= 1 || Begins(b[..n]) then if n == 0 then 1 else n else Subpart(b, n - 1)
  }

  /** The second bytes that may follow a lead byte, by the table in section 4 of RFC 3629. */
  predicate SecondAllowed(lead: Byte, second: Byte) {
    if lead == 0xE0 then 0xA0 <= second <= 0xBF
    else if lead == 0xED then 0x80 <= second <= 0x9F
    else if lead == 0xF0 then 0x90 <= second <= 0xBF
    else if lead == 0xF4 then 0x80 <= second <= 0x8F
    else 0xC2 <= lead <= 0xF3 && Continuation(second)
  }

  /** What a prefix of two bytes or more has to be. */
  predicate IsStart(s: Bytes)
    requires |s| >= 2
  {
    && |s| <= Claimed(s[0]) && SecondAllowed(s[0], s[1])
    && forall k | 2 <= k < |s| :: Continuation(s[k])
  }

  lemma StartBegins(s: Bytes)
    requires |s| >= 2 && IsStart(s)
    ensures Begins(s)
  {
    if |s| == Claimed(s[0]) {
      assert Utf8Char(s + []) by {
        assert s + [] == s;
      }
    } else if |s| + 1 == Claimed(s[0]) {
      assert Utf8Char(s + [0x80]);
    } else {
      assert Utf8Char(s + [0x80, 0x80]);
    }
  }

  lemma BeginningIsStart(s: Bytes)
    requires |s| >= 2 && Begins(s)
    ensures IsStart(s)
  {
    var rest: Bytes :| Utf8Char(s + rest);
    assert forall k | 0 <= k < |s| :: (s + rest)[k] == s[k];
  }

  lemma {:induction false} RunStops(b: Bytes)
    ensures forall k | 0 <= k < Run(b) :: Continuation(b[k])
    ensures Run(b) < |b| ==> !Continuation(b[Run(b)])
  {
    if b != [] && Continuation(b[0]) {
      RunStops(b[1..]);
    }
  }

  /** The longest prefix that begins a character is found by looking for it from the end. */
  lemma {:induction false} SubpartIs(b: Bytes, n: nat, length: nat)
    requires 1 <= length <= n <= |b| && (length > 1 ==> Begins(b[..length]))
    requires forall k | length < k <= n :: !Begins(b[..k])
    ensures Subpart(b, n) == length
  {
    hide Begins;
    if n > length {
      SubpartIs(b, n - 1, length);
    }
  }

  predicate Malformed(b: Bytes) {
    b != [] && !(Claimed(b[0]) <= |b| && Utf8Char(b[..Claimed(b[0])]))
  }

  /** How far the continuation bytes after the lead byte go. */
  lemma ConsumedRun(b: Bytes)
    requires Malformed(b)
    ensures var consumed, m := Decode8One(b).consumed, Min(Claimed(b[0]), |b|);
            && consumed <= m && (forall k | 1 <= k < consumed :: Continuation(b[k]))
            && (consumed < m ==> !Continuation(b[consumed]))
  {
    var tail := b[1..Min(Claimed(b[0]), |b|)];
    RunStops(tail);
    assert forall k | 0 <= k < |tail| :: tail[k] == b[k + 1];
  }

  lemma NothingLongerBegins(b: Bytes, consumed: nat, k: nat)
    requires 2 <= k <= |b| && 1 <= consumed < k
    requires consumed < Min(Claimed(b[0]), |b|) ==> !Continuation(b[consumed])
    requires consumed <= Claimed(b[0])
    ensures !Begins(b[..k])
  {
    hide Begins;
    if Begins(b[..k]) {
      BeginningIsStart(b[..k]);
      assert b[..k][consumed] == b[consumed];
      SecondContinues(b[..k]);
    }
  }

  lemma SecondContinues(s: Bytes)
    requires |s| >= 2 && IsStart(s)
    ensures forall k | 1 <= k < |s| :: Continuation(s[k])
  {
  }

  lemma ConsumedWhenAllowed(b: Bytes)
    requires Malformed(b) && |b| >= 2 && SecondAllowed(b[0], b[1]) && Claimed(b[0]) > 1
    ensures Subpart(b, |b|) == Decode8One(b).consumed
  {
    hide Begins, Subpart, Decode8One, Malformed;
    var consumed := Decode8One(b).consumed;
    ConsumedRun(b);
    if consumed > 1 {
      assert forall k | 0 <= k < consumed :: b[..consumed][k] == b[k];
      StartBegins(b[..consumed]);
    }
    forall k | consumed < k <= |b|
      ensures !Begins(b[..k])
    {
      NothingLongerBegins(b, consumed, k);
    }
    SubpartIs(b, |b|, consumed);
  }

  lemma SubpartIsOne(b: Bytes)
    requires b != [] && (|b| >= 2 ==> Claimed(b[0]) == 1 || !SecondAllowed(b[0], b[1]))
    ensures Subpart(b, |b|) == 1
  {
    forall k | 1 < k <= |b|
      ensures !Begins(b[..k])
    {
      if Begins(b[..k]) {
        BeginningIsStart(b[..k]);
      }
    }
    SubpartIs(b, |b|, 1);
  }

  /** The comment in the source says that a malformed sequence consumes its maximal well-formed subpart. It does exactly
      when no second byte is consumed, or the second byte may follow the first. */
  lemma ConsumesTheWellFormedSubpart(b: Bytes)
    requires Malformed(b)
    ensures Decode8One(b).consumed == Subpart(b, |b|) <==>
            |b| < 2 || Claimed(b[0]) == 1 || !Continuation(b[1]) || SecondAllowed(b[0], b[1])
  {
    hide Subpart, Begins;
    if |b| >= 2 && Claimed(b[0]) > 1 && SecondAllowed(b[0], b[1]) {
      ConsumedWhenAllowed(b);
    } else {
      SubpartIsOne(b);
      ConsumedTail(b);
    }
  }

  lemma ConsumedTail(b: Bytes)
    requires Malformed(b)
    ensures Decode8One(b).consumed == 1 <==> |b| < 2 || Claimed(b[0]) == 1 || !Continuation(b[1])
  {
    var tail := b[1..Min(Claimed(b[0]), |b|)];
    assert tail != [] ==> tail[0] == b[1];
  }

  /** E0 80 cannot begin any character, so the subpart is E0 alone, yet both bytes go into one replacement. */
  lemma ConsumesMoreThanTheWellFormedSubpart()
    ensures Decode8([0xE0, 0x80, 0x41]) == [REPLACEMENT, 0x41]
    ensures forall s: Bytes | [0xE0, 0x80] <= s && |s| <= 4 :: !Utf8Char(s)
  {
    var b: Bytes := [0xE0, 0x80, 0x41];
    assert !Utf8Char(b[..3]);
    assert b[1..3] == [0x80, 0x41] && b[1..3][1..] == [0x41];
    assert Run([0x41]) == 0;
    assert b[2..] == [0x41];
    assert Decode8One([0x41]) == Decoded(0x41, 1) by {
      DecodesOneEncoded8(0x41, []);
      assert Utf8(0x41) + [] == [0x41];
    }
  }

  // ---- Which bytes and which units -----------------------------------------------

  /** `s` comes before `t` where they first differ. */
  predicate Precedes(s: seq<int>, t: seq<int>) {
    exists k | 0 <= k < |s| && k < |t| :: s[..k] == t[..k] && s[k] < t[k]
  }

  lemma PrecedesAt(s: seq<int>, t: seq<int>, k: nat)
    requires k < |s| && k < |t| && s[k] < t[k] && forall i | 0 <= i < k :: s[i] == t[i]
    ensures Precedes(s, t)
  {
    assert s[..k] == t[..k];
  }

  /** The last digit that two numbers do not share decides. */
  lemma DigitsDecide(c: int, d: int, base: int)
    requires 0 <= c < d && base > 0
    ensures c / base <= d / base && (c / base == d / base ==> c % base < d % base)
  {
    DivisionSplits(c, base);
    DivisionSplits(d, base);
    if c / base > d / base {
      Grows(base, d / base + 1, c / base);
    }
  }

  lemma DivisionSplits(c: int, base: int)
    requires 0 <= c && base > 0
    ensures c == base * (c / base) + c % base && 0 <= c % base < base
  {
  }

  lemma Grows(base: int, a: int, b: int)
    requires base > 0 && a <= b
    ensures base * a <= base * b && base * a == base * (a - 1) + base
  {
    assert base * (b - a) >= 0;
    assert base * a == base * (a - 1) + base;
  }

  /** Of two encodings of the same length, the first digit that differs decides. */
  lemma SameDigits(c: int, d: int)
    requires 0 <= c < d
    ensures c / 64 <= d / 64 && (c / 64 == d / 64 ==> c % 64 < d % 64)
    ensures c / 64 / 64 <= d / 64 / 64 && (c / 64 / 64 == d / 64 / 64 && c / 64 < d / 64 ==> c / 64 % 64 < d / 64 % 64)
  {
    DigitsDecide(c, d, 64);
    if c / 64 < d / 64 {
      DigitsDecide(c / 64, d / 64, 64);
    }
  }

  lemma LengthsKeepOrder(c: Scalar, d: Scalar)
    requires c < d && |Utf8(c)| != |Utf8(d)|
    ensures Utf8(c)[0] < Utf8(d)[0]
  {
  }

  lemma TwoKeepOrder(c: Scalar, d: Scalar)
    requires 0x80 <= c < d < 0x800
    ensures Precedes(Utf8(c), Utf8(d))
  {
    hide Precedes;
    SameDigits(c, d);
    PrecedesAt(Utf8(c), Utf8(d), if c / 64 < d / 64 then 0 else 1);
  }

  lemma ThreeKeepOrder(c: Scalar, d: Scalar)
    requires 0x800 <= c < d < 0x10000
    ensures Precedes(Utf8(c), Utf8(d))
  {
    SameDigits(c, d);
    var c2, d2 := c / 64, d / 64;
    var s, t := [0xE0 + c2 / 64, 0x80 + c2 % 64, 0x80 + c % 64], [0xE0 + d2 / 64, 0x80 + d2 % 64, 0x80 + d % 64];
    assert Utf8(c) == s && Utf8(d) == t;
    hide Precedes, Utf8;
    PrecedesAt(s, t, if c2 / 64 < d2 / 64 then 0 else if c2 < d2 then 1 else 2);
  }

  lemma FourKeepOrder(c: Scalar, d: Scalar)
    requires 0x10000 <= c < d
    ensures Precedes(Utf8(c), Utf8(d))
  {
    SameDigits(c, d);
    var c2, d2 := c / 64, d / 64;
    if c2 < d2 {
      SameDigits(c2, d2);
    }
    FourDigits(c, c2);
    FourDigits(d, d2);
    hide Precedes, Utf8;
    PrecedesAt(Utf8(c), Utf8(d), if c2 / 64 / 64 < d2 / 64 / 64 then 0 else if c2 / 64 < d2 / 64 then 1 else if c2 < d2 then 2 else 3);
  }

  lemma FourDigits(c: Scalar, c2: int)
    requires 0x10000 <= c && c2 == c / 64
    ensures |Utf8(c)| == 4 && Utf8(c)[0] == 0xF0 + c2 / 64 / 64 && Utf8(c)[1] == 0x80 + c2 / 64 % 64
    ensures Utf8(c)[2] == 0x80 + c2 % 64 && Utf8(c)[3] == 0x80 + c % 64
  {
  }

  /** The encoding of a larger code point comes later, byte by byte. Together with the grammar, whose characters are exactly
      the encodings, this leaves only one byte sequence for each code point. */
  lemma Utf8KeepsOrder(c: Scalar, d: Scalar)
    requires c < d
    ensures Precedes(Utf8(c), Utf8(d))
  {
    hide Precedes;
    if |Utf8(c)| != |Utf8(d)| {
      LengthsKeepOrder(c, d);
      PrecedesAt(Utf8(c), Utf8(d), 0);
    } else if c < 0x80 {
      PrecedesAt(Utf8(c), Utf8(d), 0);
    } else if c < 0x800 {
      TwoKeepOrder(c, d);
    } else if c < 0x10000 {
      ThreeKeepOrder(c, d);
    } else {
      FourKeepOrder(c, d);
    }
  }

  /** A code point below U+10000 is one unit, itself; above that the pairs keep the order, a high half and a low one. */
  lemma Utf16KeepsOrder(c: Scalar, d: Scalar)
    ensures c < 0x10000 ==> Utf16(c) == [c]
    ensures c >= 0x10000 ==>
              |Utf16(c)| == 2 && 0xD800 <= Utf16(c)[0] <= 0xDBFF && 0xDC00 <= Utf16(c)[1] <= 0xDFFF
    ensures 0x10000 <= c < d ==> Precedes(Utf16(c), Utf16(d))
  {
    if 0x10000 <= c < d {
      DigitsDecide(c - 0x10000, d - 0x10000, 1024);
      PrecedesAt(Utf16(c), Utf16(d), if (c - 0x10000) / 1024 < (d - 0x10000) / 1024 then 0 else 1);
    }
  }

  /** Every pair stands for some code point, so no other pairs could be meant. */
  lemma PairIsACodePoint(high: Unit, low: Unit)
    requires 0xD800 <= high <= 0xDBFF && 0xDC00 <= low <= 0xDFFF
    ensures exists c: Scalar :: c >= 0x10000 && Utf16(c) == [high, low]
  {
    var c: Scalar := 0x10000 + (high - 0xD800) * 1024 + (low - 0xDC00);
    assert Utf16(c) == [high, low];
  }

  /** What is not text becomes U+FFFD and is passed over: the first byte, and then the continuation bytes it claims, as far
      as they go. */
  lemma MalformedIsReplaced(b: Bytes)
    requires b != [] && forall n | 1 <= n <= 4 && n <= |b| :: !Utf8Char(b[..n])
    ensures var lead, consumed := b[0], Decode8One(b).consumed;
            var claimed := if 0xC0 <= lead <= 0xDF then 2 else if 0xE0 <= lead <= 0xEF then 3
                           else if 0xF0 <= lead <= 0xF7 then 4 else 1;
            && (forall k | 1 <= k < consumed :: 0x80 <= b[k] <= 0xBF) && consumed <= claimed
            && (consumed < claimed && consumed < |b| ==> !(0x80 <= b[consumed] <= 0xBF))
            && Widened(b) == [0xFFFD] + Widened(b[consumed..])
  {
    hide Utf8Char;
    ConsumedRun(b);
    var rest := Decode8(b[Decode8One(b).consumed..]);
    assert ([REPLACEMENT] + rest)[1..] == rest;
  }

  /** Half of a pair that stands alone becomes U+FFFD, and what follows is narrowed by itself. */
  lemma LoneSurrogateIsReplaced(w: Wide)
    requires w != [] && 0xD800 <= w[0] <= 0xDFFF
    requires !(w[0] <= 0xDBFF && |w| >= 2 && 0xDC00 <= w[1] <= 0xDFFF)
    ensures Narrowed(w) == [0xEF, 0xBF, 0xBD] + Narrowed(w[1..])
  {
    var rest := Decode16(w[1..]);
    assert ([REPLACEMENT] + rest)[1..] == rest;
    assert Utf8(REPLACEMENT) == [0xEF, 0xBF, 0xBD];
  }

  // ---- The code --------------------------------------------------------------

  /** How many bytes a lead byte claims, or zero when it is not a lead byte. */
  function SequenceLength(lead: Byte): nat {
    if lead < 0x80 then 1
    else if 0xC0 <= lead < 0xE0 then 2
    else if 0xE0 <= lead < 0xF0 then 3
    else if 0xF0 <= lead < 0xF8 then 4
    else 0
  }

  predicate Overlong(length: int, code: int) {
    (length == 2 && code < 0x80) || (length == 3 && code < 0x800) || (length == 4 && code < 0x10000)
  }

  predicate SurrogateHalf(code: int) {
    0xD800 <= code <= 0xDFFF
  }

  lemma {:induction false} RunCountsTo(b: Bytes, n: nat)
    requires n <= |b| && forall k | 0 <= k < n :: Continuation(b[k])
    requires n == |b| || !Continuation(b[n])
    ensures Run(b) == n
  {
    if n > 0 {
      RunCountsTo(b[1..], n - 1);
    }
  }

  method ContinuationRun(text: Bytes, index: nat) returns (consumed: nat)
    requires index < |text|
    ensures consumed == 1 + Run(text[index + 1..])
  {
    consumed := 1;
    while index + consumed < |text| && Continuation(text[index + consumed])
      invariant 1 <= consumed <= |text| - index
      invariant forall k | index < k < index + consumed :: Continuation(text[k])
    {
      consumed := consumed + 1;
    }
    RunCountsTo(text[index + 1..], consumed - 1);
  }

  method DecodeOne(text: Bytes, index: nat) returns (d: Decoded)
    requires index < |text|
    ensures d == Decode8One(text[index..])
  {
    ghost var b := text[index..];
    var lead: int := text[index];
    var length := SequenceLength(lead);
    if length == 0 {
      return Decoded(REPLACEMENT, 1);
    }
    if index + length > |text| {
      var run := ContinuationRun(text, index);
      assert b[1..Min(length, |b|)] == text[index + 1..];
      return Decoded(REPLACEMENT, run);
    }
    if length == 1 {
      return Decoded(lead, 1);
    }

    var code := match length case 2 => lead % 32 case 3 => lead % 16 case _ => lead % 8;
    ghost var bits := code;
    var consumed := 1;
    var offset := 1;
    while offset < length
      invariant 1 <= offset == consumed <= length
      invariant forall k | 1 <= k < offset :: Continuation(b[k])
      invariant code ==
        if offset == 1 then bits
        else if offset == 2 then bits * 64 + Low6(b[1])
        else if offset == 3 then (bits * 64 + Low6(b[1])) * 64 + Low6(b[2])
        else ((bits * 64 + Low6(b[1])) * 64 + Low6(b[2])) * 64 + Low6(b[3])
    {
      var continuation := text[index + offset];
      if !Continuation(continuation) {
        break;
      }
      code := code * 64 + Low6(continuation);
      consumed := consumed + 1;
      offset := offset + 1;
    }
    if consumed != length {
      StopsShort(b, length, consumed);
      return Decoded(REPLACEMENT, consumed);
    }

    assert code == Payload(b[..length]);
    ChecksAreTheGrammar(b[..length]);
    if Overlong(length, code) || SurrogateHalf(code) || code > 0x10FFFF {
      StopsAtTheEnd(b, length);
      return Decoded(REPLACEMENT, length);
    }
    return Decoded(code, length);
  }

  /** A sequence whose continuation bytes end before they should. */
  lemma StopsShort(b: Bytes, length: nat, consumed: nat)
    requires 1 <= consumed < length <= |b| && length == Claimed(b[0])
    requires (forall k | 1 <= k < consumed :: Continuation(b[k])) && !Continuation(b[consumed])
    ensures Decode8One(b) == Decoded(REPLACEMENT, consumed)
  {
    var tail := b[1..length];
    assert forall k | 0 <= k < |tail| :: tail[k] == b[k + 1];
    RunCountsTo(tail, consumed - 1);
    assert b[..length][consumed] == b[consumed];
    CharContinues(b[..length]);
  }

  /** A sequence of the right shape that is no character. */
  lemma StopsAtTheEnd(b: Bytes, length: nat)
    requires 1 <= length <= |b| && length == Claimed(b[0]) && !Utf8Char(b[..length])
    requires forall k | 1 <= k < length :: Continuation(b[k])
    ensures Decode8One(b) == Decoded(REPLACEMENT, length)
  {
    hide Utf8Char;
    var tail := b[1..length];
    assert forall k | 0 <= k < |tail| :: tail[k] == b[k + 1];
    RunCountsTo(tail, length - 1);
  }

  lemma CharContinues(s: Bytes)
    ensures Utf8Char(s) ==> forall k | 1 <= k < |s| :: Continuation(s[k])
  {
  }

  lemma NarrowsOneStep(done: Bytes, text: Wide, index: nat)
    requires index < |text|
    ensures var d := Decode16One(text[index..]);
      done + Utf8(d.code) + Narrowed(text[index + d.consumed..]) == done + Narrowed(text[index..])
  {
    var d := Decode16One(text[index..]);
    assert text[index..][d.consumed..] == text[index + d.consumed..];
  }

  lemma NothingNarrows()
    ensures Narrowed([]) == []
  {
  }

  method ToUtf8(text: Wide) returns (result: Bytes)
    ensures result == Narrowed(text)
  {
    hide Utf8, Narrowed;
    result := [];
    var index := 0;
    NothingNarrows();
    assert [] + Narrowed(text[0..]) == Narrowed(text) by {
      assert text[0..] == text;
    }
    while index < |text|
      invariant index <= |text|
      invariant result + Narrowed(text[index..]) == Narrowed(text)
    {
      NarrowsOneStep(result, text, index);
      var unit: int := text[index];
      var code: Scalar := REPLACEMENT;
      var next := index + 1;
      if 0xD800 <= unit <= 0xDBFF {
        if index + 1 < |text| {
          var low: int := text[index + 1];
          if 0xDC00 <= low <= 0xDFFF {
            code := 0x10000 + (unit - 0xD800) * 1024 + (low - 0xDC00);
            next := index + 2;
          }
        }
      } else if !(0xDC00 <= unit <= 0xDFFF) {
        code := unit;
      }
      assert Decode16One(text[index..]) == Decoded(code, next - index);
      result := result + Utf8(code);
      index := next;
    }
    assert text[index..] == [];
  }

  lemma WidensOneStep(text: Bytes, index: nat)
    requires index < |text|
    ensures var step := Decode8One(text[index..]);
            Widened(text[index..]) == Utf16(step.code) + Widened(text[index + step.consumed..])
  {
    hide Decode8One, Utf16;
    var rest := text[index..];
    assert rest[Decode8One(rest).consumed..] == text[index + Decode8One(rest).consumed..];
  }

  method ToWide(text: Bytes) returns (result: Wide)
    ensures result == Widened(text)
  {
    hide Widened, Decode8One, Utf16;
    result := [];
    var index := 0;
    assert text[0..] == text;
    while index < |text|
      invariant index <= |text|
      invariant result + Widened(text[index..]) == Widened(text)
    {
      var decoded := DecodeOne(text, index);
      WidensOneStep(text, index);
      assert result + (Utf16(decoded.code) + Widened(text[index + decoded.consumed..])) ==
             (result + Utf16(decoded.code)) + Widened(text[index + decoded.consumed..]);
      result := result + Utf16(decoded.code);
      index := index + decoded.consumed;
    }
    assert text[index..] == [];
    NothingWidens();
  }

  lemma NothingWidens()
    ensures Widened([]) == []
  {
  }
}
