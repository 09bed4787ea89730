/** What `fstrim` prints, and what is read out of it (src/lib/ops/trim.cpp). */
module TrimOutput {
  import opened Results
  import Size
  import opened Units

  // Two spellings of a refused option: busybox's and getopt's.
  const UNRECOGNIZED_OPTION: Bytes := Ascii("unrecognized option")
  const INVALID_OPTION: Bytes := Ascii("invalid option")

  const BYTES_WORD: Bytes := Ascii("bytes")
  const BLANK: Byte := ' ' as int

  predicate Contains(text: Bytes, part: Bytes) {
    exists k | 0 <= k <= |text| :: part <= text[k..]
  }

  lemma ContainsItsParts(text: Bytes, part: Bytes)
    ensures Contains(text, part) <==> exists before: Bytes, after: Bytes :: text == before + part + after
  {
    if k :| 0 <= k <= |text| && part <= text[k..] {
      var after := text[k..][|part|..];
      assert text == text[..k] + part + after;
    }
    if before: Bytes, after: Bytes :| text == before + part + after {
      assert text[|before|..] == part + after;
    }
  }

  predicate RejectedAnOption(text: Bytes) {
    Contains(text, UNRECOGNIZED_OPTION) || Contains(text, INVALID_OPTION)
  }

  lemma SilenceRejectsNothing()
    ensures !RejectedAnOption([])
  {
  }

  // ---- What a page of output says --------------------------------------------------------------

  /** A page in which `digits` is the number before the last `bytes`. */
  datatype Page = Page(before: Bytes, digits: string, blanks: nat, after: Bytes)

  predicate EndsInDigit(text: Bytes) {
    text != [] && IsDigit(text[|text| - 1])
  }

  predicate IsDigit(b: Byte) {
    '0' as int <= b <= '9' as int
  }

  predicate WellFormed(page: Page) {
    && page.digits != "" && Size.Digits(page.digits) && !EndsInDigit(page.before)
    && !Contains((BYTES_WORD + page.after)[1..], BYTES_WORD)
  }

  function Blanks(n: nat): (blanks: Bytes)
    ensures |blanks| == n
  {
    seq(n, _ => BLANK)
  }

  function Written(page: Page): Bytes
    requires WellFormed(page)
  {
    page.before + (Ascii(page.digits) + (Blanks(page.blanks) + (BYTES_WORD + page.after)))
  }

  predicate Says(output: Bytes, page: Page) {
    WellFormed(page) && Written(page) == output
  }

  function Count(page: Page): nat
    requires WellFormed(page)
  {
    Size.Value(page.digits)
  }

  /** `count` is the number that `output` says, if it says one and that one fits. */
  ghost predicate IsCountIn(count: Option<Size.u64>, output: Bytes) {
    && (count.Some? ==> exists page :: Says(output, page) && Count(page) == count.value as int)
    && (count.None? ==> forall page :: Says(output, page) ==> Count(page) > U64_MAX)
  }

  // ---- Reading it --------------------------------------------------------------------------------

  /** std::string::rfind. */
  function LastOf(text: Bytes, part: Bytes): (at: Option<nat>)
    ensures at.Some? ==> at.value <= |text| && part <= text[at.value..]
    ensures at.Some? ==> forall k | at.value < k <= |text| :: !(part <= text[k..])
    ensures at.None? <==> !Contains(text, part)
  {
    if text != [] && LastOf(text[1..], part).Some? then
      assert forall k | 1 <= k <= |text| :: text[k..] == text[1..][k - 1..];
      Some(1 + LastOf(text[1..], part).value)
    else
      assert text[0..] == text;
      assert text != [] ==> forall k | 1 <= k <= |text| :: text[k..] == text[1..][k - 1..];
      if part <= text then Some(0) else None
  }

  predicate DigitsAt(text: Bytes, from: nat, to: nat) {
    from <= to <= |text| && forall k | from <= k < to :: IsDigit(text[k])
  }

  predicate BlanksAt(text: Bytes, from: nat, to: nat) {
    from <= to <= |text| && forall k | from <= k < to :: text[k] == BLANK
  }

  function DigitsText(text: Bytes, from: nat, to: nat): (digits: string)
    requires DigitsAt(text, from, to)
    ensures |digits| == to - from && Size.Digits(digits) && Ascii(digits) == text[from..to]
    ensures forall k | 0 <= k < |digits| :: Size.Digit(digits[k]) == text[from + k] - '0' as int
  {
    seq(to - from, i requires 0 <= i < to - from => text[from + i] as char)
  }

  /** Where the run of digits before `end` begins, and where the run of blanks does. */
  function DigitStart(text: Bytes, end: nat): (begin: nat)
    requires end <= |text|
    ensures DigitsAt(text, begin, end) && (begin > 0 ==> !IsDigit(text[begin - 1]))
  {
    if end > 0 && IsDigit(text[end - 1]) then DigitStart(text, end - 1) else end
  }

  function BlankStart(text: Bytes, end: nat): (begin: nat)
    requires end <= |text|
    ensures BlanksAt(text, begin, end) && (begin > 0 ==> text[begin - 1] != BLANK)
  {
    if end > 0 && text[end - 1] == BLANK then BlankStart(text, end - 1) else end
  }

  /** The word is last where nothing of it begins later. */
  lemma WordIsLast(text: Bytes, word: Bytes, at: nat)
    requires at < |text| && word <= text[at..]
    ensures LastOf(text, word) == Some(at) <==> !Contains(text[at + 1..], word)
  {
    var rest := text[at + 1..];
    assert forall k | at < k <= |text| :: rest[k - at - 1..] == text[k..];
    if k :| 0 <= k <= |rest| && word <= rest[k..] {
      assert word <= text[at + 1 + k..];
    }
  }

  lemma PartsHaveTheirPlaces(before: Bytes, digits: Bytes, blanks: Bytes, rest: Bytes)
    ensures var text := before + (digits + (blanks + rest));
            && text[..|before|] == before
            && text[|before|..|before| + |digits|] == digits
            && text[|before| + |digits|..|before| + |digits| + |blanks|] == blanks
            && text[|before| + |digits| + |blanks|..] == rest
  {
  }

  lemma {:induction false} BlankStartIs(text: Bytes, begin: nat, end: nat)
    requires BlanksAt(text, begin, end) && (begin > 0 ==> text[begin - 1] != BLANK)
    ensures BlankStart(text, end) == begin
  {
    if begin < end {
      BlankStartIs(text, begin, end - 1);
    }
  }

  lemma {:induction false} DigitStartIs(text: Bytes, begin: nat, end: nat)
    requires DigitsAt(text, begin, end) && (begin > 0 ==> !IsDigit(text[begin - 1]))
    ensures DigitStart(text, end) == begin
  {
    if begin < end {
      DigitStartIs(text, begin, end - 1);
    }
  }

  /** The one way to walk back over blanks and then over digits. */
  lemma StartsAre(text: Bytes, begin: nat, end: nat, at: nat)
    requires begin < end && DigitsAt(text, begin, end) && BlanksAt(text, end, at) && !EndsInDigit(text[..begin])
    ensures BlankStart(text, at) == end && DigitStart(text, end) == begin
  {
    assert begin > 0 ==> text[..begin][begin - 1] == text[begin - 1];
    BlankStartIs(text, end, at);
    DigitStartIs(text, begin, end);
  }

  /** Where the last word is, when the text ends in it and something after it. */
  lemma WordIsAt(text: Bytes, word: Bytes, at: nat, after: Bytes)
    requires at <= |text| && word != [] && text[at..] == word + after
    ensures LastOf(text, word) == Some(at) <==> !Contains((word + after)[1..], word)
  {
    assert text[at + 1..] == text[at..][1..];
    WordIsLast(text, word, at);
  }

  /** A page is read from its last word backwards. */
  lemma PageIsRead(output: Bytes, page: Page)
    requires Says(output, page)
    ensures LastOf(output, BYTES_WORD).Some?
    ensures var end := BlankStart(output, LastOf(output, BYTES_WORD).value);
            DigitStart(output, end) < end && DigitsText(output, DigitStart(output, end), end) == page.digits
  {
    hide Written, Says, LastOf, BlankStart, DigitStart, DigitsAt, BlanksAt, Contains, EndsInDigit, DigitsText, Size.Digits;
    var begin := |page.before|;
    var end := begin + |page.digits|;
    var at := end + page.blanks;
    PageHasItsPlaces(output, page);
    WordIsAt(output, BYTES_WORD, at, page.after);
    StartsAre(output, begin, end, at);
  }

  lemma PageHasItsPlaces(output: Bytes, page: Page)
    requires Says(output, page)
    ensures WellFormed(page)
    ensures var begin := |page.before|;
            var end := begin + |page.digits|;
            var at := end + page.blanks;
            && at <= |output| && output[..begin] == page.before && output[at..] == BYTES_WORD + page.after
            && DigitsAt(output, begin, end) && DigitsText(output, begin, end) == page.digits && BlanksAt(output, end, at)
  {
    hide WellFormed, LastOf, DigitsAt, BlanksAt, Blanks, DigitsText, Ascii;
    var begin := |page.before|;
    var end := begin + |page.digits|;
    DigitsOf(page);
    PartsHaveTheirPlaces(page.before, Ascii(page.digits), Blanks(page.blanks), BYTES_WORD + page.after);
    DigitsHaveTheirPlace(output, begin, end, page.digits);
    BlanksHaveTheirPlace(output, end, end + page.blanks);
  }

  lemma DigitsOf(page: Page)
    requires WellFormed(page)
    ensures Size.Digits(page.digits)
  {
  }

  lemma DigitsHaveTheirPlace(text: Bytes, begin: nat, end: nat, digits: string)
    requires begin <= end <= |text| && Size.Digits(digits) && text[begin..end] == Ascii(digits)
    ensures DigitsAt(text, begin, end) && DigitsText(text, begin, end) == digits
  {
    assert forall k | begin <= k < end :: text[k] == text[begin..end][k - begin] == digits[k - begin] as int;
  }

  lemma BlanksHaveTheirPlace(text: Bytes, from: nat, to: nat)
    requires from <= to <= |text|
    ensures BlanksAt(text, from, to) <==> text[from..to] == Blanks(to - from)
  {
    assert forall k | from <= k < to :: text[k] == text[from..to][k - from];
  }

  /** And what is read from the last word backwards is a page. */
  lemma ReadIsAPage(output: Bytes, at: nat, begin: nat, end: nat) returns (page: Page)
    requires LastOf(output, BYTES_WORD) == Some(at) && end == BlankStart(output, at) && begin == DigitStart(output, end)
    requires begin < end
    ensures Says(output, page) && page.digits == DigitsText(output, begin, end)
  {
    page := Page(output[..begin], DigitsText(output, begin, end), at - end, output[at + |BYTES_WORD|..]);
    WordEndsIt(output, at, page);
    EndOfFirst(output, begin);
    PartsMakeIt(output, begin, end, at, page);
  }

  lemma WordEndsIt(output: Bytes, at: nat, page: Page)
    requires LastOf(output, BYTES_WORD) == Some(at)
    requires at + |BYTES_WORD| <= |output| ==> page.after == output[at + |BYTES_WORD|..]
    ensures output[at..] == BYTES_WORD + page.after && !Contains((BYTES_WORD + page.after)[1..], BYTES_WORD)
  {
    hide LastOf, Contains;
    StartsWith(output, BYTES_WORD, at);
    WordIsAt(output, BYTES_WORD, at, page.after);
  }

  lemma PartsMakeIt(output: Bytes, begin: nat, end: nat, at: nat, page: Page)
    requires DigitsAt(output, begin, end) && BlanksAt(output, end, at) && WellFormed(page)
    requires page.before == output[..begin] && page.digits == DigitsText(output, begin, end) && page.blanks == at - end
    requires output[at..] == BYTES_WORD + page.after
    ensures Written(page) == output
  {
    hide WellFormed, DigitsText, Ascii, Blanks;
    BlanksHaveTheirPlace(output, end, at);
    FourParts(output, begin, end, at);
  }

  lemma StartsWith(text: Bytes, word: Bytes, at: nat)
    requires at <= |text| && word <= text[at..]
    ensures at + |word| <= |text| && text[at..] == word + text[at + |word|..]
  {
    assert text[at..][|word|..] == text[at + |word|..];
  }

  lemma EndOfFirst(text: Bytes, begin: nat)
    requires begin <= |text|
    ensures EndsInDigit(text[..begin]) <==> begin > 0 && IsDigit(text[begin - 1])
  {
  }

  lemma FourParts(text: Bytes, begin: nat, end: nat, at: nat)
    requires begin <= end <= at <= |text|
    ensures text == text[..begin] + (text[begin..end] + (text[end..at] + text[at..]))
  {
  }

  /** The number before the last `bytes`, with blanks between them. */
  method ParseTrimmedBytes(output: Bytes) returns (count: Option<Size.u64>)
    ensures IsCountIn(count, output)
  {
    var at := LastOf(output, BYTES_WORD);
    if at.None? {
      forall page | Says(output, page)
        ensures false
      {
        PageIsRead(output, page);
      }
      return None;
    }
    var end := at.value;
    while end > 0 && output[end - 1] == BLANK
      invariant end <= at.value && BlankStart(output, end) == BlankStart(output, at.value)
    {
      end := end - 1;
    }
    count := DigitsBefore(output, end);
    OnlyCount(output, at.value, end, count);
  }

  lemma OnlyCount(output: Bytes, at: nat, end: nat, count: Option<Size.u64>)
    requires LastOf(output, BYTES_WORD) == Some(at) && end == BlankStart(output, at)
    requires IsRunBefore(count, output, end)
    ensures IsCountIn(count, output)
  {
    hide Written, LastOf, BlankStart, DigitStart, WellFormed, Size.Value;
    var begin := DigitStart(output, end);
    if count.Some? {
      var page := ReadIsAPage(output, at, begin, end);
      assert Says(output, page) && Count(page) == count.value as int;
    } else {
      forall page | Says(output, page)
        ensures Count(page) > U64_MAX
      {
        PageIsRead(output, page);
      }
    }
  }

  /** `count` is the value of the run of digits that ends at `end`, if there are any and it fits. */
  predicate IsRunBefore(count: Option<Size.u64>, text: Bytes, end: nat)
    requires end <= |text|
  {
    var digits := DigitsText(text, DigitStart(text, end), end);
    && (count.Some? ==> digits != "" && Size.Value(digits) == count.value as int)
    && (count.None? ==> digits == "" || Size.Value(digits) > U64_MAX)
  }

  method DigitsBefore(output: Bytes, end: nat) returns (count: Option<Size.u64>)
    requires end <= |output|
    ensures IsRunBefore(count, output, end)
  {
    hide Size.Value, Size.Digits, Ascii;
    var begin: nat := end;
    while begin > 0 && IsDigit(output[begin - 1])
      invariant begin <= end && DigitStart(output, begin) == DigitStart(output, end)
    {
      begin := begin - 1;
    }
    if begin == end {
      return None;
    }
    ghost var digits := DigitsText(output, begin, end);
    hide DigitsText, DigitStart, DigitsAt, IsPrefixValue;
    var value: Size.u64 := 0;
    NothingYet(digits);
    for index := begin to end
      invariant IsPrefixValue(value as int, digits, index - begin)
    {
      PrefixGrows(value as int, digits, index - begin);
      var digit := (output[index] - '0' as int) as Size.u64;
      if value > (0xFFFF_FFFF_FFFF_FFFF - digit) / 10 {
        return None;
      }
      value := value * 10 + digit;
    }
    AllAreRead(value as int, digits);
    count := Some(value);
  }

  predicate IsPrefixValue(value: nat, digits: string, n: nat) {
    Size.Digits(digits) && n <= |digits| && value == Size.Value(digits[..n])
  }

  lemma AllAreRead(value: nat, digits: string)
    requires IsPrefixValue(value, digits, |digits|)
    ensures Size.Digits(digits) && value == Size.Value(digits)
  {
    assert digits[..|digits|] == digits;
  }

  lemma NothingYet(digits: string)
    requires Size.Digits(digits)
    ensures IsPrefixValue(0, digits, 0)
  {
  }

  lemma PrefixGrows(value: nat, digits: string, n: nat)
    requires IsPrefixValue(value, digits, n) && n < |digits|
    ensures Size.IsDigit(digits[n])
    ensures IsPrefixValue(value * 10 + Size.Digit(digits[n]), digits, n + 1)
    ensures value * 10 + Size.Digit(digits[n]) <= Size.Value(digits)
  {
    Size.ValueOfOneMore(digits, n);
    Size.PrefixIsNoLarger(digits, n + 1);
  }

  // ---- The two spellings -------------------------------------------------------------------------

  /** Whatever comes before, a printed count in front of the last `bytes` is read back. */
  lemma PrintedCountIsRead(before: Bytes, count: Size.u64, blanks: nat, after: Bytes, read: Option<Size.u64>)
    requires !EndsInDigit(before) && !Contains((BYTES_WORD + after)[1..], BYTES_WORD)
    requires IsCountIn(read, before + (Ascii(Size.Decimal(count as int)) + (Blanks(blanks) + (BYTES_WORD + after))))
    ensures read == Some(count)
  {
    hide Size.Value, Size.Decimal, LastOf;
    var page := Page(before, Size.Decimal(count as int), blanks, after);
    Size.DecimalIsRead(count as int);
    var output := Written(page);
    assert Says(output, page);
    if read.Some? {
      var other :| Says(output, other) && Count(other) == read.value as int;
      PageIsRead(output, page);
      PageIsRead(output, other);
    }
  }
}
