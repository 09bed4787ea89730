/** Sizes as people write them, in 64-bit fixed point (src/lib/model/size.cpp). */
module Size {
  import opened Results
  import opened Units

  // A 64-bit machine integer: Dafny rejects any sum or product below that could leave the range.
  newtype u64 = x: int | 0 <= x <= U64_MAX

  const KIB: u64 := 1024
  const MIB: u64 := 1024 * KIB
  const GIB: u64 := 1024 * MIB
  const TIB: u64 := 1024 * GIB
  const PIB: u64 := 1024 * TIB

  const MAX_FRACTION_DIGITS := 9

  predicate IsSpace(c: char) {
    c == ' ' || c == '\t' || c == '\r' || c == '\n'
  }

  predicate IsDigit(c: char) {
    '0' <= c <= '9'
  }

  function Lower(c: char): char {
    if 'A' <= c <= 'Z' then c - 'A' + 'a' else c
  }

  function LowerAll(s: string): (r: string)
    ensures |r| == |s| && forall k | 0 <= k < |s| :: r[k] == Lower(s[k])
  {
    seq(|s|, i requires 0 <= i < |s| => Lower(s[i]))
  }

  // Every suffix is a binary multiple; `kb` is 1024, not 1000.
  const SUFFIXES: seq<(string, u64)> := [
    ("", 1), ("b", 1), ("k", KIB), ("kb", KIB), ("kib", KIB), ("m", MIB), ("mb", MIB), ("mib", MIB),
    ("g", GIB), ("gb", GIB), ("gib", GIB), ("t", TIB), ("tb", TIB), ("tib", TIB), ("p", PIB), ("pib", PIB)]

  /** The unit of a lower-case suffix, from row `k` of the table on. */
  function Lookup(name: string, k: nat): (unit: Option<u64>)
    decreases 16 - k
  {
    if k >= 16 then None
    else if SUFFIXES[k].0 == name then Some(SUFFIXES[k].1)
    else Lookup(name, k + 1)
  }

  function Suffix(name: string): Option<u64> {
    Lookup(name, 0)
  }

  lemma {:induction false} LookupFindsARow(name: string, k: nat)
    ensures Lookup(name, k).Some? ==> exists i | k <= i < 16 :: SUFFIXES[i] == (name, Lookup(name, k).value)
    decreases 16 - k
  {
    if k < 16 && SUFFIXES[k].0 != name {
      LookupFindsARow(name, k + 1);
    } else if k < 16 {
      assert SUFFIXES[k] == (name, SUFFIXES[k].1);
    }
  }

  predicate BinaryUnit(unit: u64) {
    unit == 1 || unit == KIB || unit == MIB || unit == GIB || unit == TIB || unit == PIB
  }

  lemma UnitsAreBinary(name: string)
    ensures Suffix(name).Some? ==> BinaryUnit(Suffix(name).value)
    ensures Suffix(name).Some? && name != "" ==> name[0] in {'b', 'k', 'm', 'g', 't', 'p'}
  {
    LookupFindsARow(name, 0);
    if Suffix(name).Some? {
      var i :| 0 <= i < 16 && SUFFIXES[i] == (name, Suffix(name).value);
      RowIsBinary(i);
    }
  }

  lemma RowIsBinary(i: nat)
    requires i < 16
    ensures BinaryUnit(SUFFIXES[i].1)
    ensures SUFFIXES[i].0 != "" ==> SUFFIXES[i].0[0] in {'b', 'k', 'm', 'g', 't', 'p'}
  {
    if i < 4 {
      assert i == 0 || i == 1 || i == 2 || i == 3;
    } else if i < 8 {
      assert i == 4 || i == 5 || i == 6 || i == 7;
    } else if i < 12 {
      assert i == 8 || i == 9 || i == 10 || i == 11;
    } else {
      assert i == 12 || i == 13 || i == 14 || i == 15;
    }
  }

  /** Every suffix and its unit. */
  lemma SuffixesAre(name: string)
    ensures Suffix("") == Some(1) == Suffix("b")
    ensures Suffix("k") == Suffix("kb") == Suffix("kib") == Some(1024)
    ensures Suffix("m") == Suffix("mb") == Suffix("mib") == Some(1_048_576)
    ensures Suffix("g") == Suffix("gb") == Suffix("gib") == Some(1_073_741_824)
    ensures Suffix("t") == Suffix("tb") == Suffix("tib") == Some(1_099_511_627_776)
    ensures Suffix("p") == Suffix("pib") == Some(1_125_899_906_842_624)
    ensures Suffix(name).Some? ==>
              name in {"", "b", "k", "kb", "kib", "m", "mb", "mib", "g", "gb", "gib", "t", "tb", "tib", "p", "pib"}
  {
    hide Suffix, Lookup;
    FirstSuffixes();
    LastSuffixes();
    if Suffix(name).Some? {
      SuffixIsInTable(name);
    }
  }

  lemma FirstSuffixes()
    ensures Suffix("") == Some(1) == Suffix("b")
    ensures Suffix("k") == Suffix("kb") == Suffix("kib") == Some(1024)
    ensures Suffix("m") == Suffix("mb") == Suffix("mib") == Some(1_048_576)
  {
    hide Suffix, Lookup;
    RowIsFound(0);
    RowIsFound(1);
    RowIsFound(2);
    RowIsFound(3);
    RowIsFound(4);
    RowIsFound(5);
    RowIsFound(6);
    RowIsFound(7);
  }

  lemma LastSuffixes()
    ensures Suffix("g") == Suffix("gb") == Suffix("gib") == Some(1_073_741_824)
    ensures Suffix("t") == Suffix("tb") == Suffix("tib") == Some(1_099_511_627_776)
    ensures Suffix("p") == Suffix("pib") == Some(1_125_899_906_842_624)
  {
    hide Suffix, Lookup;
    RowIsFound(8);
    RowIsFound(9);
    RowIsFound(10);
    RowIsFound(11);
    RowIsFound(12);
    RowIsFound(13);
    RowIsFound(14);
    RowIsFound(15);
  }

  lemma SuffixIsInTable(name: string)
    requires Suffix(name).Some?
    ensures name in {"", "b", "k", "kb", "kib", "m", "mb", "mib", "g", "gb", "gib", "t", "tb", "tib", "p", "pib"}
  {
    LookupFindsARow(name, 0);
    var i :| 0 <= i < 16 && SUFFIXES[i] == (name, Suffix(name).value);
    RowIsNamed(i);
  }

  lemma RowIsNamed(i: nat)
    requires i < 16
    ensures SUFFIXES[i].0 in {"", "b", "k", "kb", "kib", "m", "mb", "mib", "g", "gb", "gib", "t", "tb", "tib", "p", "pib"}
  {
    if i < 8 {
      assert i == 0 || i == 1 || i == 2 || i == 3 || i == 4 || i == 5 || i == 6 || i == 7;
    } else {
      assert i == 8 || i == 9 || i == 10 || i == 11 || i == 12 || i == 13 || i == 14 || i == 15;
    }
  }

  // ---- What a size text says ---------------------------------------------------------

  function Digit(c: char): nat
    requires IsDigit(c)
  {
    (c - '0') as int
  }

  /** Ten characters are digits, and each stands for its place among them. */
  lemma DigitsAre(c: char)
    ensures IsDigit(c) <==> c in "0123456789"
    ensures IsDigit(c) ==> "0123456789"[Digit(c)] == c
  {
    var ten := "0123456789";
    if IsDigit(c) {
      assert ten[Digit(c)] == c;
    }
  }

  predicate Digits(s: string) {
    forall k | 0 <= k < |s| :: IsDigit(s[k])
  }

  predicate Spaces(s: string) {
    forall k | 0 <= k < |s| :: IsSpace(s[k])
  }

  function Value(s: string): nat
    requires Digits(s)
  {
    if s == "" then 0 else Value(s[..|s| - 1]) * 10 + Digit(s[|s| - 1])
  }

  function Pow10(n: nat): (p: nat)
    ensures p > 0
  {
    if n == 0 then 1 else 10 * Pow10(n - 1)
  }

  /** `<whole>[.<fraction>]<pad><suffix>`. */
  datatype Reading = Reading(whole: string, fraction: string, pad: string, suffix: string)

  predicate Grammatical(r: Reading) {
    && r.whole != "" && Digits(r.whole) && Digits(r.fraction) && Spaces(r.pad)
    && Suffix(LowerAll(r.suffix)).Some?
  }

  function Fraction(digits: string): string {
    if digits == "" then "" else "." + digits
  }

  function Written(r: Reading): string {
    r.whole + (Fraction(r.fraction) + (r.pad + r.suffix))
  }

  /** `r` is a way to read `s`. */
  predicate Reads(s: string, r: Reading) {
    Grammatical(r) && Written(r) == s
  }

  function Multiplier(r: Reading): (unit: u64)
    requires Grammatical(r)
    ensures BinaryUnit(unit)
  {
    UnitsAreBinary(LowerAll(r.suffix));
    Suffix(LowerAll(r.suffix)).value
  }

  /** The digits of the fraction that are looked at. */
  function Kept(r: Reading): string {
    r.fraction[..Min(|r.fraction|, MAX_FRACTION_DIGITS)]
  }

  predicate Fits(r: Reading)
    requires Grammatical(r)
  {
    Value(r.whole) * Multiplier(r) as int <= U64_MAX
  }

  function Times(a: nat, b: nat): nat {
    a * b
  }

  /** The floor of `multiplier` times `whole.fraction`. */
  function Scaled(multiplier: nat, whole: string, fraction: string): nat
    requires Digits(whole + fraction)
  {
    QuotientIsNatural(Times(multiplier, Value(whole + fraction)), Pow10(|fraction|));
    Times(multiplier, Value(whole + fraction)) / Pow10(|fraction|)
  }

  // ---- Reading is unambiguous -----------------------------------------------------------

  /** The length of the longest prefix of digits, and of spaces. */
  function DigitRun(s: string): (n: nat)
    ensures n <= |s| && Digits(s[..n]) && (n < |s| ==> !IsDigit(s[n]))
  {
    if s == "" || !IsDigit(s[0]) then 0 else
      assert s[..1 + DigitRun(s[1..])] == [s[0]] + s[1..][..DigitRun(s[1..])];
      1 + DigitRun(s[1..])
  }

  function SpaceRun(s: string): (n: nat)
    ensures n <= |s| && Spaces(s[..n]) && (n < |s| ==> !IsSpace(s[n]))
  {
    if s == "" || !IsSpace(s[0]) then 0 else
      assert s[..1 + SpaceRun(s[1..])] == [s[0]] + s[1..][..SpaceRun(s[1..])];
      1 + SpaceRun(s[1..])
  }

  /** The digits after the point `s` begins with. */
  function PointDigits(s: string): (f: string)
    ensures Digits(f) && (f != "" ==> s != "" && s[0] == '.' && |f| < |s|)
  {
    if s != "" && s[0] == '.' then s[1..][..DigitRun(s[1..])] else ""
  }

  /** The one way to read a text, if there is one. */
  function Scan(s: string): Option<Reading> {
    var n := DigitRun(s);
    if n == 0 then None else ScanRest(s[..n], s[n..])
  }

  function ScanRest(whole: string, rest: string): Option<Reading> {
    var fraction := PointDigits(rest);
    if rest != "" && rest[0] == '.' && fraction == "" then None
    else ScanSuffix(whole, fraction, rest[|Fraction(fraction)|..])
  }

  function ScanSuffix(whole: string, fraction: string, rest: string): Option<Reading> {
    var n := SpaceRun(rest);
    if Suffix(LowerAll(rest[n..])).None? then None else Some(Reading(whole, fraction, rest[..n], rest[n..]))
  }

  lemma ScanSuffixIsSound(whole: string, fraction: string, rest: string)
    requires whole != "" && Digits(whole) && Digits(fraction)
    ensures var r := ScanSuffix(whole, fraction, rest);
            r.Some? ==> Reads(whole + (Fraction(fraction) + rest), r.value)
  {
    assert rest == rest[..SpaceRun(rest)] + rest[SpaceRun(rest)..];
  }

  lemma PointThenRest(s: string)
    ensures s == Fraction(PointDigits(s)) + s[|Fraction(PointDigits(s))|..]
  {
    if PointDigits(s) != "" {
      assert s == "." + s[1..];
    }
  }

  lemma ScanRestIsSound(whole: string, rest: string)
    requires whole != "" && Digits(whole)
    ensures ScanRest(whole, rest).Some? ==> Reads(whole + rest, ScanRest(whole, rest).value)
  {
    PointThenRest(rest);
    ScanSuffixIsSound(whole, PointDigits(rest), rest[|Fraction(PointDigits(rest))|..]);
  }

  lemma ScanIsSound(s: string)
    ensures Scan(s).Some? ==> Reads(s, Scan(s).value)
  {
    hide DigitRun, ScanRest, Grammatical, Digits, Written;
    if DigitRun(s) > 0 {
      ScanRestIsSound(s[..DigitRun(s)], s[DigitRun(s)..]);
      HalvesAreWhole(s, DigitRun(s));
    }
  }

  lemma HalvesAreWhole(s: string, n: nat)
    requires n <= |s|
    ensures s[..n] + s[n..] == s
  {
  }

  lemma {:induction false} DigitRunStops(s: string, t: string)
    requires Digits(s) && (t == "" || !IsDigit(t[0]))
    ensures DigitRun(s + t) == |s|
  {
    if s != "" {
      assert (s + t)[1..] == s[1..] + t;
      DigitRunStops(s[1..], t);
    } else {
      assert s + t == t;
    }
  }

  lemma {:induction false} SpaceRunStops(s: string, t: string)
    requires Spaces(s) && (t == "" || !IsSpace(t[0]))
    ensures SpaceRun(s + t) == |s|
  {
    if s != "" {
      assert (s + t)[1..] == s[1..] + t;
      SpaceRunStops(s[1..], t);
    } else {
      assert s + t == t;
    }
  }

  /** A suffix begins with a letter, so it ends digits and spaces. */
  lemma SuffixBeginsWithLetter(suffix: string)
    requires suffix != "" && Suffix(LowerAll(suffix)).Some?
    ensures !IsDigit(suffix[0]) && !IsSpace(suffix[0]) && suffix[0] != '.'
  {
    UnitsAreBinary(LowerAll(suffix));
    assert LowerAll(suffix)[0] == Lower(suffix[0]);
  }

  lemma ScanSuffixIsComplete(r: Reading)
    requires Grammatical(r)
    ensures var last := r.pad + r.suffix;
            && ScanSuffix(r.whole, r.fraction, last) == Some(r)
            && (last != "" ==> !IsDigit(last[0]) && last[0] != '.')
  {
    var last := r.pad + r.suffix;
    if r.suffix != "" {
      SuffixBeginsWithLetter(r.suffix);
    }
    SpaceRunStops(r.pad, r.suffix);
    assert last[..|r.pad|] == r.pad && last[|r.pad|..] == r.suffix;
  }

  /** Every grammatical reading of a text is the one `Scan` finds. */
  lemma ScanIsComplete(r: Reading)
    requires Grammatical(r)
    ensures Scan(Written(r)) == Some(r)
  {
    var last := r.pad + r.suffix;
    var rest := Fraction(r.fraction) + last;
    ScanSuffixIsComplete(r);
    DigitRunStops(r.whole, rest);
    assert Written(r)[..|r.whole|] == r.whole && Written(r)[|r.whole|..] == rest;
    ScansFraction(r.fraction, last);
  }

  lemma ScansFraction(fraction: string, last: string)
    requires Digits(fraction) && (last != "" ==> !IsDigit(last[0]) && last[0] != '.')
    ensures var rest := Fraction(fraction) + last;
            && PointDigits(rest) == fraction && rest[|Fraction(fraction)|..] == last
            && (rest != "" && rest[0] == '.' ==> fraction != "")
  {
    var rest := Fraction(fraction) + last;
    if fraction == "" {
      assert rest == last;
    } else {
      assert rest[1..] == fraction + last;
      DigitRunStops(fraction, last);
    }
  }

  // ---- What parsing means ----------------------------------------------------------------

  function TrimFront(s: string): string {
    if s != "" && IsSpace(s[0]) then TrimFront(s[1..]) else s
  }

  function TrimBack(s: string): string {
    if s != "" && IsSpace(s[|s| - 1]) then TrimBack(s[..|s| - 1]) else s
  }

  function Trimmed(s: string): string {
    TrimBack(TrimFront(s))
  }

  /** What trimming takes off on either side, and where it stops. */
  lemma TrimmedSays(s: string) returns (front: string, back: string)
    ensures s == front + Trimmed(s) + back
    ensures forall k | 0 <= k < |front| :: front[k] in " \t\r\n"
    ensures forall k | 0 <= k < |back| :: back[k] in " \t\r\n"
    ensures Trimmed(s) != "" ==> Trimmed(s)[0] !in " \t\r\n" && Trimmed(s)[|Trimmed(s)| - 1] !in " \t\r\n"
  {
    front := FrontIsWhite(s);
    back := BackIsWhite(TrimFront(s));
    assert Trimmed(s) != "" ==> Trimmed(s)[0] == TrimFront(s)[0];
    assert " \t\r\n" == [' ', '\t', '\r', '\n'];
  }

  lemma {:induction false} FrontIsWhite(s: string) returns (front: string)
    ensures s == front + TrimFront(s) && forall k | 0 <= k < |front| :: front[k] in " \t\r\n"
    ensures TrimFront(s) != "" ==> !IsSpace(TrimFront(s)[0])
  {
    front := "";
    if s != "" && IsSpace(s[0]) {
      assert s[0] in " \t\r\n" by {
        assert " \t\r\n" == [' ', '\t', '\r', '\n'];
      }
      var rest := FrontIsWhite(s[1..]);
      front := [s[0]] + rest;
    }
  }

  lemma {:induction false} BackIsWhite(s: string) returns (back: string)
    ensures s == TrimBack(s) + back && forall k | 0 <= k < |back| :: back[k] in " \t\r\n"
    ensures TrimBack(s) != "" ==> !IsSpace(TrimBack(s)[|TrimBack(s)| - 1])
  {
    back := "";
    if s != "" && IsSpace(s[|s| - 1]) {
      assert s[|s| - 1] in " \t\r\n" by {
        assert " \t\r\n" == [' ', '\t', '\r', '\n'];
      }
      var rest := BackIsWhite(s[..|s| - 1]);
      back := rest + [s[|s| - 1]];
    }
  }

  /** `bytes` is the size `text` says: some grammatical reading of the trimmed text fits 64 bits, and `bytes` is the floor
      of its unit times its number, the fraction cut to nine digits. */
  ghost predicate Says(text: string, bytes: u64) {
    exists r :: Reads(Trimmed(text), r) && Fits(r) && HasSize(r, bytes)
  }

  predicate HasSize(r: Reading, bytes: u64)
    requires Grammatical(r)
  {
    DigitsOfSum(r.whole, Kept(r));
    bytes as int == Scaled(Multiplier(r) as int, r.whole, Kept(r))
  }

  lemma DigitsOfSum(s: string, t: string)
    requires Digits(s) && Digits(t)
    ensures Digits(s + t)
  {
  }

  /** A text says at most one size. */
  lemma SaysOneSize(text: string, a: u64, b: u64)
    requires Says(text, a) && Says(text, b)
    ensures a == b
  {
    var r :| Reads(Trimmed(text), r) && Fits(r) && HasSize(r, a);
    var q :| Reads(Trimmed(text), q) && Fits(q) && HasSize(q, b);
    ScanIsComplete(r);
    ScanIsComplete(q);
  }

  // ---- Arithmetic ---------------------------------------------------------------------------

  lemma MulGrows(a: nat, b: nat, d: nat)
    requires a <= b
    ensures a * d <= b * d && d * a <= d * b
  {
    assert b * d == a * d + (b - a) * d;
  }

  lemma TenTimes(v: nat, p: nat, f: nat)
    ensures (v * p + f) * 10 == v * (10 * p) + f * 10
  {
  }

  lemma {:induction false} ValueOfSum(s: string, t: string)
    requires Digits(s) && Digits(t)
    ensures Digits(s + t) && Value(s + t) == Value(s) * Pow10(|t|) + Value(t)
  {
    DigitsOfSum(s, t);
    if t == "" {
      assert s + t == s;
      assert Value(s) * 1 == Value(s);
    } else {
      var front, last := t[..|t| - 1], t[|t| - 1];
      ValueOfSum(s, front);
      assert (s + t)[..|s + t| - 1] == s + front && (s + t)[|s + t| - 1] == last;
      TenTimes(Value(s), Pow10(|front|), Value(front));
    }
  }

  lemma {:induction false} ValueIsSmall(s: string)
    requires Digits(s)
    ensures Value(s) < Pow10(|s|)
  {
    if s != "" {
      ValueIsSmall(s[..|s| - 1]);
    }
  }

  /** Dividing a sum whose first part divides evenly. */
  lemma QuotientOfSum(a: nat, d: nat, b: nat)
    requires d > 0
    ensures (a * d + b) / d == a + b / d
  {
    var q, r := b / d, b % d;
    assert a * d + b == (a + q) * d + r;
    QuotientIsUnique(a * d + b, d, a + q, r);
  }

  lemma QuotientIsUnique(n: nat, d: nat, q: nat, r: nat)
    requires d > 0 && n == q * d + r && r < d
    ensures n / d == q
  {
    var p := n / d;
    assert n == p * d + n % d;
    assert (p + 1) * d == p * d + d && (q + 1) * d == q * d + d;
    MulGrows(if p < q then p + 1 else q, q, d);
    MulGrows(if q < p then q + 1 else p, p, d);
  }

  lemma QuotientIsMonotonic(a: nat, b: nat, d: nat)
    requires d > 0 && a <= b
    ensures a / d <= b / d
  {
    var p, q := a / d, b / d;
    assert a == p * d + a % d && b == q * d + b % d && (q + 1) * d == q * d + d;
    MulGrows(if q < p then q + 1 else p, p, d);
  }

  lemma Distribute(a: nat, b: nat, c: nat)
    ensures (a + b) * c == a * c + b * c && c * (a + b) == c * a + c * b
  {
  }

  lemma Associate(a: nat, b: nat, c: nat)
    ensures a * b * c == a * (b * c)
  {
  }

  lemma DivisionSplits(m: nat, d: nat)
    requires d > 0
    ensures m == m / d * d + m % d && m % d < d && m / d >= 0
  {
  }

  lemma ScalingProducts(n: nat, d: nat, m: nat, q: nat, r: nat)
    requires n < d <= 1_000_000_000 && m == q * d + r && r < d
    ensures n * q <= m && n * r <= 1_000_000_000_000_000_000
    ensures n * m == n * q * d + n * r
  {
    MulGrows(n, d, q);
    MulGrows(n, 1_000_000_000, r);
    MulGrows(r, 1_000_000_000, 1_000_000_000);
    Distribute(q * d, r, n);
    Associate(n, q, d);
  }

  /** The two products of the fixed-point scaling, and that neither leaves 64 bits. */
  lemma ScalingSplits(n: nat, d: nat, m: nat)
    requires n < d <= 1_000_000_000
    ensures n * (m / d) <= m && n * (m % d) <= 1_000_000_000_000_000_000
    ensures n * (m / d) + n * (m % d) / d == n * m / d
    ensures m > 0 ==> n * m / d < m
  {
    DivisionSplits(m, d);
    ScalingProducts(n, d, m, m / d, m % d);
    QuotientOfSum(n * (m / d), d, n * (m % d));
    if m > 0 {
      QuotientIsBelow(n, d, m);
    }
  }

  lemma QuotientIsBelow(n: nat, d: nat, m: nat)
    requires n < d && m > 0
    ensures n * m / d < m
  {
    MulGrows(n + 1, d, m);
    assert (n + 1) * m == n * m + m;
    var p := n * m / d;
    if p >= m {
      MulGrows(m, p, d);
    }
  }

  /** A multiple of a binary unit that fits leaves room for anything less than one more unit. */
  lemma RoomForFraction(r: Reading)
    requires Grammatical(r) && Fits(r)
    ensures Value(r.whole) * Multiplier(r) as int + (Multiplier(r) as int - 1) <= U64_MAX
    ensures Multiplier(r) as int <= 0x4_0000_0000_0000
  {
    FractionFits(Value(r.whole), Multiplier(r));
  }

  lemma FractionFits(w: nat, m: u64)
    requires BinaryUnit(m) && w * m as int <= U64_MAX
    ensures w * m as int + (m as int - 1) <= U64_MAX
  {
    if m == KIB {
    } else if m == MIB {
    } else if m == GIB {
    } else if m == TIB {
    } else if m == PIB {
    } else {
      assert w * 1 == w;
    }
  }

  lemma QuotientOfMix(m: nat, w: nat, p: nat, f: nat)
    requires p > 0
    ensures Times(m, w * p + f) / p == w * m + f * m / p
  {
    var a, b := w * m, f * m;
    assert m * (w * p + f) == a * p + b by {
      assert m * (w * p) == a * p;
    }
    QuotientOfSum(a, p, b);
  }

  /** The size is the whole part's bytes plus the fraction's. */
  lemma ScaledSplits(m: nat, whole: string, fraction: string)
    requires Digits(whole) && Digits(fraction)
    ensures Digits(whole + fraction)
    ensures Scaled(m, whole, fraction) == Value(whole) * m + Value(fraction) * m / Pow10(|fraction|)
  {
    hide Value, Pow10, Digits, Times;
    ValueOfSum(whole, fraction);
    QuotientOfMix(m, Value(whole), Pow10(|fraction|), Value(fraction));
  }

  // ---- The parser ---------------------------------------------------------------------------

  datatype Number = Number(whole: u64, numerator: u64, denominator: u64)

  /** `value * factor`, or nothing on overflow. */
  function CheckedMul(value: u64, factor: u64): (r: Option<u64>)
    requires factor > 0
    ensures r.Some? <==> value as int * factor as int <= U64_MAX
    ensures r.Some? ==> r.value as int == value as int * factor as int
  {
    var v, f: nat := value as int, factor as int;
    DivisionBoundsProduct(v, f, U64_MAX);
    if v > U64_MAX / f then None else Some((v * f) as u64)
  }

  lemma DivisionBoundsProduct(v: nat, f: nat, max: nat)
    requires f > 0
    ensures v > max / f <==> v * f > max
  {
    var q := max / f;
    assert max == q * f + max % f && (q + 1) * f == q * f + f;
    if v > q {
      MulGrows(q + 1, v, f);
    } else {
      MulGrows(v, q, f);
    }
  }

  /** `a + b`, or nothing on overflow. */
  function CheckedAdd(a: u64, b: u64): (r: Option<u64>)
    ensures r.Some? <==> a as int + b as int <= U64_MAX
    ensures r.Some? ==> r.value as int == a as int + b as int
  {
    if a > 0xFFFF_FFFF_FFFF_FFFF - b then None else Some(a + b)
  }

  lemma {:induction false} PrefixIsNoLarger(s: string, n: nat)
    requires n <= |s| && Digits(s)
    ensures Value(s[..n]) <= Value(s)
    decreases |s|
  {
    if n == |s| {
      assert s[..n] == s;
    } else {
      assert s[..|s| - 1][..n] == s[..n];
      PrefixIsNoLarger(s[..|s| - 1], n);
    }
  }

  lemma ValueOfOneMore(s: string, n: nat)
    requires n < |s| && Digits(s[..n + 1])
    ensures Digits(s[..n]) && Value(s[..n + 1]) == Value(s[..n]) * 10 + Digit(s[n])
  {
    assert s[..n + 1][..n] == s[..n];
  }

  lemma {:induction false} DigitRunIsLongest(s: string, n: nat)
    requires n <= |s| && Digits(s[..n]) && (n < |s| ==> !IsDigit(s[n]))
    ensures DigitRun(s) == n
  {
    assert s == s[..n] + s[n..];
    DigitRunStops(s[..n], s[n..]);
  }

  /** The digits before the point. Nothing when there are none, or when their value does not fit. */
  method ParseWhole(input: string) returns (whole: Option<u64>, pos: nat)
    ensures whole.Some? <==> DigitRun(input) > 0 && Value(input[..DigitRun(input)]) <= U64_MAX
    ensures whole.Some? ==> pos == DigitRun(input) && whole.value as int == Value(input[..pos])
  {
    var value: u64 := 0;
    ghost var run := DigitRun(input);
    pos := 0;
    while pos < |input| && IsDigit(input[pos])
      invariant pos <= |input| && Digits(input[..pos]) && pos <= run
      invariant value as int == Value(input[..pos])
    {
      assert pos < run by {
        if pos == run {
          assert false;
        }
      }
      assert input[..run][..pos + 1] == input[..pos + 1];
      ValueOfOneMore(input, pos);
      PrefixIsNoLarger(input[..run], pos + 1);
      var scaled := CheckedMul(value, 10);
      if scaled.None? {
        return None, pos;
      }
      var added := CheckedAdd(scaled.value, Digit(input[pos]) as u64);
      if added.None? {
        return None, pos;
      }
      value := added.value;
      pos := pos + 1;
    }
    DigitRunIsLongest(input, pos);
    whole := if pos == 0 then None else Some(value);
  }

  /** The first nine of the digits after a point, as a ratio, and how many digits there were. */
  method FractionDigits(tail: string) returns (run: nat, numerator: u64, denominator: u64)
    ensures run == DigitRun(tail)
    ensures var kept := tail[..Min(run, MAX_FRACTION_DIGITS)];
            && Digits(kept) && numerator as int == Value(kept) && denominator as int == Pow10(|kept|)
            && numerator < denominator <= 1_000_000_000
  {
    numerator, denominator, run := 0, 1, 0;
    var digits := 0;
    while run < |tail| && IsDigit(tail[run])
      invariant 0 <= run <= |tail| && Digits(tail[..run]) && digits == Min(run, MAX_FRACTION_DIGITS)
      invariant numerator as int == Value(tail[..digits]) < Pow10(digits) == denominator as int <= 1_000_000_000
    {
      DigitExtends(tail, run);
      if digits < MAX_FRACTION_DIGITS {
        ValueOfOneMore(tail, digits);
        ValueIsSmall(tail[..digits + 1]);
        PowersUpToNine(digits + 1);
        numerator := numerator * 10 + Digit(tail[run]) as u64;
        denominator := denominator * 10;
        digits := digits + 1;
      }
      run := run + 1;
    }
    DigitRunIsLongest(tail, run);
  }

  /** An optional `.<digits>`; only the first nine digits count. Fails on a bare point. */
  method ParseFraction(input: string, start: nat) returns (ok: bool, pos: nat, numerator: u64, denominator: u64)
    requires start <= |input|
    ensures var rest := input[start..];
            var fraction := PointDigits(rest);
            var kept := fraction[..Min(|fraction|, MAX_FRACTION_DIGITS)];
            && ok == !(rest != "" && rest[0] == '.' && fraction == "")
            && (ok ==> pos == start + |Fraction(fraction)|)
            && numerator as int == Value(kept) && denominator as int == Pow10(|kept|)
            && numerator < denominator <= 1_000_000_000
  {
    if start >= |input| || input[start] != '.' {
      return true, start, 0, 1;
    }
    pos := start + 1;
    ghost var tail := input[start..][1..];
    assert input[pos..] == tail;
    var run;
    run, numerator, denominator := FractionDigits(input[pos..]);
    assert tail[..run][..Min(run, MAX_FRACTION_DIGITS)] == tail[..Min(run, MAX_FRACTION_DIGITS)];
    pos := pos + run;
    ok := run > 0;
  }

  lemma DigitExtends(s: string, n: nat)
    requires n < |s| && Digits(s[..n]) && IsDigit(s[n])
    ensures Digits(s[..n + 1])
  {
    assert s[..n + 1] == s[..n] + [s[n]];
  }

  lemma PowersUpToNine(n: nat)
    requires 1 <= n <= 9
    ensures Pow10(n) == 10 * Pow10(n - 1) && Pow10(n) <= 1_000_000_000
  {
    assert Pow10(1) == 10;
    assert Pow10(2) == 100;
    assert Pow10(3) == 1000;
    assert Pow10(4) == 10000;
    assert Pow10(5) == 100000;
    assert Pow10(6) == 1000000;
    assert Pow10(7) == 10000000;
    assert Pow10(8) == 100000000;
    assert Pow10(9) == 1000000000;
  }

  lemma {:induction false} SpaceRunIsLongest(s: string, n: nat)
    requires n <= |s| && Spaces(s[..n]) && (n < |s| ==> !IsSpace(s[n]))
    ensures SpaceRun(s) == n
  {
    assert s == s[..n] + s[n..];
    SpaceRunStops(s[..n], s[n..]);
  }

  method SkipSpaces(input: string, start: nat) returns (pos: nat)
    requires start <= |input|
    ensures pos == start + SpaceRun(input[start..]) <= |input|
  {
    hide SpaceRun;
    pos := start;
    while pos < |input| && IsSpace(input[pos])
      invariant start <= pos <= |input| && forall k | start <= k < pos :: IsSpace(input[k])
    {
      pos := pos + 1;
    }
    ghost var rest := input[start..];
    assert forall k | 0 <= k < |rest| :: rest[k] == input[start + k];
    SpaceRunIsLongest(rest, pos - start);
  }

  method Lowered(input: string, pos: nat) returns (unit: string)
    requires pos <= |input|
    ensures unit == LowerAll(input[pos..])
  {
    unit := "";
    for i := pos to |input|
      invariant |unit| == i - pos && forall k | 0 <= k < |unit| :: unit[k] == Lower(input[pos + k])
    {
      unit := unit + [Lower(input[i])];
    }
    assert unit == LowerAll(input[pos..]);
  }

  method FindSuffix(unit: string) returns (multiplier: Option<u64>)
    ensures multiplier == Suffix(unit)
  {
    for k := 0 to |SUFFIXES|
      invariant Suffix(unit) == Lookup(unit, k)
    {
      if SUFFIXES[k].0 == unit {
        return Some(SUFFIXES[k].1);
      }
    }
    multiplier := None;
  }

  /** The unit after the number, in any case and after any spaces. */
  method ParseMultiplier(input: string, start: nat) returns (multiplier: Option<u64>)
    requires start <= |input|
    ensures var rest := input[start..];
            multiplier == Suffix(LowerAll(rest[SpaceRun(rest)..]))
  {
    hide SpaceRun, LowerAll, Suffix;
    var pos := SkipSpaces(input, start);
    assert input[start..][pos - start..] == input[pos..];
    var unit := Lowered(input, pos);
    multiplier := FindSuffix(unit);
  }

  lemma U64Quotient(a: u64, b: u64)
    requires b > 0
    ensures (a / b) as int == a as int / b as int && (a % b) as int == a as int % b as int
  {
  }

  /** The floor of `numerator * multiplier / denominator`, with every intermediate product inside 64 bits. */
  method ScaleFraction(numerator: u64, denominator: u64, multiplier: u64) returns (bytes: u64)
    requires numerator < denominator <= 1_000_000_000 && 0 < multiplier <= PIB
    ensures bytes as int == Times(numerator as int, multiplier as int) / denominator as int < multiplier as int
  {
    hide Times;
    var quotient, rest := multiplier / denominator, multiplier % denominator;
    U64Quotient(multiplier, denominator);
    ScalingSplitsBy(numerator as int, denominator as int, multiplier as int, quotient as int, rest as int);
    U64Product(numerator, quotient);
    U64Product(numerator, rest);
    var scaled, remainder := numerator * quotient, numerator * rest;
    U64Quotient(remainder, denominator);
    bytes := scaled + remainder / denominator;
  }

  lemma U64Product(a: u64, b: u64)
    requires Times(a as int, b as int) <= U64_MAX
    ensures 0 <= a as int * b as int <= U64_MAX && (a * b) as int == Times(a as int, b as int)
  {
  }

  lemma ScalingSplitsBy(n: nat, d: nat, m: nat, q: nat, r: nat)
    requires n < d <= 1_000_000_000 && m > 0 && q == m / d && r == m % d
    ensures Times(n, q) + Times(n, r) / d == Times(n, m) / d < m
    ensures Times(n, q) <= Times(n, m) / d && Times(n, r) <= U64_MAX
  {
    ScalingSplits(n, d, m);
    QuotientIsNatural(Times(n, r), d);
  }

  lemma QuotientIsNatural(a: nat, d: nat)
    requires d > 0
    ensures a / d >= 0
  {
  }

  method Trim(text: string) returns (trimmed: string)
    ensures trimmed == Trimmed(text)
  {
    trimmed := text;
    while trimmed != "" && IsSpace(trimmed[0])
      invariant TrimFront(trimmed) == TrimFront(text)
      decreases |trimmed|
    {
      trimmed := trimmed[1..];
    }
    while trimmed != "" && IsSpace(trimmed[|trimmed| - 1])
      invariant TrimBack(trimmed) == Trimmed(text)
      decreases |trimmed|
    {
      trimmed := trimmed[..|trimmed| - 1];
    }
  }

  lemma StaysTooLarge(value: nat, m: nat)
    requires value > U64_MAX && m >= 1
    ensures value * m > U64_MAX
  {
    MulGrows(1, m, value);
  }

  /** A whole part over 64 bits is over in every unit. */
  lemma WholeTooLarge(s: string)
    requires DigitRun(s) > 0 ==> Value(s[..DigitRun(s)]) > U64_MAX
    ensures var r := Scan(s); r.Some? ==> Grammatical(r.value) && !Fits(r.value)
  {
    var r := Scan(s);
    ScanIsSound(s);
    if r.Some? {
      StaysTooLarge(Value(r.value.whole), Multiplier(r.value) as int);
    }
  }

  /** What the parts of a readable text add up to, and that the sum stays in range. */
  lemma PartsAddUp(r: Reading)
    requires Grammatical(r) && Fits(r)
    ensures Digits(r.whole + Kept(r))
    ensures var m, kept := Multiplier(r) as int, Kept(r);
            && 0 < m <= PIB as int
            && Scaled(m, r.whole, kept) == Value(r.whole) * m + Value(kept) * m / Pow10(|kept|)
            && Value(r.whole) * m + m - 1 <= U64_MAX
  {
    RoomForFraction(r);
    ScaledSplits(Multiplier(r) as int, r.whole, Kept(r));
  }

  /** The bytes of a readable text that fits, computed in 64 bits. */
  method Evaluate(ghost r: Reading, whole: u64, numerator: u64, denominator: u64, multiplier: u64)
    returns (bytes: Option<u64>)
    requires PartsOf(r, Number(whole, numerator, denominator), multiplier)
    ensures bytes.Some? <==> Fits(r)
    ensures bytes.Some? ==> HasSize(r, bytes.value)
  {
    var wholeBytes := CheckedMul(whole, multiplier);
    if wholeBytes.None? {
      return None;
    }
    PartsAddUp(r);
    var fractionBytes := ScaleFraction(numerator, denominator, multiplier);
    return Some(wholeBytes.value + fractionBytes);
  }

  /** A text is a size exactly when it is grammatical and its whole part times its unit fits 64 bits. */
  method ParseSize(text: string) returns (bytes: Option<u64>)
    ensures bytes.Some? <==> exists r :: Reads(Trimmed(text), r) && Fits(r)
    ensures bytes.Some? ==> Says(text, bytes.value)
  {
    hide Trimmed, Value, Fits, HasSize, Pow10, Digits, Scan, Says, Reads, Grammatical, Multiplier, Kept;
    var input := Trim(text);
    AcceptedIsScanned(text);
    var number, multiplier := ParseParts(input);
    if number.None? {
      return None;
    }
    var n := number.value;
    bytes := Evaluate(Scan(input).value, n.whole, n.numerator, n.denominator, multiplier);
    if bytes.Some? {
      ScanSays(text, bytes.value);
    }
  }

  /** `number` and `multiplier` are the parts of `r`. */
  ghost predicate PartsOf(r: Reading, number: Number, multiplier: u64) {
    && Grammatical(r) && Digits(Kept(r)) && multiplier == Multiplier(r)
    && number.whole as int == Value(r.whole)
    && number.numerator as int == Value(Kept(r)) && number.denominator as int == Pow10(|Kept(r)|)
    && number.numerator < number.denominator <= 1_000_000_000
  }

  /** The parts of a text that is a size as far as the grammar goes; none if it is not, or if the whole part alone is too
      large. */
  method ParseParts(input: string) returns (number: Option<Number>, multiplier: u64)
    ensures number.Some? ==> Scan(input).Some? && PartsOf(Scan(input).value, number.value, multiplier)
    ensures number.None? ==> Scan(input).Some? ==> Grammatical(Scan(input).value) && !Fits(Scan(input).value)
  {
    hide Value, Fits, Pow10, Digits, Scan, LowerAll, Suffix, SpaceRun, PointDigits, Kept, Multiplier, DigitRun;
    multiplier := 0;
    if input == "" {
      NothingIsScanned();
      return None, multiplier;
    }
    var whole, pos := ParseWhole(input);
    if whole.None? {
      WholeTooLarge(input);
      return None, multiplier;
    }
    var ok, next, numerator, denominator := ParseFraction(input, pos);
    ScansTo(input, pos);
    if !ok {
      return None, multiplier;
    }
    var unit := ParseMultiplier(input, next);
    if unit.None? {
      return None, multiplier;
    }
    return Some(Number(whole.value, numerator, denominator)), unit.value;
  }

  lemma NothingIsScanned()
    ensures Scan("").None?
  {
  }

  /** What the scan of a text with digits in front comes to. */
  lemma ScansTo(input: string, pos: nat)
    requires pos == DigitRun(input) > 0
    ensures var fraction := PointDigits(input[pos..]);
            var next := pos + |Fraction(fraction)|;
            var rest := input[pos..];
            if rest != "" && rest[0] == '.' && fraction == "" then Scan(input).None?
            else
              && next <= |input|
              && var last := input[next..];
                 var unit := Suffix(LowerAll(last[SpaceRun(last)..]));
              && (Scan(input).Some? <==> unit.Some?)
              && (unit.Some? ==>
                    var r := Scan(input).value;
                    && Grammatical(r) && r.whole == input[..pos] && r.fraction == fraction
                    && Kept(r) == fraction[..Min(|fraction|, MAX_FRACTION_DIGITS)]
                    && Digits(Kept(r)) && Multiplier(r) == unit.value)
  {
    hide Suffix, LowerAll, DigitRun, PointDigits, SpaceRun, Written, Spaces, Value;
    ScanIsSound(input);
    var fraction := PointDigits(input[pos..]);
    assert input[pos..][|Fraction(fraction)|..] == input[pos + |Fraction(fraction)|..];
  }

  /** Accepted is what scans and fits. */
  lemma AcceptedIsScanned(text: string)
    ensures var s := Scan(Trimmed(text));
            && (s.Some? ==> Grammatical(s.value))
            && ((exists r :: Reads(Trimmed(text), r) && Fits(r)) <==> s.Some? && Fits(s.value))
  {
    hide Trimmed, Fits, Scan, Grammatical;
    ReadingsAreScans(Trimmed(text));
    ScanIsSound(Trimmed(text));
  }

  lemma ScanSays(text: string, bytes: u64)
    requires var s := Scan(Trimmed(text)); s.Some? && Grammatical(s.value) && Fits(s.value) && HasSize(s.value, bytes)
    ensures Says(text, bytes)
  {
    hide Trimmed, Fits, Scan, HasSize, Grammatical;
    ScanIsSound(Trimmed(text));
  }

  lemma ReadingsAreScans(s: string)
    ensures forall r :: Reads(s, r) <==> Scan(s) == Some(r)
  {
    ScanIsSound(s);
    forall r | Reads(s, r)
      ensures Scan(s) == Some(r)
    {
      ScanIsComplete(r);
    }
  }

  // ---- What the cut of the fraction costs ---------------------------------------------------

  /** The size `r` says, and the size it would say if every digit of its fraction counted. */
  function CutSize(r: Reading): nat
    requires Grammatical(r)
  {
    DigitsOfSum(r.whole, Kept(r));
    Scaled(Multiplier(r) as int, r.whole, Kept(r))
  }

  function FullSize(r: Reading): nat
    requires Grammatical(r)
  {
    DigitsOfSum(r.whole, r.fraction);
    Scaled(Multiplier(r) as int, r.whole, r.fraction)
  }

  /** Digits past the ninth change a size by no more than ceil(unit / 10^9) bytes, and never upwards. */
  lemma CutCostsLittle(r: Reading)
    requires Grammatical(r)
    ensures CutSize(r) <= FullSize(r) <= CutSize(r) + (Multiplier(r) as int + 999_999_999) / 1_000_000_000
  {
    var m, kept := Multiplier(r) as int, Kept(r);
    if |r.fraction| <= MAX_FRACTION_DIGITS {
      assert kept == r.fraction;
    } else {
      var dropped := r.fraction[MAX_FRACTION_DIGITS..];
      assert r.fraction == kept + dropped && |kept| == 9;
      ValueOfSum(kept, dropped);
      ValueIsSmall(dropped);
      PowersAdd(|kept|, |dropped|);
      PowersUpToNine(9);
      PowerOfNine();
      ScaledSplits(m, r.whole, kept);
      ScaledSplits(m, r.whole, r.fraction);
      CutQuotient(m, Value(kept), Value(dropped), Pow10(|dropped|));
    }
  }

  lemma {:induction false} PowersAdd(a: nat, b: nat)
    ensures Pow10(a + b) == Pow10(a) * Pow10(b)
  {
    if a > 0 {
      PowersAdd(a - 1, b);
    }
  }

  lemma PowerOfNine()
    ensures Pow10(9) == 1_000_000_000
  {
    assert Pow10(3) == 1000;
    assert Pow10(6) == 1000 * Pow10(3);
    assert Pow10(9) == 1000 * Pow10(6);
  }

  lemma PartIsLess(t: nat, m: nat, p: nat)
    requires t < p
    ensures t * m / p <= m
  {
    MulGrows(t, p, m);
    QuotientIsMonotonic(t * m, m * p, p);
    QuotientOfSum(m, p, 0);
  }

  lemma AddsLessThanOne(a: nat, t: nat, m: nat, p: nat)
    requires t < p
    ensures a <= (a * p + t * m) / p <= a + m
  {
    QuotientOfSum(a, p, t * m);
    QuotientIsNatural(t * m, p);
    PartIsLess(t, m, p);
  }

  lemma RoundedUp(m: nat, k: nat)
    requires k > 0
    ensures m <= (m + k - 1) / k * k
  {
    var c := (m + k - 1) / k;
    assert m + k - 1 == c * k + (m + k - 1) % k;
  }

  lemma CutQuotient(m: nat, v: nat, t: nat, p: nat)
    requires t < p
    ensures var k := 1_000_000_000;
            k * p > 0 && v * m / k <= (v * p + t) * m / (k * p) <= v * m / k + (m + k - 1) / k
  {
    var k := 1_000_000_000;
    var a, b, c := v * m, (v * p + t) * m, (m + k - 1) / k;
    assert b == a * p + t * m by {
      assert v * p * m == a * p;
    }
    NestedQuotient(b, p, k);
    AddsLessThanOne(a, t, m, p);
    RoundedUp(m, k);
    QuotientIsMonotonic(a, b / p, k);
    QuotientIsMonotonic(b / p, c * k + a, k);
    QuotientOfSum(c, k, a);
  }

  lemma NestedSum(n: nat, p: nat, k: nat, q: nat, r: nat, s: nat, t: nat)
    requires n == q * p + r && q == s * k + t && r < p && t < k
    ensures n == s * (k * p) + (t * p + r) && t * p + r < k * p
  {
    Distribute(s * k, t, p);
    Associate(s, k, p);
    Distribute(t, 1, p);
    MulGrows(t + 1, k, p);
  }

  lemma NestedQuotient(n: nat, p: nat, k: nat)
    requires p > 0 && k > 0
    ensures k * p > 0 && n / (k * p) == n / p / k
  {
    MulGrows(1, k, p);
    DivisionSplits(n, p);
    DivisionSplits(n / p, k);
    var q, r := n / p, n % p;
    NestedSum(n, p, k, q, r, q / k, q % k);
    QuotientIsUnique(n, k * p, q / k, q % k * p + r);
  }

  lemma CutQuotientIsExact(m: nat, v: nat, t: nat, p: nat)
    requires p > 0
    ensures var k := 1_000_000_000;
            k * p > 0 && ((v * p + t) * m / (k * p) == v * m / k <==> v * m % k * p + t * m < k * p)
  {
    var k := 1_000_000_000;
    var d, q, r := k * p, v * m / k, v * m % k;
    var b := r * p + t * m;
    SumSplits(m, v, t, p, k);
    QuotientOfSum(q, d, b);
    QuotientIsZero(b, d);
  }

  lemma SumSplits(m: nat, v: nat, t: nat, p: nat, k: nat)
    requires k > 0
    ensures (v * p + t) * m == v * m / k * (k * p) + (v * m % k * p + t * m)
  {
    var a, q, r := v * m, v * m / k, v * m % k;
    assert a == q * k + r;
    assert a * p == q * (k * p) + r * p by {
      assert (q * k + r) * p == q * k * p + r * p;
      assert q * k * p == q * (k * p);
    }
    assert (v * p + t) * m == a * p + t * m by {
      assert v * p * m == a * p;
    }
  }

  lemma QuotientIsZero(b: nat, d: nat)
    requires d > 0
    ensures b / d == 0 <==> b < d
  {
    assert b == b / d * d + b % d;
  }

  function Dropped(r: Reading): string {
    r.fraction[|Kept(r)|..]
  }

  lemma KeptAndDropped(r: Reading)
    requires Grammatical(r) && |r.fraction| > MAX_FRACTION_DIGITS
    ensures r.fraction == Kept(r) + Dropped(r) && |Kept(r)| == 9 && Digits(Kept(r)) && Digits(Dropped(r))
    ensures var m, v, t, p := Multiplier(r) as int, Value(Kept(r)), Value(Dropped(r)), Pow10(|Dropped(r)|);
            && CutSize(r) == Value(r.whole) * m + v * m / 1_000_000_000
            && 1_000_000_000 * p > 0 && FullSize(r) == Value(r.whole) * m + (v * p + t) * m / (1_000_000_000 * p)
            && t < p
  {
    var m := Multiplier(r) as int;
    var kept, dropped := Kept(r), Dropped(r);
    assert r.fraction == kept + dropped;
    ValueOfSum(kept, dropped);
    ValueIsSmall(dropped);
    PowersAdd(|kept|, |dropped|);
    PowerOfNine();
    ScaledSplits(m, r.whole, kept);
    ScaledSplits(m, r.whole, r.fraction);
  }

  /** The digits past the ninth change nothing exactly when what they add does not carry the kept remainder over a
      byte. */
  lemma CutIsExact(r: Reading)
    requires Grammatical(r) && |r.fraction| > MAX_FRACTION_DIGITS
    ensures Digits(Kept(r)) && Digits(Dropped(r))
    ensures var m, p := Multiplier(r) as int, Pow10(|Dropped(r)|);
            CutSize(r) == FullSize(r) <==>
            Value(Kept(r)) * m % 1_000_000_000 * p + Value(Dropped(r)) * m < 1_000_000_000 * p
  {
    hide Value, Pow10, Digits, Kept, Dropped, CutSize, FullSize, Grammatical;
    KeptAndDropped(r);
    CutQuotientIsExact(Multiplier(r) as int, Value(Kept(r)), Value(Dropped(r)), Pow10(|Dropped(r)|));
  }

  // ---- At which units the comment holds ----------------------------------------------------

  /** `n` in `width` digits. */
  function Padded(n: nat, width: nat): (s: string)
    ensures |s| == width && Digits(s)
  {
    if width == 0 then "" else Padded(n / 10, width - 1) + [('0' as int + n % 10) as char]
  }

  lemma TenthIsSmaller(n: nat, p: nat)
    requires n < 10 * p
    ensures n / 10 < p
  {
  }

  lemma ValueOfAppended(s: string, c: char)
    requires Digits(s) && IsDigit(c)
    ensures Digits(s + [c]) && Value(s + [c]) == Value(s) * 10 + Digit(c)
  {
    assert (s + [c])[..|s|] == s;
  }

  lemma DigitOfRest(n: nat)
    ensures var c := ('0' as int + n % 10) as char; IsDigit(c) && n / 10 * 10 + Digit(c) == n
  {
  }

  lemma {:induction false} PaddedIsRead(n: nat, width: nat)
    requires n < Pow10(width)
    ensures Value(Padded(n, width)) == n
  {
    hide Value, Digit;
    if width > 0 {
      TenthIsSmaller(n, Pow10(width - 1));
      PaddedIsRead(n / 10, width - 1);
      DigitOfRest(n);
      ValueOfAppended(Padded(n / 10, width - 1), ('0' as int + n % 10) as char);
    } else {
      NoDigits();
    }
  }

  lemma NothingCarriesForBytes(v: nat, t: nat, p: nat)
    requires t < p
    ensures v * 1 % 1_000_000_000 * p + t * 1 < 1_000_000_000 * p
  {
    var r := v % 1_000_000_000;
    MulGrows(r + 1, 1_000_000_000, p);
    assert (r + 1) * p == r * p + p;
  }

  /** For bytes the comment holds: less than a byte never makes one. */
  lemma CutIsFreeForBytes(r: Reading)
    requires Grammatical(r) && Multiplier(r) == 1
    ensures CutSize(r) == FullSize(r)
  {
    if |r.fraction| > MAX_FRACTION_DIGITS {
      hide Value, Pow10, Digits, Kept, Dropped, CutSize, FullSize, Grammatical, Multiplier;
      KeptAndDropped(r);
      CutIsExact(r);
      NothingCarriesForBytes(Value(Kept(r)), Value(Dropped(r)), Pow10(|Dropped(r)|));
    } else {
      assert Kept(r) == r.fraction;
    }
  }

  /** So many billionths, and almost one more. */
  function JustUnder(billionths: nat): (s: string)
    ensures |s| == 25 && Digits(s)
  {
    DigitsOfSum(Padded(billionths, 9), Padded(9_999_999_999_999_999, 16));
    Padded(billionths, 9) + Padded(9_999_999_999_999_999, 16)
  }

  lemma PowerOfSixteen()
    ensures Pow10(16) == 10_000_000_000_000_000
  {
    PowerOfNine();
    PowersAdd(9, 7);
    assert Pow10(3) == 1000;
    assert Pow10(5) == 100 * Pow10(3);
    assert Pow10(7) == 100 * Pow10(5);
  }

  lemma JustUnderIsRead(billionths: nat, r: Reading)
    requires billionths < 1_000_000_000 && r.fraction == JustUnder(billionths)
    ensures Digits(Kept(r)) && Digits(Dropped(r)) && |Dropped(r)| == 16
    ensures Value(Kept(r)) == billionths && Value(Dropped(r)) == 9_999_999_999_999_999
  {
    hide Padded, Value, Pow10, Digits;
    assert Kept(r) == Padded(billionths, 9) && Dropped(r) == Padded(9_999_999_999_999_999, 16);
    PowerOfNine();
    PowerOfSixteen();
    PaddedIsRead(billionths, 9);
    PaddedIsRead(9_999_999_999_999_999, 16);
  }

  lemma JustUnderIsGrammatical(suffix: string, unit: u64, billionths: nat)
    requires BinaryUnit(unit) && Suffix(LowerAll(suffix)) == Some(unit)
    ensures var r := Reading("0", JustUnder(billionths), "", suffix); Grammatical(r) && Multiplier(r) == unit
  {
    hide JustUnder, Suffix, LowerAll;
  }

  /** For every other unit it does not: a fraction that the cut leaves short of a byte. */
  lemma CutCostsAByte(suffix: string, unit: u64, billionths: nat)
    requires BinaryUnit(unit) && unit != 1 && Suffix(LowerAll(suffix)) == Some(unit)
    requires billionths == 1_000_000_000 / unit as int
    ensures var r := Reading("0", JustUnder(billionths), "", suffix); Grammatical(r) && CutSize(r) != FullSize(r)
  {
    hide JustUnder, Value, Pow10, Digits, Kept, Dropped, CutSize, FullSize, Grammatical, Multiplier, Suffix, LowerAll;
    var r := Reading("0", JustUnder(billionths), "", suffix);
    Carries(unit as int, billionths);
    JustUnderIsGrammatical(suffix, unit, billionths);
    JustUnderIsRead(billionths, r);
    PowerOfSixteen();
    CutIsExact(r);
  }

  lemma Carries(m: nat, q: nat)
    requires m > 1 && q == 1_000_000_000 / m
    requires m == KIB as int || m == MIB as int || m == GIB as int || m == TIB as int || m == PIB as int
    ensures q < 1_000_000_000
    ensures q * m % 1_000_000_000 * 10_000_000_000_000_000 + 9_999_999_999_999_999 * m >=
            1_000_000_000 * 10_000_000_000_000_000
  {
  }

  /** So the comment holds at a unit exactly when the unit is a byte. */
  lemma CutIsFreeOnlyForBytes(suffix: string)
    requires Suffix(LowerAll(suffix)).Some?
    ensures (forall r: Reading | r.suffix == suffix && Grammatical(r) :: CutSize(r) == FullSize(r)) <==>
            Suffix(LowerAll(suffix)).value == 1
  {
    hide CutSize, FullSize, JustUnder, Suffix, LowerAll;
    if Suffix(LowerAll(suffix)).value == 1 {
      forall r: Reading | r.suffix == suffix && Grammatical(r)
        ensures CutSize(r) == FullSize(r)
      {
        CutIsFreeForBytes(r);
      }
    } else {
      UnitsAreBinary(LowerAll(suffix));
      var unit := Suffix(LowerAll(suffix)).value;
      CutCostsAByte(suffix, unit, 1_000_000_000 / unit as int);
    }
  }

  /** The source says digits past the ninth cannot change a byte count at any unit. At KiB they can: 1/1024 has ten. */
  lemma TheTenthDigitCounts()
    ensures var r := Reading("0", "0009765625", "", "k");
            Grammatical(r) && CutSize(r) == 0 && FullSize(r) == 1
  {
    hide Suffix, Lookup, Value, Times;
    var r := Reading("0", "0009765625", "", "k");
    assert LowerAll("k") == "k";
    FirstSuffixes();
    assert Kept(r) == "000976562";
    ScaledSplits(1024, "0", "000976562");
    ScaledSplits(1024, "0", "0009765625");
    SmallValues();
    PowerOfNine();
    assert Pow10(10) == 10 * Pow10(9);
  }

  lemma SmallValues()
    ensures Value("0") == 0 && Value("000976562") == 976562 && Value("0009765625") == 9765625
  {
    var s := "0009765625";
    assert Value(s[..1]) == 0;
    hide Value;
    ValueOfOneMore(s, 1);
    ValueOfOneMore(s, 2);
    ValueOfOneMore(s, 3);
    ValueOfOneMore(s, 4);
    ValueOfOneMore(s, 5);
    ValueOfOneMore(s, 6);
    ValueOfOneMore(s, 7);
    ValueOfOneMore(s, 8);
    ValueOfOneMore(s, 9);
    assert s[..1] == "0" && s[..9] == "000976562" && s[..10] == s;
  }

  // ---- Printing ------------------------------------------------------------------------------

  /** A number in decimal, without leading zeros. */
  function Decimal(n: nat): (s: string)
    ensures s != "" && Digits(s)
  {
    if n < 10 then [('0' as int + n) as char] else Decimal(n / 10) + [('0' as int + n % 10) as char]
  }

  lemma {:induction false} DecimalIsRead(n: nat)
    ensures Value(Decimal(n)) == n
  {
    if n >= 10 {
      DecimalIsRead(n / 10);
      assert Decimal(n)[..|Decimal(n)| - 1] == Decimal(n / 10);
    }
  }

  /** The largest unit that is not larger than `bytes`, and its name. */
  function UnitFor(bytes: u64): (u: (u64, string))
    requires bytes >= KIB
    ensures BinaryUnit(u.0) && KIB <= u.0 <= bytes
  {
    if bytes >= PIB then (PIB, "PiB")
    else if bytes >= TIB then (TIB, "TiB")
    else if bytes >= GIB then (GIB, "GiB")
    else if bytes >= MIB then (MIB, "MiB")
    else (KIB, "KiB")
  }

  /** Sizes from one unit to just under the next are printed in it. */
  lemma UnitIsTheLargest(bytes: u64)
    requires bytes >= 1024
    ensures bytes < 1_048_576 ==> UnitFor(bytes) == (1024, "KiB")
    ensures 1_048_576 <= bytes < 1_073_741_824 ==> UnitFor(bytes) == (1_048_576, "MiB")
    ensures 1_073_741_824 <= bytes < 1_099_511_627_776 ==> UnitFor(bytes) == (1_073_741_824, "GiB")
    ensures 1_099_511_627_776 <= bytes < 1_125_899_906_842_624 ==> UnitFor(bytes) == (1_099_511_627_776, "TiB")
    ensures 1_125_899_906_842_624 <= bytes ==> UnitFor(bytes) == (1_125_899_906_842_624, "PiB")
  {
  }

  /** The tenths of the unit left over, rounded down. */
  function Tenths(bytes: u64): (t: u64)
    requires bytes >= KIB
    ensures t < 10
  {
    var unit := UnitFor(bytes).0;
    bytes % unit * 10 / unit
  }

  /** What is printed, as a reading. */
  function Printed(bytes: u64): (r: Reading)
  {
    if bytes < KIB then Reading(Decimal(bytes as int), "", " ", "B")
    else Reading(Decimal((bytes / UnitFor(bytes).0) as int), Decimal(Tenths(bytes) as int), " ", UnitFor(bytes).1)
  }

  method FormatSize(bytes: u64) returns (text: string)
    ensures text == Written(Printed(bytes))
  {
    if bytes < KIB {
      text := Decimal(bytes as int) + (" " + "B");
      assert text == Written(Printed(bytes));
      return;
    }
    var largerUnits := [(PIB, "PiB"), (TIB, "TiB"), (GIB, "GiB"), (MIB, "MiB")];
    var divisor, name := KIB, "KiB";
    for i := 0 to |largerUnits|
      invariant divisor == KIB && name == "KiB"
      invariant forall k | 0 <= k < i :: bytes < largerUnits[k].0
    {
      if bytes >= largerUnits[i].0 {
        assert bytes < PIB || i == 0 by { assert largerUnits[0].0 == PIB; }
        assert bytes < TIB || i <= 1 by { assert largerUnits[1].0 == TIB; }
        assert bytes < GIB || i <= 2 by { assert largerUnits[2].0 == GIB; }
        divisor, name := largerUnits[i].0, largerUnits[i].1;
        break;
      }
    }
    assert divisor == KIB ==> bytes < MIB by { assert largerUnits[3].0 == MIB; }
    assert UnitFor(bytes) == (divisor, name);
    var whole := bytes / divisor;
    var tenths := bytes % divisor * 10 / divisor;
    text := Decimal(whole as int) + ("." + Decimal(tenths as int) + (" " + name));
  }

  // ---- Printing and reading back ---------------------------------------------------------------

  lemma PrintedSuffix(name: string)
    ensures name == "B" ==> Suffix(LowerAll(name)) == Some(1)
    ensures name == "KiB" ==> Suffix(LowerAll(name)) == Some(KIB)
    ensures name == "MiB" ==> Suffix(LowerAll(name)) == Some(MIB)
    ensures name == "GiB" ==> Suffix(LowerAll(name)) == Some(GIB)
    ensures name == "TiB" ==> Suffix(LowerAll(name)) == Some(TIB)
    ensures name == "PiB" ==> Suffix(LowerAll(name)) == Some(PIB)
  {
    var lower := LowerAll(name);
    if name == "B" {
      assert lower == "b";
      RowIsFound(1);
    } else if name == "KiB" {
      assert lower == "kib";
      RowIsFound(4);
    } else if name == "MiB" {
      assert lower == "mib";
      RowIsFound(7);
    } else if name == "GiB" {
      assert lower == "gib";
      RowIsFound(10);
    } else if name == "TiB" {
      assert lower == "tib";
      RowIsFound(13);
    } else if name == "PiB" {
      assert lower == "pib";
      RowIsFound(15);
    }
  }

  /** The rows of the table have different names, so each is found under its own. */
  lemma RowIsFound(i: nat)
    requires i < 16
    ensures Suffix(SUFFIXES[i].0) == Some(SUFFIXES[i].1)
  {
    assert forall k | 0 <= k < i :: SUFFIXES[k].0 != SUFFIXES[i].0;
    SkipRows(SUFFIXES[i].0, 0, i);
  }

  lemma {:induction false} SkipRows(name: string, k: nat, i: nat)
    requires k <= i < 16 && forall j | k <= j < i :: SUFFIXES[j].0 != name
    ensures Lookup(name, k) == Lookup(name, i)
    decreases i - k
  {
    if k < i {
      SkipRows(name, k + 1, i);
    }
  }

  lemma PrintedIsGrammatical(bytes: u64)
    ensures Grammatical(Printed(bytes)) && |Printed(bytes).fraction| <= 1
    ensures Multiplier(Printed(bytes)) == if bytes < KIB then 1 else UnitFor(bytes).0
  {
    PrintedSuffix(Printed(bytes).suffix);
    assert Spaces(" ");
  }

  /** Nothing printed is trimmed: it begins with a digit and ends in a B. */
  lemma PrintedIsTrimmed(bytes: u64)
    ensures Trimmed(Written(Printed(bytes))) == Written(Printed(bytes))
  {
    var r := Printed(bytes);
    var s := Written(r);
    assert s[0] == r.whole[0] && IsDigit(r.whole[0]);
    assert s[|s| - 1] == r.suffix[|r.suffix| - 1] == 'B';
  }

  lemma PrintedValues(bytes: u64)
    requires bytes >= KIB
    ensures var r := Printed(bytes);
            && Grammatical(r) && Multiplier(r) == UnitFor(bytes).0 && Kept(r) == r.fraction && |r.fraction| == 1
            && Value(r.whole) == (bytes / UnitFor(bytes).0) as int && Value(r.fraction) == Tenths(bytes) as int
  {
    PrintedIsGrammatical(bytes);
    DecimalIsRead((bytes / UnitFor(bytes).0) as int);
    DecimalIsRead(Tenths(bytes) as int);
  }

  /** The bytes that `whole.t` of a unit stand for. */
  function TenthsSize(unit: nat, whole: nat, t: nat): nat {
    whole * unit + t * unit / 10
  }

  lemma PrintedSize(bytes: u64)
    requires bytes >= KIB
    ensures Grammatical(Printed(bytes))
    ensures var unit := UnitFor(bytes).0;
            && Fits(Printed(bytes))
            && CutSize(Printed(bytes)) == TenthsSize(unit as int, (bytes / unit) as int, Tenths(bytes) as int)
  {
    var r, unit := Printed(bytes), UnitFor(bytes).0;
    PrintedValues(bytes);
    WholeIsNoLarger(bytes, unit);
    ScaledSplits(unit as int, r.whole, r.fraction);
    assert Pow10(1) == 10;
  }

  lemma WholeIsNoLarger(bytes: u64, unit: u64)
    requires unit > 0
    ensures (bytes / unit) as int * unit as int + (bytes % unit) as int == bytes as int
  {
  }

  lemma TenthsRoundDown(rest: nat, unit: nat)
    requires rest < unit
    ensures var t := rest * 10 / unit; t < 10 && t * unit / 10 <= rest && 10 * (rest - t * unit / 10) < unit + 10
  {
    var t := rest * 10 / unit;
    assert rest * 10 == t * unit + rest * 10 % unit;
    if t >= 10 {
      MulGrows(10, t, unit);
    }
  }

  lemma TenthsSizeIsClose(bytes: u64)
    requires bytes >= KIB
    ensures var unit := UnitFor(bytes).0;
            var size := TenthsSize(unit as int, (bytes / unit) as int, Tenths(bytes) as int);
            && 10 * (bytes as int - size) < unit as int + 10 && size <= bytes as int
  {
    var unit := UnitFor(bytes).0;
    WholeIsNoLarger(bytes, unit);
    TenthsRoundDown((bytes % unit) as int, unit as int);
  }

  /** The size that comes back when what was printed is read. */
  function Back(bytes: u64): (back: u64)
    ensures back <= bytes
  {
    if bytes < KIB then bytes else
      var unit := UnitFor(bytes).0;
      TenthsSizeIsClose(bytes);
      TenthsSize(unit as int, (bytes / unit) as int, Tenths(bytes) as int) as u64
  }

  lemma PrintedSaysBack(bytes: u64)
    ensures Says(Written(Printed(bytes)), Back(bytes))
  {
    hide Trimmed, Printed, Grammatical, HasSize, Fits, Back;
    PrintedIsGrammatical(bytes);
    PrintedIsTrimmed(bytes);
    PrintedHasSize(bytes);
    assert Reads(Trimmed(Written(Printed(bytes))), Printed(bytes));
  }

  lemma SmallHasSize(bytes: u64, r: Reading)
    requires Grammatical(r) && r.whole == Decimal(bytes as int) && r.fraction == "" && Multiplier(r) == 1
    ensures Fits(r) && HasSize(r, bytes)
  {
    hide Grammatical, Multiplier, Decimal, Value;
    DecimalIsRead(bytes as int);
    ScaledSplits(1, r.whole, "");
    NoDigits();
    assert Kept(r) == "" && Value(r.whole) * 1 == Value(r.whole);
  }

  lemma NoDigits()
    ensures Value("") == 0
  {
  }

  lemma PrintedHasSize(bytes: u64)
    requires Grammatical(Printed(bytes))
    ensures Fits(Printed(bytes)) && HasSize(Printed(bytes), Back(bytes))
  {
    var r := Printed(bytes);
    if bytes < KIB {
      SmallHasSize(bytes, r);
    } else {
      hide Printed, Grammatical, Value;
      PrintedSize(bytes);
    }
  }

  /** Reading back what was printed gives no more than was printed, less than a tenth of the unit and one byte short,
      and exactly it below 1024. */
  lemma PrintedReadsBack(bytes: u64, back: u64)
    ensures Says(Written(Printed(bytes)), back) <==> back == Back(bytes)
    ensures Back(bytes) <= bytes
    ensures bytes < KIB ==> Back(bytes) == bytes
    ensures bytes >= KIB ==> 10 * (bytes as int - Back(bytes) as int) < UnitFor(bytes).0 as int + 10
  {
    PrintedSaysBack(bytes);
    if Says(Written(Printed(bytes)), back) {
      SaysOneSize(Written(Printed(bytes)), back, Back(bytes));
    }
    if bytes >= KIB {
      TenthsSizeIsClose(bytes);
    }
  }

  /** The bytes of `t` tenths of a unit print as `t` tenths again exactly when they are a whole number of bytes. */
  lemma TenthsAgain(unit: u64, t: nat)
    requires BinaryUnit(unit) && unit >= KIB && t < 10
    ensures t * unit as int / 10 * 10 / unit as int == t <==> t in {0, 5}
  {
    var u, b := unit as int, t * unit as int / 10;
    TenthsOfUnit(unit, t);
    if t in {0, 5} {
      QuotientIsUnique(b * 10, u, t, 0);
    } else {
      assert b * 10 == (t - 1) * u + (u - t * u % 10);
      QuotientIsUnique(b * 10, u, t - 1, u - t * u % 10);
    }
  }

  lemma TenthsOfUnit(unit: u64, t: nat)
    requires BinaryUnit(unit) && unit >= KIB && t < 10
    ensures t * unit as int % 10 == 0 <==> t in {0, 5}
  {
    var u := unit as int;
    assert u % 10 == 4 || u % 10 == 6;
    assert t in {0, 1, 2, 3, 4, 5, 6, 7, 8, 9};
  }

  /** Printing what was read back gives the same text exactly when the size is below 1024, or its tenths are 0 or 5:
      1.1 KiB, for one, reads as 1126 bytes, which print as 1.0 KiB. */
  lemma SecondPrinting(bytes: u64)
    ensures Written(Printed(Back(bytes))) == Written(Printed(bytes)) <==> bytes < KIB || Tenths(bytes) in {0, 5}
  {
    if bytes >= KIB {
      BackKeepsUnit(bytes);
      TenthsAgain(UnitFor(bytes).0, Tenths(bytes) as int);
      if Tenths(Back(bytes)) != Tenths(bytes) {
        PrintedValues(bytes);
        PrintedValues(Back(bytes));
        ScanIsComplete(Printed(bytes));
        ScanIsComplete(Printed(Back(bytes)));
      }
    }
  }

  lemma BackKeepsUnit(bytes: u64)
    requires bytes >= KIB
    ensures var back, unit, t := Back(bytes), UnitFor(bytes).0, Tenths(bytes) as int;
            && back >= KIB && UnitFor(back) == UnitFor(bytes) && back / unit == bytes / unit
            && Tenths(back) as int == t * unit as int / 10 * 10 / unit as int
  {
    var back, unit, t := Back(bytes), UnitFor(bytes).0, Tenths(bytes) as int;
    var whole := (bytes / unit) as int;
    WholeIsNoLarger(bytes, unit);
    assert t * unit as int / 10 < unit as int;
    MulGrows(1, whole, unit as int);
    QuotientIsUnique(back as int, unit as int, whole, t * unit as int / 10);
    WholeIsNoLarger(back, unit);
  }
}
