/** Which texts are durations and what they are worth, said without the parser. */
module DurationText {
  import opened Options
  import opened Duration

  // ----- the language -----

  /** A number may be written with leading zeros. */
  datatype Numeral = Numeral(zeros: nat, n: nat)

  datatype Term = Term(numeral: Numeral, unit: char)

  /** What follows the sign: a bare number of seconds, or some terms. */
  datatype Phrase = Bare(numeral: Numeral) | Sum(terms: seq<Term>)

  function Zeros(k: nat): string {
    if k == 0 then "" else "0" + Zeros(k - 1)
  }

  function Digits(d: Numeral): string {
    Zeros(d.zeros) + Decimal(d.n)
  }

  function Spelled(ts: seq<Term>): string {
    if ts == [] then "" else Digits(ts[0].numeral) + [ts[0].unit] + Spelled(ts[1..])
  }

  function SecondsIn(unit: char): nat {
    match unit
    case 's' => 1
    case 'm' => 60
    case 'h' => 60 * 60
    case 'd' => 24 * 60 * 60
    case _ => 0
  }

  function SumWorth(ts: seq<Term>): nat {
    if ts == [] then 0 else ts[0].numeral.n * SecondsIn(ts[0].unit) + SumWorth(ts[1..])
  }

  predicate UnitsKnown(ts: seq<Term>) {
    forall i :: 0 <= i < |ts| ==> ts[i].unit in "smhd"
  }

  predicate WellFormed(p: Phrase) {
    p.Sum? ==> p.terms != [] && UnitsKnown(p.terms)
  }

  function Written(neg: bool, p: Phrase): string {
    (if neg then "-" else "") + match p case Bare(d) => Digits(d) case Sum(ts) => Spelled(ts)
  }

  function Worth(p: Phrase): nat {
    match p case Bare(d) => d.n case Sum(ts) => SumWorth(ts)
  }

  function Signed(neg: bool, n: nat): int {
    if neg then 0 - n else n
  }

  // ----- numerals -----

  lemma Assoc(a: string, b: string, c: string)
    ensures a + b + c == a + (b + c)
  {
  }

  lemma {:induction false} ZerosValue(k: nat, ds: string)
    requires AllDigits(ds)
    ensures AllDigits(Zeros(k) + ds) && Value(Zeros(k) + ds) == Value(ds)
    decreases k
  {
    if k == 0 {
      assert Zeros(0) + ds == ds;
    } else {
      ZerosValue(k - 1, ds);
      LeadingZero(Zeros(k - 1) + ds);
      Assoc("0", Zeros(k - 1), ds);
    }
  }

  lemma {:induction false} LeadingZero(ds: string)
    requires AllDigits(ds)
    ensures AllDigits("0" + ds) && Value("0" + ds) == Value(ds)
  {
    var s := "0" + ds;
    if ds == "" {
      assert s[..|s| - 1] == "";
    } else {
      LeadingZero(ds[..|ds| - 1]);
      assert s[..|s| - 1] == "0" + ds[..|ds| - 1];
    }
  }

  lemma DigitsValue(d: Numeral)
    ensures Digits(d) != "" && AllDigits(Digits(d)) && Value(Digits(d)) == d.n
  {
    ZerosValue(d.zeros, Decimal(d.n));
    DecimalValue(d.n);
  }

  /** Every string of digits is a numeral. */
  lemma {:induction false} DigitsAreNumeral(ds: string) returns (d: Numeral)
    requires ds != "" && AllDigits(ds)
    ensures Digits(d) == ds
    decreases |ds|
  {
    var n := |ds| - 1;
    var last := ds[n] as int - '0' as int;
    assert ds == ds[..n] + [ds[n]];
    if n == 0 {
      d := Numeral(0, last);
    } else {
      var e := DigitsAreNumeral(ds[..n]);
      if e.n == 0 {
        d := Numeral(e.zeros + 1, last);
        OneMoreZero(e.zeros);
        assert Digits(e) == Zeros(e.zeros) + "0";
      } else {
        d := Numeral(e.zeros, 10 * e.n + last);
        assert Decimal(d.n) == Decimal(e.n) + [ds[n]];
      }
    }
  }

  lemma {:induction false} OneMoreZero(k: nat)
    ensures Zeros(k + 1) == Zeros(k) + "0"
  {
    if k > 0 {
      OneMoreZero(k - 1);
    }
  }

  // ----- terms and components -----

  function AsComponents(ts: seq<Term>): seq<Component> {
    if ts == [] then [] else [Component(Digits(ts[0].numeral), ts[0].unit)] + AsComponents(ts[1..])
  }

  lemma {:induction false} TermsAreComponents(ts: seq<Term>)
    requires UnitsKnown(ts)
    ensures var cs := AsComponents(ts);
            |cs| == |ts| && AllValid(cs) && TextOf(cs) == Spelled(ts) && Total(cs) == SumWorth(ts)
  {
    if ts != [] {
      DigitsValue(ts[0].numeral);
      TermsAreComponents(ts[1..]);
      assert AsComponents(ts)[1..] == AsComponents(ts[1..]);
    }
  }

  lemma {:induction false} ComponentsAreTerms(cs: seq<Component>) returns (ts: seq<Term>)
    requires AllValid(cs)
    ensures UnitsKnown(ts) && AsComponents(ts) == cs && |ts| == |cs|
  {
    ts := [];
    if cs != [] {
      var d := DigitsAreNumeral(cs[0].digits);
      var rest := ComponentsAreTerms(cs[1..]);
      ts := [Term(d, cs[0].unit)] + rest;
      assert cs == [cs[0]] + cs[1..];
    }
  }

  lemma PhraseMeaning(p: Phrase)
    requires WellFormed(p)
    ensures Meaning(Written(false, p)) == Some(Worth(p))
    ensures Written(false, p) != "" && Written(false, p)[0] != '-' && IsClean(Written(false, p))
  {
    match p
    case Bare(d) =>
      DigitsValue(d);
      assert Written(false, p) == Digits(d);
    case Sum(ts) =>
      var cs := AsComponents(ts);
      TermsAreComponents(ts);
      TextIsClean(cs);
      ComponentsComplete(cs);
      assert Written(false, p) == Spelled(ts);
  }

  lemma MeaningPhrase(s: string) returns (p: Phrase)
    requires Meaning(s).Some?
    ensures WellFormed(p) && Written(false, p) == s
  {
    if AllDigits(s) {
      var d := DigitsAreNumeral(s);
      p := Bare(d);
    } else {
      var cs := Components(s).value;
      ComponentsSound(s);
      var ts := ComponentsAreTerms(cs);
      TermsAreComponents(ts);
      p := Sum(ts);
    }
    assert "" + s == s;
  }

  // ----- what is parsed -----

  /** `s`, its spaces dropped and in lower case, is the phrase `p` with its sign. */
  ghost predicate Says(s: string, neg: bool, p: Phrase) {
    WellFormed(p) && Clean(s) == Written(neg, p)
  }

  lemma SignedClean(s: string, neg: bool, p: Phrase)
    requires Says(s, neg, p)
    ensures Parsed(s) == if Worth(p) <= I64_MAX then Some(Signed(neg, Worth(p))) else None
  {
    PhraseMeaning(p);
    var w := Written(false, p);
    Unsigned(p);
    assert ("-" + w)[1..] == w;
  }

  lemma ParsedSays(s: string) returns (neg: bool, p: Phrase)
    requires Parsed(s).Some?
    ensures Says(s, neg, p)
  {
    var c := Clean(s);
    neg := c != "" && c[0] == '-';
    if neg {
      p := MeaningPhrase(c[1..]);
      assert c == "-" + c[1..];
      assert "" + Written(false, p) == Written(false, p);
      Unsigned(p);
    } else {
      p := MeaningPhrase(c);
    }
  }

  lemma Unsigned(p: Phrase)
    ensures Written(true, p) == "-" + Written(false, p)
  {
  }

  /**
   A text parses to `v` exactly when it says some phrase worth `v`, sign included, that fits 63 bits;
   so anything that is neither a number nor terms is refused, and so is anything too large.
   */
  lemma ParsedIff(s: string, v: int)
    ensures Parsed(s) == Some(v) <==>
              exists neg, p :: Says(s, neg, p) && Worth(p) <= I64_MAX && v == Signed(neg, Worth(p))
  {
    if Parsed(s).Some? {
      var neg, p := ParsedSays(s);
      SignedClean(s, neg, p);
    }
    if neg, p :| Says(s, neg, p) && Worth(p) <= I64_MAX && v == Signed(neg, Worth(p)) {
      SignedClean(s, neg, p);
    }
  }

  /** A bare number is worth itself, whatever its sign and its leading zeros. */
  lemma BareNumber(neg: bool, d: Numeral)
    ensures Parsed(Written(neg, Bare(d))) == if d.n <= I64_MAX then Some(Signed(neg, d.n)) else None
  {
    WrittenIsClean(neg, Bare(d));
    SignedClean(Written(neg, Bare(d)), neg, Bare(d));
  }

  lemma WrittenIsClean(neg: bool, p: Phrase)
    requires WellFormed(p)
    ensures Clean(Written(neg, p)) == Written(neg, p)
  {
    PhraseMeaning(p);
    var w := Written(false, p);
    CleanKeeps(w);
    Unsigned(p);
    assert ("-" + w)[1..] == w;
  }

  // ----- what does not matter -----

  lemma {:induction false} CleanConcat(a: string, b: string)
    ensures Clean(a + b) == Clean(a) + Clean(b)
  {
    if a == "" {
      assert a + b == b;
    } else {
      assert (a + b)[0] == a[0] && (a + b)[1..] == a[1..] + b;
      CleanConcat(a[1..], b);
    }
  }

  lemma CleanMiddle(a: string, c: char, b: string)
    ensures Clean(a + [c] + b) == Clean(a) + (if IsAsciiSpace(c) then "" else [Lower(c)]) + Clean(b)
  {
    CleanConcat(a + [c], b);
    CleanConcat(a, [c]);
    assert [c][1..] == "";
  }

  /** Character by character: five spaces are dropped, 26 letters lowered, all others kept. */
  lemma CleanIs(a: string, c: char, b: string)
    ensures Clean("") == ""
    ensures Clean(a + [c] + b) == Clean(a)
              + (if c as int in {0x20, 0x09, 0x0A, 0x0D, 0x0C} then ""
                 else if 0x41 <= c as int <= 0x5A then [(c as int + 0x20) as char]
                 else [c])
              + Clean(b)
  {
    CleanMiddle(a, c, b);
  }

  /** Space, tab, newline, carriage return and form feed may stand anywhere. */
  lemma SpaceIgnored(a: string, c: char, b: string)
    requires c == ' ' || c == '\t' || c == '\n' || c == '\r' || c as int == 0x0C
    ensures Parsed(a + [c] + b) == Parsed(a + b)
  {
    CleanMiddle(a, c, b);
    CleanConcat(a, b);
    assert Clean(a) + "" == Clean(a);
    SameClean(a + [c] + b, a + b);
  }

  lemma SameClean(s: string, t: string)
    requires Clean(s) == Clean(t)
    ensures Parsed(s) == Parsed(t)
  {
  }

  const UPPER: string := "ABCDEFGHIJKLMNOPQRSTUVWXYZ"
  const LOWER: string := "abcdefghijklmnopqrstuvwxyz"

  /** So may any letter be written in either case. */
  lemma CaseIgnored(a: string, i: nat, b: string)
    requires i < 26
    ensures Parsed(a + [UPPER[i]] + b) == Parsed(a + [LOWER[i]] + b)
  {
    CleanMiddle(a, UPPER[i], b);
    CleanMiddle(a, LOWER[i], b);
    LetterCase(i);
    SameClean(a + [UPPER[i]] + b, a + [LOWER[i]] + b);
  }

  lemma LetterCase(i: nat)
    requires i < 26
    ensures UPPER[i] as int == 65 + i && LOWER[i] as int == 97 + i
  {
  }

  // ----- what is printed -----

  function Piece(n: nat, unit: string): string {
    if n == 0 then "" else Decimal(n) + unit
  }

  /** Days, hours, minutes and seconds, each below the next, and none that is zero. */
  lemma FormattedIs(d: nat, h: nat, m: nat, s: nat)
    requires h < 24 && m < 60 && s < 60 && d + h + m + s > 0
    ensures Formatted(((d * 24 + h) * 60 + m) * 60 + s) == Piece(d, "d") + Piece(h, "h") + Piece(m, "m") + Piece(s, "s")
  {
    var v := ((d * 24 + h) * 60 + m) * 60 + s;
    Radix(d, h, m, s);
    PartText(d, 'd');
    PartText(h, 'h');
    PartText(m, 'm');
    PartText(s, 's');
    TextAppend(Part(d, 'd') + Part(h, 'h') + Part(m, 'm'), Part(s, 's'));
    TextAppend(Part(d, 'd') + Part(h, 'h'), Part(m, 'm'));
    TextAppend(Part(d, 'd'), Part(h, 'h'));
  }

  lemma Radix(d: nat, h: nat, m: nat, s: nat)
    requires h < 24 && m < 60 && s < 60
    ensures var v := ((d * 24 + h) * 60 + m) * 60 + s;
            v / 86400 == d && v % 86400 / 3600 == h && v % 3600 / 60 == m && v % 60 == s
  {
  }

  /** Zero and below. */
  lemma FormattedZero(v: int)
    requires v <= 0
    ensures Formatted(v) == "0s"
  {
  }
}
