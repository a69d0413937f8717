/** Human-readable durations: the parser's checked 64-bit arithmetic, the printer, and the grammar. */
module Duration {
  import opened Options

  const I64_MAX: int := 0x7FFF_FFFF_FFFF_FFFF

  // ----- characters -----

  predicate IsAsciiSpace(c: char) {
    c == ' ' || c == '\t' || c == '\n' || c == '\r' || c as int == 0x0C
  }

  function Lower(c: char): char {
    if 'A' <= c <= 'Z' then (c as int + 32) as char else c
  }

  predicate IsDigit(c: char) {
    '0' <= c <= '9'
  }

  predicate AllDigits(s: string) {
    forall i :: 0 <= i < |s| ==> IsDigit(s[i])
  }

  /** Without ASCII whitespace, in lower case. */
  function Clean(s: string): string {
    if s == "" then ""
    else (if IsAsciiSpace(s[0]) then "" else [Lower(s[0])]) + Clean(s[1..])
  }

  /** The number a string of digits writes. */
  function Value(ds: string): nat
    requires AllDigits(ds)
  {
    if ds == "" then 0 else 10 * Value(ds[..|ds| - 1]) + (ds[|ds| - 1] as int - '0' as int)
  }

  predicate IsUnit(c: char) {
    c == 's' || c == 'm' || c == 'h' || c == 'd'
  }

  function Multiplier(c: char): nat {
    match c
    case 's' => 1
    case 'm' => 60
    case 'h' => 3600
    case 'd' => 86400
    case _ => 0
  }

  // ----- the grammar -----

  /** `30m`: some digits and a unit. */
  datatype Component = Component(digits: string, unit: char) {
    predicate Valid() {
      digits != "" && AllDigits(digits) && IsUnit(unit)
    }

    function Secs(): nat
      requires Valid()
    {
      Value(digits) * Multiplier(unit)
    }
  }

  predicate AllValid(cs: seq<Component>) {
    forall i :: 0 <= i < |cs| ==> cs[i].Valid()
  }

  function TextOf(cs: seq<Component>): string {
    if cs == [] then "" else cs[0].digits + [cs[0].unit] + TextOf(cs[1..])
  }

  function Total(cs: seq<Component>): nat
    requires AllValid(cs)
  {
    if cs == [] then 0 else cs[0].Secs() + Total(cs[1..])
  }

  /** How many digits a text starts with. */
  function DigitRun(s: string): (n: nat)
    ensures n <= |s| && AllDigits(s[..n])
    ensures n < |s| ==> !IsDigit(s[n])
  {
    if s == "" || !IsDigit(s[0]) then 0
    else
      var m := DigitRun(s[1..]);
      assert s[..m + 1] == [s[0]] + s[1..][..m];
      1 + m
  }

  /** The components a text consists of, if it does. */
  function Components(s: string): (r: Option<seq<Component>>)
    ensures r.Some? ==> AllValid(r.value)
    decreases |s|
  {
    if s == "" then Some([])
    else
      var n := DigitRun(s);
      if n == 0 || n == |s| || !IsUnit(s[n]) then None
      else
        match Components(s[n + 1..])
        case None => None
        case Some(cs) => Some([Component(s[..n], s[n])] + cs)
  }

  /** The seconds an unsigned, cleaned text means: a bare number or a list of components. */
  function Meaning(s: string): Option<nat> {
    if s == "" then None
    else if AllDigits(s) then Some(Value(s))
    else
      match Components(s)
      case None => None
      case Some(cs) => Some(Total(cs))
  }

  /** What parsing must return: the exact value if it fits 63 bits. */
  function Parsed(s: string): Option<int> {
    var c := Clean(s);
    var neg := c != "" && c[0] == '-';
    match Meaning(if neg then c[1..] else c)
    case None => None
    case Some(m) => var v: int := m; if v > I64_MAX then None else Some(if neg then 0 - v else v)
  }

  // ----- the grammar is what it seems -----

  lemma {:induction false} DigitRunOf(ds: string, u: char, rest: string)
    requires AllDigits(ds) && !IsDigit(u)
    ensures DigitRun(ds + [u] + rest) == |ds|
  {
    var s := ds + [u] + rest;
    if ds != "" {
      assert s[0] == ds[0] && s[1..] == ds[1..] + [u] + rest;
      DigitRunOf(ds[1..], u, rest);
    }
  }

  lemma {:induction false} ComponentsSound(s: string)
    requires Components(s).Some?
    ensures TextOf(Components(s).value) == s
    decreases |s|
  {
    if s != "" {
      var n := DigitRun(s);
      ComponentsSound(s[n + 1..]);
      assert s == s[..n] + [s[n]] + s[n + 1..];
    }
  }

  lemma {:induction false} ComponentsComplete(cs: seq<Component>)
    requires AllValid(cs)
    ensures Components(TextOf(cs)) == Some(cs)
  {
    if cs != [] {
      var c, rest := cs[0], TextOf(cs[1..]);
      var s := c.digits + [c.unit] + rest;
      DigitRunOf(c.digits, c.unit, rest);
      assert s[..|c.digits|] == c.digits && s[|c.digits|] == c.unit && s[|c.digits| + 1..] == rest;
      ComponentsComplete(cs[1..]);
      assert [c] + cs[1..] == cs;
    }
  }

  /** A text splits into components exactly one way, when it is their concatenation. */
  lemma ComponentsIff(s: string, cs: seq<Component>)
    ensures Components(s) == Some(cs) <==> AllValid(cs) && TextOf(cs) == s
  {
    if Components(s).Some? {
      ComponentsSound(s);
    }
    if AllValid(cs) {
      ComponentsComplete(cs);
    }
  }

  // ----- the parser -----

  function CheckedParse(ds: string): Option<int>
    requires AllDigits(ds)
  {
    if Value(ds) <= I64_MAX then Some(Value(ds)) else None
  }

  function CheckedMul(a: int, b: int): Option<int>
    requires 0 <= a && 0 <= b
  {
    if a * b <= I64_MAX then Some(a * b) else None
  }

  function CheckedAdd(a: int, b: int): Option<int>
    requires 0 <= a && 0 <= b
  {
    if a + b <= I64_MAX then Some(a + b) else None
  }

  lemma {:induction false} TotalAppend(a: seq<Component>, b: seq<Component>)
    requires AllValid(a) && AllValid(b)
    ensures AllValid(a + b) && Total(a + b) == Total(a) + Total(b)
  {
    if a == [] {
      assert a + b == b;
    } else {
      assert (a + b)[1..] == a[1..] + b;
      TotalAppend(a[1..], b);
    }
  }

  /** `r` is the total of the components of `rest`, if there are any and it fits. */
  ghost predicate IsTotal(rest: string, r: Option<int>) {
    match Components(rest)
    case None => r == None
    case Some(cs) => r == if Total(cs) <= I64_MAX then Some(Total(cs)) else None
  }

  ghost function Prepend(done: seq<Component>, r: Option<seq<Component>>): Option<seq<Component>> {
    match r case None => None case Some(cs) => Some(done + cs)
  }

  /** The text read so far is `done`, and the remaining text decides the rest. */
  ghost predicate Reading(rest: string, pos: nat, done: seq<Component>) {
    pos <= |rest| && AllValid(done) && Components(rest) == Prepend(done, Components(rest[pos..]))
  }

  lemma ReadStart(rest: string)
    ensures Reading(rest, 0, [])
  {
    assert rest[0..] == rest;
    if Components(rest).Some? {
      assert [] + Components(rest).value == Components(rest).value;
    }
  }

  lemma FirstComponent(s: string, n: nat)
    requires s != "" && n == DigitRun(s)
    ensures n == 0 || n == |s| || !IsUnit(s[n]) ==> Components(s) == None
    ensures 0 < n < |s| && IsUnit(s[n]) ==>
              var c := Component(s[..n], s[n]);
              c.Valid() && Components(s) == Prepend([c], Components(s[n + 1..]))
  {
  }

  lemma PrependTwice(done: seq<Component>, c: Component, r: Option<seq<Component>>)
    ensures Prepend(done, Prepend([c], r)) == Prepend(done + [c], r)
  {
    if r.Some? {
      assert done + ([c] + r.value) == done + [c] + r.value;
    }
  }

  lemma CutAt(rest: string, pos: nat, end: nat)
    requires pos <= end < |rest|
    ensures var s, n := rest[pos..], end - pos;
            s[..n] == rest[pos..end] && s[n] == rest[end] && s[n + 1..] == rest[end + 1..]
  {
  }

  /** Reading one more component: digits up to `end`, then a unit. */
  lemma ReadOn(rest: string, pos: nat, done: seq<Component>, end: nat)
    requires pos < |rest| && Reading(rest, pos, done) && pos <= end <= |rest| && end - pos == DigitRun(rest[pos..])
    ensures end == pos || end == |rest| || !IsUnit(rest[end]) ==> Components(rest) == None
    ensures pos < end < |rest| && IsUnit(rest[end]) ==>
              var c := Component(rest[pos..end], rest[end]);
              c.Valid() && Reading(rest, end + 1, done + [c])
  {
    var s, n := rest[pos..], end - pos;
    FirstComponent(s, n);
    if 0 < n < |s| {
      CutAt(rest, pos, end);
      PrependTwice(done, Component(rest[pos..end], rest[end]), Components(rest[end + 1..]));
    }
  }

  /** Once the part read overflows, so does the whole. */
  lemma OverflowStays(rest: string, pos: nat, done: seq<Component>)
    requires Reading(rest, pos, done) && Total(done) > I64_MAX
    ensures IsTotal(rest, None)
  {
    var tail := Components(rest[pos..]);
    if tail.Some? {
      TotalAppend(done, tail.value);
    }
  }

  method ReadDigits(rest: string, start: nat) returns (end: nat)
    requires start <= |rest|
    ensures start <= end <= |rest| && AllDigits(rest[start..end])
    ensures end < |rest| ==> !IsDigit(rest[end])
  {
    end := start;
    while end < |rest| && IsDigit(rest[end])
      invariant start <= end <= |rest| && AllDigits(rest[start..end])
    {
      assert rest[start..end + 1] == rest[start..end] + [rest[end]];
      end := end + 1;
    }
  }

  /** One component's checked arithmetic: none exactly when the sum overflows. */
  method AddComponent(total: int, c: Component) returns (sum: Option<int>)
    requires c.Valid() && 0 <= total <= I64_MAX
    ensures sum == if total + c.Secs() <= I64_MAX then Some(total + c.Secs()) else None
  {
    MulAtLeast(Value(c.digits), Multiplier(c.unit));
    var n := CheckedParse(c.digits);
    if n.None? {
      return None;
    }
    var component := CheckedMul(n.value, Multiplier(c.unit));
    if component.None? {
      return None;
    }
    sum := CheckedAdd(total, component.value);
  }

  /** Reads the next component, or finds that the text has no reading. */
  method NextComponent(rest: string, pos: nat, ghost done: seq<Component>) returns (c: Option<Component>, next: nat)
    requires pos < |rest| && Reading(rest, pos, done)
    ensures c.None? ==> Components(rest) == None
    ensures c.Some? ==> c.value.Valid() && pos < next <= |rest| && Reading(rest, next, done + [c.value])
  {
    var end := ReadDigits(rest, pos);
    RunIs(rest, pos, end);
    ReadOn(rest, pos, done, end);
    if end == pos || end == |rest| || !IsUnit(rest[end]) {
      return None, pos;
    }
    return Some(Component(rest[pos..end], rest[end])), end + 1;
  }

  method SumComponents(rest: string) returns (r: Option<int>)
    ensures IsTotal(rest, r)
  {
    var total := 0;
    var pos := 0;
    ghost var done: seq<Component> := [];
    ReadStart(rest);
    while pos < |rest|
      invariant Reading(rest, pos, done) && 0 <= total <= I64_MAX && total == Total(done)
    {
      var c, next := NextComponent(rest, pos, done);
      if c.None? {
        return None;
      }
      var sum := AddComponent(total, c.value);
      TotalAppend(done, [c.value]);
      done := done + [c.value];
      if sum.None? {
        OverflowStays(rest, next, done);
        return None;
      }
      total, pos := sum.value, next;
    }
    ReadAll(rest, done);
    return Some(total);
  }

  lemma ReadAll(rest: string, done: seq<Component>)
    requires Reading(rest, |rest|, done)
    ensures Components(rest) == Some(done)
  {
    assert rest[|rest|..] == "" && done + [] == done;
  }

  /**
   The exact value whenever the text is in the grammar and its magnitude fits 63 bits, else none:
   an intermediate overflow only happens when the whole overflows.
   */
  method ParseDuration(s: string) returns (r: Option<int>)
    ensures r == Parsed(s)
  {
    var cleaned := Clean(s);
    if cleaned == "" {
      return None;
    }
    var neg := cleaned[0] == '-';
    var rest := if neg then cleaned[1..] else cleaned;
    if rest == "" {
      return None;
    }
    var magnitude;
    if AllDigits(rest) {
      magnitude := CheckedParse(rest);
    } else {
      magnitude := SumComponents(rest);
    }
    if magnitude.None? {
      return None;
    }
    return Some(if neg then -magnitude.value else magnitude.value);
  }

  lemma MulAtLeast(a: nat, b: nat)
    requires b >= 1
    ensures a * b >= a
  {
  }

  /** A maximal stretch of digits is the digit run. */
  lemma {:induction false} RunIs(s: string, i: nat, j: nat)
    requires i <= j <= |s| && AllDigits(s[i..j]) && (j < |s| ==> !IsDigit(s[j]))
    ensures DigitRun(s[i..]) == j - i
    decreases j - i
  {
    if i < j {
      assert s[i] == s[i..j][0] && IsDigit(s[i..j][0]);
      assert s[i..][1..] == s[i + 1..] && s[i..j][1..] == s[i + 1..j];
      RunIs(s, i + 1, j);
    }
  }

  // ----- the printer -----

  /** Decimal digits without leading zeros. */
  function Decimal(n: nat): (s: string)
    ensures s != "" && AllDigits(s)
  {
    (if n < 10 then "" else Decimal(n / 10)) + [('0' as int + n % 10) as char]
  }

  lemma {:induction false} DecimalValue(n: nat)
    ensures Value(Decimal(n)) == n
  {
    var s := Decimal(n);
    if n >= 10 {
      DecimalValue(n / 10);
      assert s[..|s| - 1] == Decimal(n / 10);
    } else {
      assert s[..|s| - 1] == "";
    }
  }

  /** `n` and its unit, or nothing for zero. */
  function Part(n: nat, unit: char): seq<Component>
    requires IsUnit(unit)
  {
    if n > 0 then [Component(Decimal(n), unit)] else []
  }

  function Parts(v: nat): seq<Component> {
    Part(v / 86400, 'd') + Part(v % 86400 / 3600, 'h') + Part(v % 3600 / 60, 'm') + Part(v % 60, 's')
  }

  function Formatted(secs: int): string {
    if secs <= 0 then "0s" else TextOf(Parts(secs))
  }

  lemma {:induction false} TextAppend(a: seq<Component>, b: seq<Component>)
    ensures TextOf(a + b) == TextOf(a) + TextOf(b)
  {
    if a == [] {
      assert a + b == b;
    } else {
      assert (a + b)[1..] == a[1..] + b;
      TextAppend(a[1..], b);
    }
  }

  /** Writes one part after what has been written. */
  method WritePart(out: string, n: nat, unit: char, ghost before: seq<Component>) returns (out': string)
    requires IsUnit(unit) && out == TextOf(before)
    ensures out' == TextOf(before + Part(n, unit))
  {
    out' := out;
    if n > 0 {
      out' := out + Decimal(n) + [unit];
    }
    TextAppend(before, Part(n, unit));
    PartText(n, unit);
    assert out + "" == out && out + (Decimal(n) + [unit]) == out + Decimal(n) + [unit];
  }

  lemma PartText(n: nat, unit: char)
    requires IsUnit(unit)
    ensures TextOf(Part(n, unit)) == if n > 0 then Decimal(n) + [unit] else ""
  {
  }

  method FmtDuration(secs: int) returns (out: string)
    ensures out == Formatted(secs)
  {
    var s := if secs > 0 then secs else 0;
    if s == 0 {
      return "0s";
    }
    var days, hours, mins, rem := s / 86400, s % 86400 / 3600, s % 3600 / 60, s % 60;
    out := WritePart("", days, 'd', []);
    assert [] + Part(days, 'd') == Part(days, 'd');
    out := WritePart(out, hours, 'h', Part(days, 'd'));
    out := WritePart(out, mins, 'm', Part(days, 'd') + Part(hours, 'h'));
    out := WritePart(out, rem, 's', Part(days, 'd') + Part(hours, 'h') + Part(mins, 'm'));
  }

  // ----- the round trip -----

  lemma PartTotal(n: nat, unit: char)
    requires IsUnit(unit)
    ensures AllValid(Part(n, unit)) && Total(Part(n, unit)) == n * Multiplier(unit)
  {
    DecimalValue(n);
  }

  lemma FourTotal(d: seq<Component>, h: seq<Component>, m: seq<Component>, s: seq<Component>)
    requires AllValid(d) && AllValid(h) && AllValid(m) && AllValid(s)
    ensures AllValid(d + h + m + s) && Total(d + h + m + s) == Total(d) + Total(h) + Total(m) + Total(s)
  {
    TotalAppend(d, h);
    TotalAppend(d + h, m);
    TotalAppend(d + h + m, s);
  }

  lemma MixedRadix(v: nat)
    ensures v / 86400 * 86400 + v % 86400 / 3600 * 3600 + v % 3600 / 60 * 60 + v % 60 == v
  {
  }

  lemma PartsTotal(v: nat)
    ensures AllValid(Parts(v)) && Total(Parts(v)) == v
    ensures v > 0 ==> Parts(v) != []
  {
    MixedRadix(v);
    PartTotal(v / 86400, 'd');
    PartTotal(v % 86400 / 3600, 'h');
    PartTotal(v % 3600 / 60, 'm');
    PartTotal(v % 60, 's');
    FourTotal(Part(v / 86400, 'd'), Part(v % 86400 / 3600, 'h'), Part(v % 3600 / 60, 'm'), Part(v % 60, 's'));
    assert Total([]) == 0;
  }

  /** Already clean: digits and units only. */
  predicate IsClean(s: string) {
    forall i :: 0 <= i < |s| ==> IsDigit(s[i]) || IsUnit(s[i])
  }

  lemma {:induction false} CleanKeeps(s: string)
    requires IsClean(s)
    ensures Clean(s) == s
  {
    if s != "" {
      CleanKeeps(s[1..]);
    }
  }

  lemma {:induction false} TextIsClean(cs: seq<Component>)
    requires AllValid(cs)
    ensures IsClean(TextOf(cs))
    ensures cs != [] ==> !AllDigits(TextOf(cs)) && TextOf(cs) != ""
  {
    if cs != [] {
      TextIsClean(cs[1..]);
      var s := TextOf(cs);
      assert s[|cs[0].digits|] == cs[0].unit;
    }
  }

  /** Any list of components reads back as its exact total, or as nothing if it does not fit. */
  lemma ParsedComponents(cs: seq<Component>)
    requires AllValid(cs) && cs != []
    ensures Parsed(TextOf(cs)) == if Total(cs) <= I64_MAX then Some(Total(cs)) else None
    ensures Parsed("-" + TextOf(cs)) == if Total(cs) <= I64_MAX then Some(0 - Total(cs)) else None
  {
    var s := TextOf(cs);
    TextIsClean(cs);
    CleanKeeps(s);
    ComponentsComplete(cs);
    assert Clean("-" + s) == "-" + s by {
      assert ("-" + s)[1..] == s;
    }
    assert ("-" + s)[1..] == s;
  }

  /** Printing then parsing is exact for every non-negative 64-bit value. */
  lemma FormatRoundTrip(v: int)
    requires 0 <= v <= I64_MAX
    ensures Parsed(Formatted(v)) == Some(v)
  {
    if v == 0 {
      var cs := [Component("0", 's')];
      assert Value("0") == 0;
      assert cs[1..] == [] && TextOf(cs) == "0s" && Total(cs) == 0;
      ParsedComponents(cs);
    } else {
      PartsTotal(v);
      ParsedComponents(Parts(v));
    }
  }

  /** Negative values print like zero. */
  lemma NegativeFormats(v: int)
    requires v < 0
    ensures Parsed(Formatted(v)) == Some(0)
  {
    FormatRoundTrip(0);
  }

  /** Printed text has no whitespace and is never blank. */
  lemma FormattedIsClean(v: int)
    ensures IsClean(Formatted(v)) && Formatted(v) != ""
  {
    if v > 0 {
      PartsTotal(v);
      TextIsClean(Parts(v));
    }
  }

  /** A parsed value always fits 64 bits. */
  lemma ParsedFits(s: string)
    ensures Parsed(s).Some? ==> -I64_MAX <= Parsed(s).value <= I64_MAX
  {
  }
}
