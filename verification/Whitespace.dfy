/** Whitespace as the string library sees it. */
module Whitespace {

  /** Unicode White_Space. */
  predicate IsWhitespace(c: char) {
    var u := c as int;
    || 0x09 <= u <= 0x0D || u == 0x20 || u == 0x85 || u == 0xA0 || u == 0x1680
    || 0x2000 <= u <= 0x200A || u == 0x2028 || u == 0x2029 || u == 0x202F || u == 0x205F || u == 0x3000
  }

  predicate IsBlank(s: string) {
    forall i :: 0 <= i < |s| ==> IsWhitespace(s[i])
  }

  function TrimStart(s: string): string {
    if s != "" && IsWhitespace(s[0]) then TrimStart(s[1..]) else s
  }

  function TrimEnd(s: string): string {
    if s != "" && IsWhitespace(s[|s| - 1]) then TrimEnd(s[..|s| - 1]) else s
  }

  function Trim(s: string): string {
    TrimEnd(TrimStart(s))
  }

  /** No whitespace at either end. */
  predicate Trimmed(s: string) {
    s == "" || (!IsWhitespace(s[0]) && !IsWhitespace(s[|s| - 1]))
  }

  lemma {:induction false} TrimEndTrimmed(s: string)
    requires s == "" || !IsWhitespace(s[0])
    ensures Trimmed(TrimEnd(s)) && |TrimEnd(s)| <= |s|
  {
    if s != "" && IsWhitespace(s[|s| - 1]) {
      TrimEndTrimmed(s[..|s| - 1]);
    }
  }

  lemma {:induction false} TrimStartBegins(s: string)
    ensures TrimStart(s) == "" || !IsWhitespace(TrimStart(s)[0])
  {
    if s != "" && IsWhitespace(s[0]) {
      TrimStartBegins(s[1..]);
    }
  }

  /** Trimming takes nothing but whitespace, and only from the ends. */
  lemma TrimKeepsCore(s: string) returns (before: string, after: string)
    ensures s == before + Trim(s) + after && IsBlank(before) && IsBlank(after)
  {
    before := StartTrimmed(s);
    after := EndTrimmed(TrimStart(s));
  }

  lemma {:induction false} StartTrimmed(s: string) returns (before: string)
    ensures s == before + TrimStart(s) && IsBlank(before)
  {
    before := "";
    if s != "" && IsWhitespace(s[0]) {
      var b := StartTrimmed(s[1..]);
      before := [s[0]] + b;
    }
  }

  lemma {:induction false} EndTrimmed(s: string) returns (after: string)
    ensures s == TrimEnd(s) + after && IsBlank(after)
  {
    after := "";
    if s != "" && IsWhitespace(s[|s| - 1]) {
      var n := |s| - 1;
      var a := EndTrimmed(s[..n]);
      after := a + [s[n]];
      assert s == s[..n] + [s[n]];
    }
  }

  /** Trimming gives trimmed text, and changes nothing exactly when the text was trimmed. */
  lemma TrimIff(s: string)
    ensures Trimmed(Trim(s))
    ensures Trim(s) == s <==> Trimmed(s)
  {
    TrimStartBegins(s);
    TrimEndTrimmed(TrimStart(s));
  }
}
