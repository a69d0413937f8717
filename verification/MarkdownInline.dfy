/** What one line becomes, case by case and without the scanner's own functions. */
module MarkdownInline {
  import opened Options
  import opened Whitespace
  import opened Markdown
  import opened MarkdownSafety

  // ----- what stays as written -----

  lemma HeadIs(s: string, n: nat, out: string, r: string)
    requires s != "" && n <= |s| && Token(s) == (n, out) && s[n..] == r
    ensures Inline(s) == out + Inline(r)
  {
    InlineHead(s, n, out, r);
  }

  /** A character that starts nothing. */
  lemma OrdinaryStays(c: char, r: string)
    requires c != '`' && c != '*' && c != '['
    requires !("http://" <= [c] + r) && !("https://" <= [c] + r)
    ensures Inline([c] + r) == [c] + Inline(r)
  {
    var s := [c] + r;
    assert s[0] == c && s[..1] == [c];
    HeadIs(s, 1, [c], r);
  }

  /** A backtick that nothing closes. */
  lemma LoneBacktickStays(r: string)
    requires '`' !in r
    ensures Inline("`" + r) == "`" + Inline(r)
  {
    var s := "`" + r;
    assert s[1..] == r && s[..1] == "`";
    HeadIs(s, 1, "`", r);
  }

  /** A star that nothing closes. */
  lemma LoneStarStays(r: string)
    requires '*' !in r
    ensures Inline("*" + r) == "*" + Inline(r)
  {
    var s := "*" + r;
    assert s[1..] == r && s[..1] == "*";
    assert s[0] == '*';
    if r != "" {
      assert s[1] == r[0] && r[0] in r;
    }
    HeadIs(s, 1, "*", r);
  }

  ghost predicate NoPair(s: string) {
    forall i :: 0 <= i < |s| - 1 ==> !(s[i] == '*' && s[i + 1] == '*')
  }

  lemma {:induction false} NoStarsFound(s: string)
    requires NoPair(s)
    ensures FindStars(s).None?
  {
    if |s| >= 2 {
      assert NoPair(s[1..]) by {
        forall i | 0 <= i < |s[1..]| - 1 ensures !(s[1..][i] == '*' && s[1..][i + 1] == '*') {
          assert s[1..][i] == s[i + 1] && s[1..][i + 1] == s[i + 1 + 1];
        }
      }
      NoStarsFound(s[1..]);
    }
  }

  /** Two stars that no other two close, even if a single one does. */
  lemma LoneStarsStay(r: string)
    requires NoPair(r)
    ensures Inline("**" + r) == "**" + Inline(r)
  {
    var s := "**" + r;
    assert s[0] == '*' && s[2..] == r;
    NoStarsFound(r);
    HeadIs(s, 2, "**", r);
  }

  lemma BracketStays(r: string)
    requires MatchLink("[" + r).None?
    ensures Inline("[" + r) == "[" + Inline(r)
  {
    var s := "[" + r;
    assert s[0] == '[' && s[1..] == r && s[..1] == "[";
    HeadIs(s, 1, "[", r);
  }

  /** A bracket that is not closed. */
  lemma OpenBracketStays(r: string)
    requires ']' !in r
    ensures Inline("[" + r) == "[" + Inline(r)
  {
    assert ("[" + r)[1..] == r;
    BracketStays(r);
  }

  /** A bracketed text that no target follows. */
  lemma BracketedStays(text: string, r: string)
    requires ']' !in text && !("(" <= r)
    ensures Inline("[" + (text + "]" + r)) == "[" + Inline(text + "]" + r)
  {
    var after := text + "]" + r;
    assert ("[" + after)[1..] == after;
    CutAround(text, ']', r);
    assert after == text + [']'] + r;
    BracketStays(after);
  }

  /** A target that is not closed. */
  lemma OpenTargetStays(text: string, r: string)
    requires ']' !in text && ')' !in r
    ensures Inline("[" + (text + "](" + r)) == "[" + Inline(text + "](" + r)
  {
    var after := text + "](" + r;
    assert ("[" + after)[1..] == after;
    assert after == text + [']'] + ("(" + r);
    CutAround(text, ']', "(" + r);
    assert ("(" + r)[1..] == r;
    BracketStays(after);
  }

  // ----- what becomes an element -----

  lemma {:induction false} StarsFoundAt(t: string, r: string)
    requires NoPair(t) && (t != "" ==> t[|t| - 1] != '*')
    ensures FindStars(t + "**" + r) == Some(|t|)
  {
    var s := t + "**" + r;
    if t != "" {
      var u := t[1..];
      assert s[1..] == u + "**" + r;
      assert s[0] == t[0] && s[1] == (if |t| > 1 then t[1] else '*');
      assert forall i :: 0 <= i < |u| ==> u[i] == t[i + 1];
      StarsFoundAt(u, r);
    }
  }

  /** Single stars are text inside bold. */
  lemma BoldHoldsStars(t: string, r: string)
    requires NoPair(t) && (t != "" ==> t[|t| - 1] != '*')
    ensures Inline("**" + (t + "**" + r)) == "<strong>" + t + "</strong>" + Inline(r)
  {
    var after := t + "**" + r;
    var s := "**" + after;
    assert s[0] == '*' && s[2..] == after;
    StarsFoundAt(t, r);
    assert after[..|t|] == t && after[|t| + 2..] == r;
    assert s[|t| + 4..] == r;
    HeadIs(s, |t| + 4, "<strong>" + t + "</strong>", r);
  }

  /** A link in brackets is live for three schemes and stays as written for any other. */
  lemma LinkIs(text: string, url: string, r: string)
    requires ']' !in text && ')' !in url
    ensures Inline("[" + text + "](" + url + ")" + r) ==
              (if "http://" <= url || "https://" <= url || "mailto:" <= url
               then "<a href=\"" + url + "\" rel=\"noopener noreferrer\">" + text + "</a>"
               else "[" + text + "](" + url + ")")
              + Inline(r)
  {
    LinkRenders(text, url, r);
  }

  predicate Punctuation(s: string) {
    forall i :: 0 <= i < |s| ==> s[i] == '.' || s[i] == ',' || s[i] == ';' || s[i] == ':' || s[i] == '!' || s[i] == '?' || s[i] == ')'
  }

  lemma {:induction false} RunEnds(run: string, r: string)
    requires forall i :: 0 <= i < |run| ==> !IsWhitespace(run[i])
    requires r == "" || IsWhitespace(r[0])
    ensures RunLength(run + r) == |run|
  {
    if run != "" {
      assert (run + r)[0] == run[0] && (run + r)[1..] == run[1..] + r;
      RunEnds(run[1..], r);
    } else {
      assert run + r == r;
    }
  }

  lemma {:induction false} UrlEndsBefore(url: string, tail: string)
    requires url != "" && !Punctuation([url[|url| - 1]]) && Punctuation(tail)
    ensures UrlEnd(url + tail) == |url|
    decreases |tail|
  {
    var run := url + tail;
    if tail == "" {
      assert run == url && [url[|url| - 1]][0] == url[|url| - 1];
    } else {
      var n := |tail| - 1;
      assert run[|run| - 1] == tail[n] && run[..|run| - 1] == url + tail[..n];
      UrlEndsBefore(url, tail[..n]);
    }
  }

  /**
   A bare address is live up to the next whitespace, without the punctuation it ends in, which
   follows it as text.
   */
  lemma AddressIs(url: string, tail: string, r: string)
    requires "http://" <= url || "https://" <= url
    requires !Punctuation([url[|url| - 1]]) && Punctuation(tail)
    requires forall i :: 0 <= i < |url + tail| ==> !IsWhitespace((url + tail)[i])
    requires r == "" || IsWhitespace(r[0])
    ensures Inline(url + tail + r) == "<a href=\"" + url + "\" rel=\"noopener noreferrer\">" + url + "</a>" + tail + Inline(r)
  {
    var run := url + tail;
    var s := run + r;
    RunEnds(run, r);
    UrlEndsBefore(url, tail);
    assert run[..|url|] == url && run[|url|..] == tail;
    assert s[..|run|] == run && s[|run|..] == r;
    AddressHead(url, s);
    HeadIs(s, |run|, AutolinkText(run), r);
  }

  lemma AddressHead(url: string, s: string)
    requires url <= s && ("http://" <= url || "https://" <= url)
    ensures StartsAutolink(s) && s[0] == 'h'
  {
    assert url[0] == 'h' && s[0] == url[0];
    assert "http://" <= url ==> "http://" <= s;
    assert "https://" <= url ==> "https://" <= s;
  }
}
