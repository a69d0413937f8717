/** Rendered descriptions, read back character by character. */
module MarkdownSafety {
  import opened Options
  import opened Whitespace
  import opened Markdown

  // ----- the tag language -----

  /** Where a reader stands: which element is open, and inside which block. */
  datatype Context = Top | Para | List(filled: bool) | Item | Span(close: string, outer: Context)

  predicate Textual(c: Context) {
    c.Para? || c.Item? || c.Span?
  }

  predicate Safe(s: string) {
    forall i :: 0 <= i < |s| ==> s[i] != '<' && s[i] != '>' && s[i] != '\"'
  }

  /** Characters taken by an opening inline tag, and where it leads. */
  function SpanTag(c: Context, s: string): (r: Option<(nat, Context)>)
    ensures r.Some? ==> 1 <= r.value.0 <= |s|
  {
    if "<code>" <= s then Some((6, Span("</code>", c)))
    else if "<strong>" <= s then Some((8, Span("</strong>", c)))
    else if "<em>" <= s then Some((4, Span("</em>", c)))
    else if ANCHOR_OPEN <= s then
      var after := s[|ANCHOR_OPEN|..];
      match FindChar(after, '\"')
      case None => None
      case Some(q) =>
        if IsAllowedScheme(after[..q]) && Safe(after[..q]) && ANCHOR_MID <= after[q..]
        then Some((|ANCHOR_OPEN| + q + |ANCHOR_MID|, Span("</a>", c)))
        else None
    else None
  }

  function Tag(c: Context, s: string): (r: Option<(nat, Context)>)
    ensures r.Some? ==> 1 <= r.value.0 <= |s|
  {
    match c
    case Top =>
      if "<p>" <= s then Some((3, Para)) else if "<ul>" <= s then Some((4, List(false))) else None
    case Para =>
      if "</p>" <= s then Some((4, Top)) else if "<br>" <= s then Some((4, Para)) else SpanTag(c, s)
    case List(filled) =>
      if "<li>" <= s then Some((4, Item)) else if filled && "</ul>" <= s then Some((5, Top)) else None
    case Item =>
      if "</li>" <= s then Some((5, List(true))) else SpanTag(c, s)
    case Span(close, outer) =>
      if close != "" && close <= s then Some((|close|, outer)) else None
  }

  /**
   A sequence of `<p>` and non-empty `<ul><li>` blocks. Inside them, `br` in paragraphs, and `code`,
   `strong`, `em` and `a` with an http, https or mailto target, which hold text only. Every
   character outside these tags is none of `<`, `>` and `"`.
   */
  predicate Accepts(c: Context, s: string)
    decreases |s|
  {
    if s == "" then c == Top
    else if s[0] == '<' then
      (match Tag(c, s) case None => false case Some((n, next)) => Accepts(next, s[n..]))
    else s[0] != '>' && s[0] != '\"' && Textual(c) && Accepts(c, s[1..])
  }

  // ----- reading pieces of output -----

  lemma {:induction false} TextStep(c: Context, t: string, r: string)
    requires Safe(t) && Textual(c)
    ensures Accepts(c, t + r) == Accepts(c, r)
  {
    if t == "" {
      assert t + r == r;
    } else {
      assert (t + r)[0] == t[0] && (t + r)[1..] == t[1..] + r;
      TextStep(c, t[1..], r);
    }
  }

  lemma TagStep(c: Context, tag: string, r: string, next: Context)
    requires tag != "" && tag[0] == '<' && Tag(c, tag + r) == Some((|tag|, next))
    ensures Accepts(c, tag + r) == Accepts(next, r)
  {
  }

  lemma PrefixOfConcat(a: string, b: string)
    ensures a <= a + b
  {
  }

  /** Two strings that differ early are not prefixes of a common one. */
  lemma NotPrefix(a: string, b: string, i: nat, r: string)
    requires i < |a| && i < |b| && a[i] != b[i]
    ensures !(a <= b + r)
  {
  }

  lemma CodeTags(c: Context, r: string)
    requires c.Para? || c.Item?
    ensures Tag(c, "<code>" + r) == Some((6, Span("</code>", c)))
    ensures Tag(c, "<strong>" + r) == Some((8, Span("</strong>", c)))
    ensures Tag(c, "<em>" + r) == Some((4, Span("</em>", c)))
  {
    PrefixOfConcat("<code>", r);
    NotPrefix("</p>", "<code>", 1, r); NotPrefix("<br>", "<code>", 1, r); NotPrefix("</li>", "<code>", 1, r);
    PrefixOfConcat("<strong>", r);
    NotPrefix("</p>", "<strong>", 1, r); NotPrefix("<br>", "<strong>", 1, r); NotPrefix("</li>", "<strong>", 1, r);
    NotPrefix("<code>", "<strong>", 1, r);
    PrefixOfConcat("<em>", r);
    NotPrefix("</p>", "<em>", 1, r); NotPrefix("<br>", "<em>", 1, r); NotPrefix("</li>", "<em>", 1, r);
    NotPrefix("<code>", "<em>", 1, r); NotPrefix("<strong>", "<em>", 1, r);
  }

  /** A span of text reads as nothing. */
  lemma SpanStep(c: Context, open: string, close: string, t: string, r: string)
    requires Safe(t) && open != "" && open[0] == '<' && close != "" && close[0] == '<'
    requires forall s: string :: Tag(c, open + s) == Some((|open|, Span(close, c)))
    ensures Accepts(c, open + t + close + r) == Accepts(c, r)
  {
    var inner := Span(close, c);
    assert open + t + close + r == open + (t + (close + r));
    TagStep(c, open, t + (close + r), inner);
    TextStep(inner, t, close + r);
    PrefixOfConcat(close, r);
    TagStep(inner, close, r, c);
  }

  lemma {:induction false} FindAfter(url: string, tail: string)
    requires Safe(url) && tail != "" && tail[0] == '\"'
    ensures FindChar(url + tail, '\"') == Some(|url|)
  {
    if url == "" {
      assert url + tail == tail;
    } else {
      assert (url + tail)[0] == url[0] && (url + tail)[1..] == url[1..] + tail;
      FindAfter(url[1..], tail);
    }
  }

  lemma AnchorTag(c: Context, url: string, r: string)
    requires (c.Para? || c.Item?) && Safe(url) && IsAllowedScheme(url)
    ensures Tag(c, ANCHOR_OPEN + url + ANCHOR_MID + r) == Some((|ANCHOR_OPEN + url + ANCHOR_MID|, Span("</a>", c)))
  {
    var after := url + (ANCHOR_MID + r);
    var s := ANCHOR_OPEN + url + ANCHOR_MID + r;
    assert s == ANCHOR_OPEN + after;
    PrefixOfConcat(ANCHOR_OPEN, after);
    NotPrefix("</p>", ANCHOR_OPEN, 1, after); NotPrefix("<br>", ANCHOR_OPEN, 1, after); NotPrefix("</li>", ANCHOR_OPEN, 1, after);
    NotPrefix("<code>", ANCHOR_OPEN, 1, after); NotPrefix("<strong>", ANCHOR_OPEN, 1, after); NotPrefix("<em>", ANCHOR_OPEN, 1, after);
    assert s[|ANCHOR_OPEN|..] == after;
    FindAfter(url, ANCHOR_MID + r);
    assert after[..|url|] == url && after[|url|..] == ANCHOR_MID + r;
    PrefixOfConcat(ANCHOR_MID, r);
  }

  lemma AnchorStep(c: Context, url: string, text: string, r: string)
    requires (c.Para? || c.Item?) && Safe(url) && Safe(text) && IsAllowedScheme(url)
    ensures Accepts(c, Anchor(url, text) + r) == Accepts(c, r)
  {
    var open, inner := ANCHOR_OPEN + url + ANCHOR_MID, Span("</a>", c);
    var rest := text + ("</a>" + r);
    assert Anchor(url, text) + r == open + rest;
    AnchorTag(c, url, rest);
    TagStep(c, open, rest, inner);
    TextStep(inner, text, "</a>" + r);
    PrefixOfConcat("</a>", r);
    TagStep(inner, "</a>", r, c);
  }

  // ----- inline -----

  lemma SafeConcat(a: string, b: string)
    requires Safe(a) && Safe(b)
    ensures Safe(a + b)
  {
  }

  lemma SpanTokens(c: Context, t: string, r: string)
    requires (c.Para? || c.Item?) && Safe(t)
    ensures Accepts(c, "<code>" + t + "</code>" + r) == Accepts(c, r)
    ensures Accepts(c, "<strong>" + t + "</strong>" + r) == Accepts(c, r)
    ensures Accepts(c, "<em>" + t + "</em>" + r) == Accepts(c, r)
  {
    forall s: string
      ensures Tag(c, "<code>" + s) == Some((6, Span("</code>", c)))
      ensures Tag(c, "<strong>" + s) == Some((8, Span("</strong>", c)))
      ensures Tag(c, "<em>" + s) == Some((4, Span("</em>", c)))
    {
      CodeTags(c, s);
    }
    SpanStep(c, "<code>", "</code>", t, r);
    SpanStep(c, "<strong>", "</strong>", t, r);
    SpanStep(c, "<em>", "</em>", t, r);
  }

  lemma LinkTextStep(c: Context, text: string, url: string, r: string)
    requires (c.Para? || c.Item?) && Safe(text) && Safe(url)
    ensures Accepts(c, LinkText(text, url) + r) == Accepts(c, r)
  {
    if IsAllowedScheme(url) {
      AnchorStep(c, url, text, r);
    } else {
      SafeConcat("[", text);
      SafeConcat("[" + text, "](");
      SafeConcat("[" + text + "](", url);
      SafeConcat("[" + text + "](" + url, ")");
      TextStep(c, LinkText(text, url), r);
    }
  }

  lemma LinkToken(c: Context, rest: string, r: string)
    requires (c.Para? || c.Item?) && Safe(rest) && "[" <= rest && MatchLink(rest).Some?
    ensures Accepts(c, MatchLink(rest).value.1 + r) == Accepts(c, r)
  {
    var after := rest[1..];
    var close := FindChar(after, ']').value;
    var tail := after[close + 1..];
    var p := FindChar(tail[1..], ')').value;
    LinkTextStep(c, after[..close], tail[1..][..p], r);
  }

  lemma AutolinkToken(c: Context, run: string, r: string)
    requires (c.Para? || c.Item?) && Safe(run)
    ensures Accepts(c, AutolinkText(run) + r) == Accepts(c, r)
  {
    var url, trailing := run[..UrlEnd(run)], run[UrlEnd(run)..];
    if "http://" <= url || "https://" <= url {
      assert Anchor(url, url) + trailing + r == Anchor(url, url) + (trailing + r);
      AnchorStep(c, url, url, trailing + r);
      TextStep(c, trailing, r);
    } else {
      TextStep(c, run, r);
    }
  }

  /** Whatever the scan emits for one token leaves the reader where it was. */
  lemma TokenStep(c: Context, rest: string, r: string)
    requires (c.Para? || c.Item?) && Safe(rest) && rest != ""
    ensures Accepts(c, Token(rest).1 + r) == Accepts(c, r)
  {
    if "`" <= rest && MatchCode(rest).Some? {
      SpanTokens(c, rest[1..][..FindChar(rest[1..], '`').value], r);
    } else if "**" <= rest && MatchBold(rest).Some? {
      SpanTokens(c, rest[2..][..FindStars(rest[2..]).value], r);
    } else if "**" <= rest {
      TextStep(c, "**", r);
    } else if "*" <= rest && MatchItalic(rest).Some? {
      SpanTokens(c, rest[1..][..FindChar(rest[1..], '*').value], r);
    } else if "[" <= rest && MatchLink(rest).Some? {
      LinkToken(c, rest, r);
    } else if StartsAutolink(rest) {
      AutolinkToken(c, rest[..RunLength(rest)], r);
    } else {
      TextStep(c, rest[..1], r);
    }
  }

  lemma {:induction false} InlineStep(c: Context, line: string, r: string)
    requires (c.Para? || c.Item?) && Safe(line)
    ensures Accepts(c, Inline(line) + r) == Accepts(c, r)
    decreases |line|
  {
    if line == "" {
      assert Inline(line) + r == r;
    } else {
      var rest := line[Token(line).0..];
      assert Inline(line) + r == Token(line).1 + (Inline(rest) + r);
      TokenStep(c, line, Inline(rest) + r);
      InlineStep(c, rest, r);
    }
  }

  // ----- blocks -----

  lemma ItemStep(line: string, filled: bool, rest: string)
    requires Safe(line)
    ensures Accepts(List(filled), "<li>" + (Inline(line) + ("</li>" + rest))) == Accepts(List(true), rest)
  {
    PrefixOfConcat("<li>", Inline(line) + ("</li>" + rest));
    TagStep(List(filled), "<li>", Inline(line) + ("</li>" + rest), Item);
    InlineStep(Item, line, "</li>" + rest);
    PrefixOfConcat("</li>", rest);
    TagStep(Item, "</li>", rest, List(true));
  }

  lemma ItemsSplit(block: seq<string>, r: string)
    requires block != []
    ensures Items(block) + r == "<li>" + (Inline(ItemContent(block[0])) + ("</li>" + (Items(block[1..]) + r)))
  {
    Flatten("<li>", Inline(ItemContent(block[0])), "</li>", Items(block[1..]), r);
  }

  lemma Flatten(a: string, b: string, c: string, d: string, e: string)
    ensures a + b + c + d + e == a + (b + (c + (d + e)))
  {
  }

  lemma {:induction false} ItemsStep(block: seq<string>, filled: bool, r: string)
    requires forall i :: 0 <= i < |block| ==> Safe(block[i])
    requires filled || block != []
    ensures Accepts(List(filled), Items(block) + ("</ul>" + r)) == Accepts(Top, r)
  {
    if block == [] {
      assert Items(block) + ("</ul>" + r) == "</ul>" + r;
      NotPrefix("<li>", "</ul>", 1, r);
      PrefixOfConcat("</ul>", r);
      TagStep(List(filled), "</ul>", r, Top);
    } else {
      var line := ItemContent(block[0]);
      var rest := Items(block[1..]) + ("</ul>" + r);
      ContentSafe(block[0]);
      ItemsSplit(block, "</ul>" + r);
      ItemStep(line, filled, rest);
      ItemsStep(block[1..], true, r);
    }
  }

  lemma {:induction false} TrimSuffix(s: string)
    requires Safe(s)
    ensures Safe(TrimStart(s))
  {
    if s != "" && IsWhitespace(s[0]) {
      TrimSuffix(s[1..]);
    }
  }

  lemma ContentSafe(line: string)
    requires Safe(line)
    ensures Safe(ItemContent(line))
  {
    TrimSuffix(line);
  }

  lemma {:induction false} ParagraphReads(block: seq<string>, r: string)
    requires forall i :: 0 <= i < |block| ==> Safe(block[i])
    ensures Accepts(Para, Paragraph(block) + r) == Accepts(Para, r)
  {
    if block == [] {
      assert Paragraph(block) + r == r;
    } else if |block| == 1 {
      assert Paragraph(block) == Inline(block[0]);
      InlineStep(Para, block[0], r);
    } else {
      var rest := Paragraph(block[1..]) + r;
      assert Paragraph(block) + r == Inline(block[0]) + ("<br>" + rest);
      InlineStep(Para, block[0], "<br>" + rest);
      NotPrefix("</p>", "<br>", 1, rest);
      PrefixOfConcat("<br>", rest);
      TagStep(Para, "<br>", rest, Para);
      ParagraphReads(block[1..], r);
    }
  }

  lemma Regroup(a: string, b: string, c: string, d: string)
    ensures a + b + c + d == a + (b + (c + d))
  {
  }

  lemma ListStep(block: seq<string>, r: string)
    requires block != [] && forall i :: 0 <= i < |block| ==> Safe(block[i])
    ensures Accepts(Top, "<ul>" + Items(block) + "</ul>" + r) == Accepts(Top, r)
  {
    var rest := Items(block) + ("</ul>" + r);
    Regroup("<ul>", Items(block), "</ul>", r);
    NotPrefix("<p>", "<ul>", 1, rest);
    PrefixOfConcat("<ul>", rest);
    TagStep(Top, "<ul>", rest, List(false));
    ItemsStep(block, false, r);
  }

  lemma ParagraphStep(block: seq<string>, r: string)
    requires forall i :: 0 <= i < |block| ==> Safe(block[i])
    ensures Accepts(Top, "<p>" + Paragraph(block) + "</p>" + r) == Accepts(Top, r)
  {
    var rest := Paragraph(block) + ("</p>" + r);
    Regroup("<p>", Paragraph(block), "</p>", r);
    PrefixOfConcat("<p>", rest);
    TagStep(Top, "<p>", rest, Para);
    ParagraphReads(block, "</p>" + r);
    PrefixOfConcat("</p>", r);
    TagStep(Para, "</p>", r, Top);
  }

  lemma BlockStep(block: seq<string>, r: string)
    requires block != [] && forall i :: 0 <= i < |block| ==> Safe(block[i])
    ensures Accepts(Top, RenderBlock(block) + r) == Accepts(Top, r)
  {
    ListStep(block, r);
    ParagraphStep(block, r);
  }

  ghost predicate SafeBlocks(blocks: seq<seq<string>>) {
    forall i :: 0 <= i < |blocks| ==> blocks[i] != [] && forall j :: 0 <= j < |blocks[i]| ==> Safe(blocks[i][j])
  }

  lemma {:induction false} BlocksRead(blocks: seq<seq<string>>)
    requires SafeBlocks(blocks)
    ensures Accepts(Top, RenderBlocks(blocks))
  {
    if blocks != [] {
      BlockStep(blocks[0], RenderBlocks(blocks[1..]));
      BlocksRead(blocks[1..]);
    }
  }

  // ----- the whole -----

  lemma {:induction false} EscapeSafe(s: string)
    ensures Safe(Escape(s))
  {
    if s != "" {
      EscapeSafe(s[1..]);
    }
  }

  lemma {:induction false} LinesSafe(s: string)
    requires Safe(s)
    ensures forall i :: 0 <= i < |Lines(s)| ==> Safe(Lines(s)[i])
    decreases |s|
  {
    var p := FindChar(s, '\n');
    if p.Some? {
      LinesSafe(s[p.value + 1..]);
    }
  }

  /** Blocks are never empty and hold only lines they were given. */
  lemma {:induction false} BlocksSafe(current: seq<string>, lines: seq<string>)
    requires forall i :: 0 <= i < |current| ==> Safe(current[i])
    requires forall i :: 0 <= i < |lines| ==> Safe(lines[i])
    ensures SafeBlocks(Blocks(current, lines))
    decreases |lines|
  {
    if lines != [] {
      if IsBlank(lines[0]) {
        BlocksSafe([], lines[1..]);
      } else {
        BlocksSafe(current + [lines[0]], lines[1..]);
      }
    }
  }

  /** Whatever is written in a description, its rendering is in the tag language. */
  lemma RenderedIsWellFormed(src: string)
    ensures Accepts(Top, Rendered(src))
  {
    var escaped := Escape(NormalizeNewlines(src));
    EscapeSafe(NormalizeNewlines(src));
    LinesSafe(escaped);
    BlocksSafe([], Lines(escaped));
    BlocksRead(Blocks([], Lines(escaped)));
  }

  // ----- nothing is lost -----

  /** Deletes every tag, from `<` to the next `>`. */
  function StripTags(s: string): string
    decreases |s|
  {
    if s == "" then ""
    else if s[0] == '<' then
      (match FindChar(s, '>') case None => "" case Some(p) => StripTags(s[p + 1..]))
    else [s[0]] + StripTags(s[1..])
  }

  /** Reads entities back. */
  function Decode(s: string): string {
    if s == "" then ""
    else if "&amp;" <= s then "&" + Decode(s[5..])
    else if "&lt;" <= s then "<" + Decode(s[4..])
    else if "&gt;" <= s then ">" + Decode(s[4..])
    else if "&quot;" <= s then "\"" + Decode(s[6..])
    else if "&#39;" <= s then "'" + Decode(s[5..])
    else [s[0]] + Decode(s[1..])
  }

  lemma DecodeAngle(r: string)
    ensures Decode("&amp;" + r) == "&" + Decode(r)
    ensures Decode("&lt;" + r) == "<" + Decode(r)
    ensures Decode("&gt;" + r) == ">" + Decode(r)
  {
    PrefixOfConcat("&amp;", r);
    PrefixOfConcat("&lt;", r);
    NotPrefix("&amp;", "&lt;", 1, r);
    PrefixOfConcat("&gt;", r);
    NotPrefix("&amp;", "&gt;", 1, r); NotPrefix("&lt;", "&gt;", 1, r);
    assert ("&amp;" + r)[5..] == r && ("&lt;" + r)[4..] == r && ("&gt;" + r)[4..] == r;
  }

  lemma DecodeQuote(r: string)
    ensures Decode("&quot;" + r) == "\"" + Decode(r)
    ensures Decode("&#39;" + r) == "'" + Decode(r)
  {
    PrefixOfConcat("&quot;", r);
    NotPrefix("&amp;", "&quot;", 1, r); NotPrefix("&lt;", "&quot;", 1, r); NotPrefix("&gt;", "&quot;", 1, r);
    PrefixOfConcat("&#39;", r);
    NotPrefix("&amp;", "&#39;", 1, r); NotPrefix("&lt;", "&#39;", 1, r); NotPrefix("&gt;", "&#39;", 1, r);
    NotPrefix("&quot;", "&#39;", 1, r);
    assert ("&quot;" + r)[6..] == r && ("&#39;" + r)[5..] == r;
  }

  lemma DecodePlain(c: char, r: string)
    requires c != '&'
    ensures Decode([c] + r) == [c] + Decode(r)
  {
  }

  lemma DecodeChar(c: char, r: string)
    ensures Decode(EscapeChar(c) + r) == [c] + Decode(r)
  {
    match c
    case '&' => DecodeAngle(r);
    case '<' => DecodeAngle(r);
    case '>' => DecodeAngle(r);
    case '"' => DecodeQuote(r);
    case '\'' => DecodeQuote(r);
    case _ => DecodePlain(c, r);
  }

  lemma {:induction false} DecodeEscape(s: string)
    ensures Decode(Escape(s)) == s
  {
    if s != "" {
      DecodeChar(s[0], Escape(s[1..]));
      DecodeEscape(s[1..]);
    }
  }

  lemma {:induction false} StripText(t: string, r: string)
    requires Safe(t)
    ensures StripTags(t + r) == t + StripTags(r)
  {
    if t == "" {
      assert t + r == r;
    } else {
      assert (t + r)[0] == t[0] && (t + r)[1..] == t[1..] + r;
      StripText(t[1..], r);
    }
  }

  lemma {:induction false} FindEnd(a: string, c: char, r: string)
    requires c !in a
    ensures FindChar(a + [c] + r, c) == Some(|a|)
  {
    var s := a + [c] + r;
    if a != "" {
      assert s[0] == a[0] && s[1..] == a[1..] + [c] + r;
      FindEnd(a[1..], c, r);
    }
  }

  lemma StripTag(a: string, r: string)
    requires a != "" && a[0] == '<' && '>' !in a
    ensures StripTags(a + ">" + r) == StripTags(r)
  {
    FindEnd(a, '>', r);
    assert a + ['>'] + r == a + ">" + r;
    assert (a + ">" + r)[|a| + 1..] == r;
  }

  lemma StripAnchor(url: string, text: string, r: string)
    requires Safe(url) && Safe(text)
    ensures StripTags(Anchor(url, text) + r) == text + StripTags(r)
  {
    var head := ANCHOR_OPEN + url + "\" rel=\"noopener noreferrer\"";
    var rest := text + ("</a" + ">" + r);
    assert Anchor(url, text) + r == head + ">" + rest;
    assert '>' !in head;
    StripTag(head, rest);
    StripText(text, "</a" + ">" + r);
    StripTag("</a", r);
  }

  lemma StripLinked(url: string, trailing: string, r: string)
    requires Safe(url) && Safe(trailing)
    ensures StripTags(Anchor(url, url) + trailing + r) == url + trailing + StripTags(r)
  {
    Assoc(Anchor(url, url), trailing, r);
    StripAnchor(url, url, trailing + r);
    StripText(trailing, r);
    Assoc(url, trailing, StripTags(r));
  }

  lemma StripAutolink(run: string, r: string)
    requires Safe(run)
    ensures StripTags(AutolinkText(run) + r) == run + StripTags(r)
  {
    var n := UrlEnd(run);
    assert run == run[..n] + run[n..];
    if "http://" <= run[..n] || "https://" <= run[..n] {
      StripLinked(run[..n], run[n..], r);
    } else {
      StripText(run, r);
    }
  }

  /** No code, emphasis or link syntax. */
  predicate Plain(s: string) {
    forall i :: 0 <= i < |s| ==> s[i] != '`' && s[i] != '*' && s[i] != '['
  }

  lemma PlainToken(line: string)
    requires line != "" && Plain(line)
    ensures StartsAutolink(line) ==> Token(line).1 == AutolinkText(line[..Token(line).0])
    ensures !StartsAutolink(line) ==> Token(line).1 == line[..Token(line).0]
  {
  }

  lemma Halves(s: string, n: nat)
    requires n <= |s|
    ensures s[..n] + s[n..] == s
  {
  }

  lemma StripToken(line: string, r: string)
    requires line != "" && Safe(line) && Plain(line)
    ensures StripTags(Token(line).1 + r) == line[..Token(line).0] + StripTags(r)
  {
    var run := line[..Token(line).0];
    PlainToken(line);
    if StartsAutolink(line) {
      StripAutolink(run, r);
    } else {
      StripText(run, r);
    }
  }

  /** On a plain line the scan only adds tags. */
  lemma {:induction false} StripInline(line: string)
    requires Safe(line) && Plain(line)
    ensures StripTags(Inline(line)) == line
    decreases |line|
  {
    if line != "" {
      var n := Token(line).0;
      StripInline(line[n..]);
      StripToken(line, Inline(line[n..]));
      Halves(line, n);
    }
  }

  lemma {:induction false} EscapePlain(s: string)
    requires Plain(s)
    ensures Plain(Escape(s))
  {
    if s != "" {
      EscapePlain(s[1..]);
    }
  }

  /**
   For a line without a backtick, `*` or `[`: deleting the generated tags and decoding the entities
   of what remains, taken together, gives back the line as written.
   */
  lemma PlainLineRoundTrip(line: string)
    requires Plain(line)
    ensures Decode(StripTags(Inline(Escape(line)))) == line
  {
    EscapeSafe(line);
    EscapePlain(line);
    StripInline(Escape(line));
    DecodeEscape(line);
  }

  // ----- the documented constructs -----

  lemma InlineHead(line: string, n: nat, out: string, r: string)
    requires line != "" && Token(line) == (n, out) && line[n..] == r
    ensures Inline(line) == out + Inline(r)
  {
  }

  /** Code holds everything up to the next backtick, markup included. */
  lemma CodeRenders(t: string, r: string)
    requires '`' !in t
    ensures Inline("`" + t + "`" + r) == "<code>" + t + "</code>" + Inline(r)
  {
    var s := "`" + t + "`" + r;
    assert s[1..] == t + ['`'] + r;
    FindEnd(t, '`', r);
    assert s[1..][..|t|] == t;
    InlineHead(s, |t| + 2, "<code>" + t + "</code>", r);
  }

  lemma ItalicRenders(t: string, r: string)
    requires '*' !in t && t != ""
    ensures Inline("*" + t + "*" + r) == "<em>" + t + "</em>" + Inline(r)
  {
    var s := "*" + t + "*" + r;
    assert s[0] == '*' && s[1] == t[0];
    assert s[1..] == t + ['*'] + r;
    FindEnd(t, '*', r);
    assert s[1..][..|t|] == t;
    InlineHead(s, |t| + 2, "<em>" + t + "</em>", r);
  }

  lemma {:induction false} FindStarsEnd(a: string, r: string)
    requires '*' !in a
    ensures FindStars(a + "**" + r) == Some(|a|)
  {
    var s := a + "**" + r;
    if a != "" {
      assert s[0] == a[0] && s[1..] == a[1..] + "**" + r;
      FindStarsEnd(a[1..], r);
    }
  }

  lemma BoldRenders(t: string, r: string)
    requires '*' !in t
    ensures Inline("**" + t + "**" + r) == "<strong>" + t + "</strong>" + Inline(r)
  {
    var s := "**" + t + "**" + r;
    assert s[0] == '*' && s[1] == '*';
    assert s[2..] == t + "**" + r;
    FindStarsEnd(t, r);
    assert s[2..][..|t|] == t;
    assert MatchBold(s) == Some((|t| + 4, "<strong>" + t + "</strong>"));
    assert s[|t| + 4..] == r;
    InlineHead(s, |t| + 4, "<strong>" + t + "</strong>", r);
  }

  lemma Cut(a: string, b: string)
    ensures (a + b)[..|a|] == a && (a + b)[|a|..] == b
  {
  }

  lemma CutAround(a: string, c: char, b: string)
    requires c !in a
    ensures var s := a + [c] + b;
            FindChar(s, c) == Some(|a|) && s[..|a|] == a && s[|a| + 1..] == b
  {
    FindEnd(a, c, b);
  }

  lemma AfterFirst(mark: string, rest: string, s: string)
    requires |mark| == 1 && s == mark + rest
    ensures mark <= s && s[1..] == rest
  {
  }

  /** How a link is found, part by part. */
  lemma LinkParts(s: string, close: nat, p: nat)
    requires "[" <= s && FindChar(s[1..], ']') == Some(close)
    requires var tail := s[1..][close + 1..];
             "(" <= tail && FindChar(tail[1..], ')') == Some(p)
    ensures MatchLink(s) == Some((close + p + 4, LinkText(s[1..][..close], s[1..][close + 1..][1..][..p])))
  {
  }

  lemma LinkMatches(text: string, url: string, r: string, tail: string, s: string)
    requires ']' !in text && ')' !in url
    requires tail == "(" + (url + [')'] + r) && s == "[" + (text + [']'] + tail)
    ensures "[" <= s && MatchLink(s) == Some((|text| + |url| + 4, LinkText(text, url)))
  {
    var last, after := url + [')'] + r, text + [']'] + tail;
    AfterFirst("[", after, s);
    AfterFirst("(", last, tail);
    CutAround(text, ']', tail);
    CutAround(url, ')', r);
    LinkParts(s, |text|, |url|);
  }

  lemma LinkRest(text: string, url: string, r: string)
    ensures ("[" + text + "](" + url + ")" + r)[|text| + |url| + 4..] == r
  {
  }

  lemma LinkSource(text: string, url: string, r: string)
    ensures "[" + text + "](" + url + ")" + r == "[" + (text + [']'] + ("(" + (url + [')'] + r)))
  {
  }

  lemma LinkIsToken(s: string, n: nat, out: string, r: string)
    requires "[" <= s && MatchLink(s) == Some((n, out)) && s[n..] == r
    ensures Inline(s) == out + Inline(r)
  {
    assert s[0] == '[';
    InlineHead(s, n, out, r);
  }

  lemma LinkInline(text: string, url: string, r: string, tail: string, s: string)
    requires ']' !in text && ')' !in url
    requires tail == "(" + (url + [')'] + r) && s == "[" + (text + [']'] + tail)
    requires |s| >= |text| + |url| + 4 && s[|text| + |url| + 4..] == r
    ensures Inline(s) == LinkText(text, url) + Inline(r)
  {
    LinkMatches(text, url, r, tail, s);
    LinkIsToken(s, |text| + |url| + 4, LinkText(text, url), r);
  }

  /** Only an allowed scheme makes a live link; anything else stays as written. */
  lemma LinkRenders(text: string, url: string, r: string)
    requires ']' !in text && ')' !in url
    ensures Inline("[" + text + "](" + url + ")" + r) == LinkText(text, url) + Inline(r)
  {
    LinkSource(text, url, r);
    LinkRest(text, url, r);
    LinkInline(text, url, r, "(" + (url + [')'] + r), "[" + text + "](" + url + ")" + r);
  }
}
