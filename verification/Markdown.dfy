/** The markdown subset of descriptions: escape first, then emit only known tags. */
module Markdown {
  import opened Options
  import opened Whitespace

  // ----- text helpers -----

  /** Index of the first `c`. */
  function FindChar(s: string, c: char): (r: Option<nat>)
    ensures r.Some? ==> r.value < |s| && s[r.value] == c && c !in s[..r.value]
    ensures r.None? ==> c !in s
  {
    if s == "" then None
    else if s[0] == c then Some(0)
    else
      match FindChar(s[1..], c)
      case None => None
      case Some(p) =>
        assert s[..p + 1] == [s[0]] + s[1..][..p];
        Some(p + 1)
  }

  /** Index of the first `**`. */
  function FindStars(s: string): (r: Option<nat>)
    ensures r.Some? ==> r.value + 2 <= |s| && s[r.value] == '*' && s[r.value + 1] == '*'
  {
    if |s| < 2 then None
    else if s[0] == '*' && s[1] == '*' then Some(0)
    else
      match FindStars(s[1..])
      case None => None
      case Some(p) => Some(p + 1)
  }

  /** Index of the first whitespace, else the length. */
  function RunLength(s: string): (n: nat)
    ensures n <= |s|
  {
    if s == "" || IsWhitespace(s[0]) then 0 else 1 + RunLength(s[1..])
  }

  function NormalizeNewlines(s: string): string {
    if s == "" then ""
    else if s[0] != '\r' then [s[0]] + NormalizeNewlines(s[1..])
    else if |s| > 1 && s[1] == '\n' then "\n" + NormalizeNewlines(s[2..])
    else "\n" + NormalizeNewlines(s[1..])
  }

  function EscapeChar(c: char): string {
    match c
    case '&' => "&amp;"
    case '<' => "&lt;"
    case '>' => "&gt;"
    case '\"' => "&quot;"
    case '\'' => "&#39;"
    case _ => [c]
  }

  function Escape(s: string): string {
    if s == "" then "" else EscapeChar(s[0]) + Escape(s[1..])
  }

  /** Pieces between newlines. */
  function Lines(s: string): seq<string> {
    match FindChar(s, '\n')
    case None => [s]
    case Some(p) => [s[..p]] + Lines(s[p + 1..])
  }

  /** Groups of neighbouring non-blank lines; `current` is the group being collected. */
  function Blocks(current: seq<string>, lines: seq<string>): seq<seq<string>>
    decreases |lines|
  {
    if lines == [] then (if current == [] then [] else [current])
    else if IsBlank(lines[0]) then (if current == [] then [] else [current]) + Blocks([], lines[1..])
    else Blocks(current + [lines[0]], lines[1..])
  }

  predicate IsListItem(line: string) {
    "- " <= TrimStart(line)
  }

  predicate IsListBlock(block: seq<string>) {
    forall i :: 0 <= i < |block| ==> IsListItem(block[i])
  }

  function ItemContent(line: string): string {
    var t := TrimStart(line);
    if "- " <= t then t[2..] else t
  }

  // ----- inline constructs: characters consumed and output -----

  predicate IsAllowedScheme(url: string) {
    "http://" <= url || "https://" <= url || "mailto:" <= url
  }

  const ANCHOR_OPEN: string := "<a href=\""
  const ANCHOR_MID: string := "\" rel=\"noopener noreferrer\">"

  function Anchor(url: string, text: string): string {
    ANCHOR_OPEN + url + ANCHOR_MID + text + "</a>"
  }

  function MatchCode(rest: string): (r: Option<(nat, string)>)
    requires "`" <= rest
    ensures r.Some? ==> 2 <= r.value.0 <= |rest|
  {
    match FindChar(rest[1..], '`')
    case None => None
    case Some(p) => Some((1 + p + 1, "<code>" + rest[1..][..p] + "</code>"))
  }

  function MatchBold(rest: string): (r: Option<(nat, string)>)
    requires "**" <= rest
    ensures r.Some? ==> 4 <= r.value.0 <= |rest|
  {
    match FindStars(rest[2..])
    case None => None
    case Some(p) => Some((2 + p + 2, "<strong>" + rest[2..][..p] + "</strong>"))
  }

  function MatchItalic(rest: string): (r: Option<(nat, string)>)
    requires "*" <= rest
    ensures r.Some? ==> 2 <= r.value.0 <= |rest|
  {
    match FindChar(rest[1..], '*')
    case None => None
    case Some(p) => Some((1 + p + 1, "<em>" + rest[1..][..p] + "</em>"))
  }

  /** A live anchor for an allowed scheme, else the source text. */
  function LinkText(text: string, url: string): string {
    if IsAllowedScheme(url) then Anchor(url, text) else "[" + text + "](" + url + ")"
  }

  function MatchLink(rest: string): (r: Option<(nat, string)>)
    requires "[" <= rest
    ensures r.Some? ==> 4 <= r.value.0 <= |rest|
  {
    var after := rest[1..];
    match FindChar(after, ']')
    case None => None
    case Some(close) =>
      var text, tail := after[..close], after[close + 1..];
      if !("(" <= tail) then None
      else
        match FindChar(tail[1..], ')')
        case None => None
        case Some(p) =>
          Some((1 + close + 1 + 1 + p + 1, LinkText(text, tail[1..][..p])))
  }

  predicate IsTrailing(c: char) {
    c in ".,;:!?)"
  }

  /** Length of `run` without its trailing punctuation. */
  function UrlEnd(run: string): (n: nat)
    ensures n <= |run|
  {
    if run != "" && IsTrailing(run[|run| - 1]) then UrlEnd(run[..|run| - 1]) else |run|
  }

  function AutolinkText(run: string): string {
    var url, trailing := run[..UrlEnd(run)], run[UrlEnd(run)..];
    if "http://" <= url || "https://" <= url then Anchor(url, url) + trailing else run
  }

  predicate StartsAutolink(rest: string) {
    "http://" <= rest || "https://" <= rest
  }

  lemma AutolinkProgress(rest: string)
    requires StartsAutolink(rest)
    ensures RunLength(rest) >= 1
  {
  }

  /** What the scan does at the head of a non-empty rest: characters consumed and output. */
  function Token(rest: string): (r: (nat, string))
    requires rest != ""
    ensures 1 <= r.0 <= |rest|
  {
    var literal := (1, rest[..1]);
    if "`" <= rest then
      (match MatchCode(rest) case Some(t) => t case None => literal)
    else if "**" <= rest then
      (match MatchBold(rest) case Some(t) => t case None => (2, "**"))
    else if "*" <= rest then
      (match MatchItalic(rest) case Some(t) => t case None => literal)
    else if "[" <= rest then
      (match MatchLink(rest) case Some(t) => t case None => literal)
    else if StartsAutolink(rest) then
      AutolinkProgress(rest);
      (RunLength(rest), AutolinkText(rest[..RunLength(rest)]))
    else literal
  }

  function Inline(rest: string): string
    decreases |rest|
  {
    if rest == "" then "" else Token(rest).1 + Inline(rest[Token(rest).0..])
  }

  // ----- blocks -----

  function Items(block: seq<string>): string {
    if block == [] then "" else "<li>" + Inline(ItemContent(block[0])) + "</li>" + Items(block[1..])
  }

  /** The rendered lines joined by line breaks. */
  function Paragraph(block: seq<string>): string {
    if block == [] then ""
    else Inline(block[0]) + if |block| == 1 then "" else "<br>" + Paragraph(block[1..])
  }

  function RenderBlock(block: seq<string>): string {
    if IsListBlock(block) then "<ul>" + Items(block) + "</ul>" else "<p>" + Paragraph(block) + "</p>"
  }

  function RenderBlocks(blocks: seq<seq<string>>): string {
    if blocks == [] then "" else RenderBlock(blocks[0]) + RenderBlocks(blocks[1..])
  }

  function Rendered(src: string): string {
    RenderBlocks(Blocks([], Lines(Escape(NormalizeNewlines(src)))))
  }

  // ----- implementation -----

  method EscapeHtml(s: string) returns (out: string)
    ensures out == Escape(s)
  {
    out := "";
    for i := 0 to |s|
      invariant out + Escape(s[i..]) == Escape(s)
    {
      ghost var was := out;
      match s[i] {
        case '&' => out := out + "&amp;";
        case '<' => out := out + "&lt;";
        case '>' => out := out + "&gt;";
        case '\"' => out := out + "&quot;";
        case '\'' => out := out + "&#39;";
        case _ => out := out + [s[i]];
      }
      assert out == was + EscapeChar(s[i]);
      assert s[i..][0] == s[i] && s[i..][1..] == s[i + 1..];
      Assoc(was, EscapeChar(s[i]), Escape(s[i + 1..]));
    }
    assert s[|s|..] == "" && out + "" == out;
  }

  lemma Assoc(a: string, b: string, c: string)
    ensures a + (b + c) == a + b + c
  {
  }

  method SplitBlocks(lines: seq<string>) returns (blocks: seq<seq<string>>)
    ensures blocks == Blocks([], lines)
  {
    blocks := [];
    var current: seq<string> := [];
    for i := 0 to |lines|
      invariant blocks + Blocks(current, lines[i..]) == Blocks([], lines)
    {
      if IsBlank(lines[i]) {
        if current != [] {
          blocks := blocks + [current];
          current := [];
        }
      } else {
        current := current + [lines[i]];
      }
    }
    if current != [] {
      blocks := blocks + [current];
    }
  }

  method MatchAutolink(rest: string) returns (consumed: nat, rendered: string)
    requires StartsAutolink(rest)
    ensures consumed == RunLength(rest) && rendered == AutolinkText(rest[..RunLength(rest)])
  {
    consumed := RunLength(rest);
    var run := rest[..consumed];
    var urlEnd := |run|;
    assert run[..|run|] == run;
    while urlEnd > 0 && IsTrailing(run[urlEnd - 1])
      invariant 0 <= urlEnd <= |run| && UrlEnd(run[..urlEnd]) == UrlEnd(run)
    {
      urlEnd := urlEnd - 1;
      assert run[..urlEnd + 1][..urlEnd] == run[..urlEnd];
    }
    assert urlEnd == UrlEnd(run);
    var url, trailing := run[..urlEnd], run[urlEnd..];
    if "http://" <= url || "https://" <= url {
      rendered := Anchor(url, url) + trailing;
    } else {
      rendered := run;
    }
  }

  /** One left-to-right pass; output is never scanned again. */
  method RenderInline(line: string) returns (out: string)
    ensures out == Inline(line)
  {
    out := "";
    var rest := line;
    while rest != ""
      invariant out + Inline(rest) == Inline(line)
      decreases |rest|
    {
      var consumed, rendered := 1, rest[..1];
      if "`" <= rest {
        var m := MatchCode(rest);
        if m.Some? { consumed, rendered := m.value.0, m.value.1; }
      } else if "**" <= rest {
        var m := MatchBold(rest);
        if m.Some? { consumed, rendered := m.value.0, m.value.1; } else { consumed, rendered := 2, "**"; }
      } else if "*" <= rest {
        var m := MatchItalic(rest);
        if m.Some? { consumed, rendered := m.value.0, m.value.1; }
      } else if "[" <= rest {
        var m := MatchLink(rest);
        if m.Some? { consumed, rendered := m.value.0, m.value.1; }
      } else if StartsAutolink(rest) {
        consumed, rendered := MatchAutolink(rest);
      }
      assert (consumed, rendered) == Token(rest);
      Assoc(out, rendered, Inline(rest[consumed..]));
      out := out + rendered;
      rest := rest[consumed..];
    }
  }

  method RenderList(block: seq<string>) returns (out: string)
    ensures out == "<ul>" + Items(block) + "</ul>"
  {
    var items := "";
    for j := 0 to |block|
      invariant items + Items(block[j..]) == Items(block)
    {
      var item := RenderInline(ItemContent(block[j]));
      assert block[j..][1..] == block[j + 1..];
      Assoc(items, "<li>" + item + "</li>", Items(block[j + 1..]));
      items := items + ("<li>" + item + "</li>");
    }
    assert block[|block|..] == [] && items + "" == items;
    out := "<ul>" + items + "</ul>";
  }

  method RenderParagraph(block: seq<string>) returns (out: string)
    ensures out == "<p>" + Paragraph(block) + "</p>"
  {
    var joined := "";
    for j := 0 to |block|
      invariant joined + ParagraphRest(block, j) == Paragraph(block)
    {
      var line := RenderInline(block[j]);
      var piece := (if j > 0 then "<br>" else "") + line;
      ParagraphStep(block, j);
      Assoc(joined, piece, ParagraphRest(block, j + 1));
      joined := joined + piece;
    }
    assert joined + "" == joined;
    out := "<p>" + joined + "</p>";
  }

  method Render(src: string) returns (out: string)
    ensures out == Rendered(src)
  {
    var escaped := EscapeHtml(NormalizeNewlines(src));
    var blocks := SplitBlocks(Lines(escaped));
    out := "";
    for i := 0 to |blocks|
      invariant out + RenderBlocks(blocks[i..]) == RenderBlocks(blocks)
    {
      var html;
      if IsListBlock(blocks[i]) {
        html := RenderList(blocks[i]);
      } else {
        html := RenderParagraph(blocks[i]);
      }
      assert blocks[i..][1..] == blocks[i + 1..];
      Assoc(out, html, RenderBlocks(blocks[i + 1..]));
      out := out + html;
    }
    assert blocks[|blocks|..] == [] && out + "" == out;
  }

  /** What is still to be written of a paragraph after `j` lines. */
  ghost function ParagraphRest(block: seq<string>, j: nat): string
    requires j <= |block|
  {
    if j == |block| then "" else (if j > 0 then "<br>" else "") + Paragraph(block[j..])
  }

  lemma ParagraphStep(block: seq<string>, j: nat)
    requires j < |block|
    ensures ParagraphRest(block, j) == (if j > 0 then "<br>" else "") + Inline(block[j]) + ParagraphRest(block, j + 1)
  {
  }
}
