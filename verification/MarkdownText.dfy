/** What a whole description becomes, from its layout to the page and back to its text. */
module MarkdownText {
  import opened Options
  import opened Whitespace
  import opened Markdown
  import opened MarkdownSafety
  import opened MarkdownBlocks

  // ----- the page of a layout -----

  ghost predicate AllItems(b: seq<string>) {
    forall j :: 0 <= j < |b| ==> HasMarker(b[j])
  }

  /** What follows the marker of an item. */
  ghost function Content(line: string): string {
    if i: nat :| MarkerAt(line, i) then line[i + 2..] else line
  }

  ghost function ItemsHtml(b: seq<string>): string {
    if b == [] then "" else "<li>" + Inline(Escape(Content(b[0]))) + "</li>" + ItemsHtml(b[1..])
  }

  function LinesHtml(b: seq<string>): seq<string> {
    seq(|b|, i requires 0 <= i < |b| => Inline(Escape(b[i])))
  }

  /** A list when every line is an item, else a paragraph with its line breaks. */
  ghost function BlockHtml(b: seq<string>): string {
    if AllItems(b) then "<ul>" + ItemsHtml(b) + "</ul>" else "<p>" + Joined(LinesHtml(b), "<br>") + "</p>"
  }

  ghost function Html(blocks: seq<seq<string>>): string {
    if blocks == [] then "" else BlockHtml(blocks[0]) + Html(blocks[1..])
  }

  lemma AllItemsIff(b: seq<string>)
    ensures IsListBlock(Escaped(b)) <==> AllItems(b)
  {
    forall j | 0 <= j < |b| ensures IsListItem(Escaped(b)[j]) <==> HasMarker(b[j]) {
      EscapeItem(b[j]);
      ItemIff(b[j]);
    }
    if AllItems(b) {
      assert forall j :: 0 <= j < |b| ==> HasMarker(b[j]);
    }
    if IsListBlock(Escaped(b)) {
      forall j | 0 <= j < |b| ensures HasMarker(b[j]) {
        assert IsListItem(Escaped(b)[j]);
      }
    }
  }

  lemma ContentIs(line: string)
    requires HasMarker(line)
    ensures ItemContent(Escape(line)) == Escape(Content(line))
  {
    EscapeItem(line);
    ItemIff(line);
  }

  lemma {:induction false} ItemsAre(b: seq<string>)
    requires AllItems(b)
    ensures Items(Escaped(b)) == ItemsHtml(b)
  {
    if b != [] {
      ContentIs(b[0]);
      assert Escaped(b)[1..] == Escaped(b[1..]);
      ItemsAre(b[1..]);
    }
  }

  lemma {:induction false} ParagraphIs(b: seq<string>)
    ensures Paragraph(Escaped(b)) == Joined(LinesHtml(b), "<br>")
  {
    if |b| > 1 {
      assert Escaped(b)[1..] == Escaped(b[1..]) && LinesHtml(b)[1..] == LinesHtml(b[1..]);
      ParagraphIs(b[1..]);
      Assoc(Inline(Escape(b[0])), "<br>", Joined(LinesHtml(b[1..]), "<br>"));
    } else if |b| == 1 {
      assert Inline(Escape(b[0])) + "" == Inline(Escape(b[0]));
    }
  }

  lemma BlockIs(b: seq<string>)
    ensures RenderBlock(Escaped(b)) == BlockHtml(b)
  {
    AllItemsIff(b);
    if AllItems(b) {
      ItemsAre(b);
    } else {
      ParagraphIs(b);
    }
  }

  lemma {:induction false} BlocksAre(blocks: seq<seq<string>>)
    ensures RenderBlocks(EscapedBlocks(blocks)) == Html(blocks)
  {
    if blocks != [] {
      BlockIs(blocks[0]);
      assert EscapedBlocks(blocks)[1..] == EscapedBlocks(blocks[1..]);
      BlocksAre(blocks[1..]);
    }
  }

  ghost predicate Typed(blocks: seq<seq<string>>, gaps: seq<seq<string>>, sep: string) {
    && IsLayout(blocks, gaps) && IsLineEnd(sep)
    && forall i :: 0 <= i < |Layout(blocks, gaps)| ==> OneLine(Layout(blocks, gaps)[i])
  }

  lemma EscapedText(lines: seq<string>, sep: string)
    requires lines != [] && IsLineEnd(sep) && forall i :: 0 <= i < |lines| ==> OneLine(lines[i])
    ensures Lines(Escape(NormalizeNewlines(Joined(lines, sep)))) == Escaped(lines)
  {
    NormalizeJoined(lines, sep);
    EscapeJoined(lines);
    forall i | 0 <= i < |lines| ensures '\n' !in Escaped(lines)[i] {
      EscapeOneLine(lines[i]);
    }
    LinesOfJoined(Escaped(lines));
  }

  /**
   A description becomes its blocks in order, each a list or a paragraph of its own lines; blank lines,
   whatever their number and wherever they stand, leave no trace, nor does the kind of line end.
   */
  lemma RenderedIs(blocks: seq<seq<string>>, gaps: seq<seq<string>>, sep: string)
    requires Typed(blocks, gaps, sep)
    ensures Rendered(Joined(Layout(blocks, gaps), sep)) == Html(blocks)
  {
    var lines := Layout(blocks, gaps);
    if lines == [] {
      NoLines(blocks, gaps);
      EmptyText();
    } else {
      EscapedText(lines, sep);
      LayoutOfEscaped(blocks, gaps);
      EscapedLayout(blocks, gaps);
      SplitRecovers(EscapedBlocks(blocks), EscapedBlocks(gaps));
      BlocksAre(blocks);
    }
  }

  lemma NoLines(blocks: seq<seq<string>>, gaps: seq<seq<string>>)
    requires IsLayout(blocks, gaps)
    ensures Layout(blocks, gaps) == [] ==> blocks == []
  {
    if blocks != [] {
      assert |Layout(blocks, gaps)| >= |blocks[0]|;
    }
  }

  lemma EmptyText()
    ensures Rendered("") == ""
  {
    assert Lines("") == [""];
    assert Blocks([], [""]) == [];
  }

  // ----- line ends anywhere -----

  lemma Heads(a: string, b: string)
    requires a != ""
    ensures var s := a + b;
            && s[0] == a[0] && s[1..] == a[1..] + b
            && (|a| > 1 ==> s[1] == a[1] && s[2..] == a[2..] + b)
  {
  }

  lemma {:induction false} NormalizeConcat(a: string, b: string)
    requires a == "" || a[|a| - 1] != '\r'
    ensures NormalizeNewlines(a + b) == NormalizeNewlines(a) + NormalizeNewlines(b)
    decreases |a|
  {
    if a == "" {
      assert a + b == b;
    } else {
      Heads(a, b);
      if a[0] == '\r' && a[1] == '\n' {
        NormalizeConcat(a[2..], b);
        Assoc("\n", NormalizeNewlines(a[2..]), NormalizeNewlines(b));
      } else {
        NormalizeConcat(a[1..], b);
        Assoc(if a[0] == '\r' then "\n" else [a[0]], NormalizeNewlines(a[1..]), NormalizeNewlines(b));
      }
    }
  }

  /** A line end may be replaced by a newline without a change to the page. */
  lemma LineEndsAlike(a: string, sep: string, b: string)
    requires IsLineEnd(sep) && (a == "" || a[|a| - 1] != '\r') && (sep == "\r" ==> b == "" || b[0] != '\n')
    ensures Rendered(a + sep + b) == Rendered(a + "\n" + b)
  {
    NormalizeConcat(a, sep + b);
    NormalizeConcat(a, "\n" + b);
    EndNormalizes(sep, b);
    EndNormalizes("\n", b);
    Assoc(a, sep, b);
    Assoc(a, "\n", b);
  }

  // ----- back to the text -----

  lemma {:induction false} InlineStrips(line: string, r: string)
    requires Safe(line) && Plain(line)
    ensures StripTags(Inline(line) + r) == line + StripTags(r)
    decreases |line|
  {
    if line == "" {
      assert Inline(line) + r == r && line + StripTags(r) == StripTags(r);
    } else {
      var n := Token(line).0;
      var rest := line[n..];
      Assoc(Token(line).1, Inline(rest), r);
      StripToken(line, Inline(rest) + r);
      InlineStrips(rest, r);
      Assoc(line[..n], rest, StripTags(r));
      Halves(line, n);
    }
  }

  /** Escaped plain text, rendered, strips to itself. */
  lemma EscapedStrips(line: string, r: string)
    requires Plain(line)
    ensures StripTags(Inline(Escape(line)) + r) == Escape(line) + StripTags(r)
  {
    EscapeSafe(line);
    EscapePlain(line);
    InlineStrips(Escape(line), r);
  }

  lemma TagsStrip(r: string)
    ensures StripTags("<p>" + r) == StripTags(r) && StripTags("</p>" + r) == StripTags(r)
    ensures StripTags("<ul>" + r) == StripTags(r) && StripTags("</ul>" + r) == StripTags(r)
    ensures StripTags("<li>" + r) == StripTags(r) && StripTags("</li>" + r) == StripTags(r)
    ensures StripTags("<br>" + r) == StripTags(r)
  {
    OneTagStrips("<p", r);
    OneTagStrips("</p", r);
    OneTagStrips("<ul", r);
    OneTagStrips("</ul", r);
    OneTagStrips("<li", r);
    OneTagStrips("</li", r);
    OneTagStrips("<br", r);
    assert "<p" + ">" == "<p>" && "</p" + ">" == "</p>" && "<ul" + ">" == "<ul>" && "</ul" + ">" == "</ul>";
    assert "<li" + ">" == "<li>" && "</li" + ">" == "</li>" && "<br" + ">" == "<br>";
  }

  lemma OneTagStrips(a: string, r: string)
    requires a != "" && a[0] == '<' && '>' !in a
    ensures StripTags(a + ">" + r) == StripTags(r)
  {
    StripTag(a, r);
  }

  /** The text of a block: of a list what follows the markers, of a paragraph all. */
  ghost function Words(b: seq<string>): string {
    if b == [] then "" else Content(b[0]) + Words(b[1..])
  }

  function Together(b: seq<string>): string {
    if b == [] then "" else b[0] + Together(b[1..])
  }

  ghost function BlockText(b: seq<string>): string {
    if AllItems(b) then Words(b) else Together(b)
  }

  ghost function AllText(blocks: seq<seq<string>>): string {
    if blocks == [] then "" else BlockText(blocks[0]) + AllText(blocks[1..])
  }

  predicate PlainLines(b: seq<string>) {
    forall i :: 0 <= i < |b| ==> Plain(b[i])
  }

  lemma ContentPlain(line: string)
    requires Plain(line)
    ensures Plain(Content(line))
  {
  }

  lemma {:induction false} ItemsStrip(b: seq<string>, r: string)
    requires PlainLines(b)
    ensures StripTags(ItemsHtml(b) + r) == Escape(Words(b)) + StripTags(r)
  {
    if b == [] {
      assert ItemsHtml(b) + r == r && Escape("") + StripTags(r) == StripTags(r);
    } else {
      var c, rest := Content(b[0]), ItemsHtml(b[1..]) + r;
      var line := Inline(Escape(c));
      ContentPlain(b[0]);
      ItemHtmlSplits(line, ItemsHtml(b[1..]), r);
      TagsStrip(line + ("</li>" + rest));
      EscapedStrips(c, "</li>" + rest);
      TagsStrip(rest);
      ItemsStrip(b[1..], r);
      EscapeConcat(c, Words(b[1..]));
      Assoc(Escape(c), Escape(Words(b[1..])), StripTags(r));
    }
  }

  lemma ItemHtmlSplits(line: string, more: string, r: string)
    ensures "<li>" + line + "</li>" + more + r == "<li>" + (line + ("</li>" + (more + r)))
  {
  }

  lemma {:induction false} LinesStrip(b: seq<string>, r: string)
    requires PlainLines(b)
    ensures StripTags(Joined(LinesHtml(b), "<br>") + r) == Escape(Together(b)) + StripTags(r)
  {
    if b == [] {
      assert Joined(LinesHtml(b), "<br>") + r == r && Escape("") + StripTags(r) == StripTags(r);
    } else if |b| == 1 {
      EscapedStrips(b[0], r);
      assert Together(b) == b[0] + "" == b[0];
    } else {
      var line, rest := Inline(Escape(b[0])), Joined(LinesHtml(b[1..]), "<br>") + r;
      assert LinesHtml(b)[1..] == LinesHtml(b[1..]);
      BreakSplits(line, Joined(LinesHtml(b[1..]), "<br>"), r);
      EscapedStrips(b[0], "<br>" + rest);
      TagsStrip(rest);
      LinesStrip(b[1..], r);
      EscapeConcat(b[0], Together(b[1..]));
      Assoc(Escape(b[0]), Escape(Together(b[1..])), StripTags(r));
    }
  }

  lemma BreakSplits(line: string, more: string, r: string)
    ensures line + "<br>" + more + r == line + ("<br>" + (more + r))
  {
  }

  lemma BlockStrips(b: seq<string>, r: string)
    requires PlainLines(b)
    ensures StripTags(BlockHtml(b) + r) == Escape(BlockText(b)) + StripTags(r)
  {
    if AllItems(b) {
      Regroup("<ul>", ItemsHtml(b), "</ul>", r);
      TagsStrip(ItemsHtml(b) + ("</ul>" + r));
      ItemsStrip(b, "</ul>" + r);
    } else {
      Regroup("<p>", Joined(LinesHtml(b), "<br>"), "</p>", r);
      TagsStrip(Joined(LinesHtml(b), "<br>") + ("</p>" + r));
      LinesStrip(b, "</p>" + r);
    }
    TagsStrip(r);
  }

  lemma {:induction false} HtmlStrips(blocks: seq<seq<string>>)
    requires forall i :: 0 <= i < |blocks| ==> PlainLines(blocks[i])
    ensures StripTags(Html(blocks)) == Escape(AllText(blocks))
  {
    if blocks != [] {
      BlockStrips(blocks[0], Html(blocks[1..]));
      HtmlStrips(blocks[1..]);
      EscapeConcat(BlockText(blocks[0]), AllText(blocks[1..]));
    }
  }

  /**
   No text of a plain description is lost, and none added: deleting the tags of its page and decoding
   the entities gives all its lines in order, list items without their markers.
   */
  lemma PlainTextSurvives(blocks: seq<seq<string>>, gaps: seq<seq<string>>, sep: string)
    requires Typed(blocks, gaps, sep)
    requires forall i :: 0 <= i < |blocks| ==> PlainLines(blocks[i])
    ensures Decode(StripTags(Rendered(Joined(Layout(blocks, gaps), sep)))) == AllText(blocks)
  {
    RenderedIs(blocks, gaps, sep);
    HtmlStrips(blocks);
    DecodeEscape(AllText(blocks));
  }
}
