/** How lines become blocks, and what a whole description becomes. */
module MarkdownBlocks {
  import opened Options
  import opened Whitespace
  import opened Markdown
  import opened MarkdownSafety

  // ----- a description as its author lays it out -----

  /** Lines of one paragraph or list, each with something on it. */
  predicate IsBlock(b: seq<string>) {
    b != [] && forall i :: 0 <= i < |b| ==> !IsBlank(b[i])
  }

  /** Lines with nothing on them. */
  predicate IsGap(g: seq<string>) {
    forall i :: 0 <= i < |g| ==> IsBlank(g[i])
  }

  /** Blocks, with a gap before the first, after the last, and between neighbours, there with a line at least. */
  ghost predicate IsLayout(blocks: seq<seq<string>>, gaps: seq<seq<string>>) {
    && |gaps| == |blocks| + 1
    && (forall i :: 0 <= i < |blocks| ==> IsBlock(blocks[i]))
    && (forall i :: 0 <= i < |gaps| ==> IsGap(gaps[i]))
    && (forall i :: 0 < i < |blocks| ==> gaps[i] != [])
  }

  function Layout(blocks: seq<seq<string>>, gaps: seq<seq<string>>): seq<string>
    requires |gaps| == |blocks| + 1
  {
    if blocks == [] then gaps[0] else gaps[0] + blocks[0] + Layout(blocks[1..], gaps[1..])
  }

  // ----- splitting recovers the layout -----

  lemma {:induction false} SkipGap(g: seq<string>, rest: seq<string>)
    requires IsGap(g)
    ensures Blocks([], g + rest) == Blocks([], rest)
  {
    if g == [] {
      assert g + rest == rest;
    } else {
      assert (g + rest)[0] == g[0] && (g + rest)[1..] == g[1..] + rest;
      SkipGap(g[1..], rest);
    }
  }

  lemma {:induction false} CollectBlock(current: seq<string>, b: seq<string>, rest: seq<string>)
    requires forall i :: 0 <= i < |b| ==> !IsBlank(b[i])
    ensures Blocks(current, b + rest) == Blocks(current + b, rest)
    decreases |b|
  {
    if b == [] {
      assert b + rest == rest && current + b == current;
    } else {
      assert (b + rest)[0] == b[0] && (b + rest)[1..] == b[1..] + rest;
      CollectBlock(current + [b[0]], b[1..], rest);
      assert current + [b[0]] + b[1..] == current + b;
    }
  }

  /** A collected block ends at the end of the text or at a blank line. */
  lemma EndBlock(b: seq<string>, rest: seq<string>)
    requires b != [] && (rest != [] ==> IsBlank(rest[0]))
    ensures Blocks(b, rest) == [b] + Blocks([], rest)
  {
  }

  lemma LayoutStart(blocks: seq<seq<string>>, gaps: seq<seq<string>>)
    requires |gaps| == |blocks| + 1 && IsGap(gaps[0]) && (blocks != [] ==> gaps[0] != [])
    ensures var l := Layout(blocks, gaps); l != [] ==> IsBlank(l[0])
  {
  }

  lemma LayoutTail(blocks: seq<seq<string>>, gaps: seq<seq<string>>)
    requires IsLayout(blocks, gaps) && blocks != []
    ensures IsLayout(blocks[1..], gaps[1..])
    ensures blocks[1..] != [] ==> gaps[1] != []
  {
  }

  /**
   Splitting gives the blocks of the layout and nothing else: two neighbouring lines share a block
   exactly when no blank line lies between them, and no line is lost.
   */
  lemma {:induction false} SplitRecovers(blocks: seq<seq<string>>, gaps: seq<seq<string>>)
    requires IsLayout(blocks, gaps)
    ensures Blocks([], Layout(blocks, gaps)) == blocks
  {
    if blocks == [] {
      SkipGap(gaps[0], []);
      assert gaps[0] + [] == gaps[0];
    } else {
      var b, rest := blocks[0], Layout(blocks[1..], gaps[1..]);
      assert gaps[0] + b + rest == gaps[0] + (b + rest);
      SkipGap(gaps[0], b + rest);
      CollectBlock([], b, rest);
      assert [] + b == b;
      LayoutTail(blocks, gaps);
      LayoutStart(blocks[1..], gaps[1..]);
      EndBlock(b, rest);
      SplitRecovers(blocks[1..], gaps[1..]);
    }
  }

  /** Every text has a layout, so the blocks are always those of one. */
  lemma {:induction false} EveryTextIsLaidOut(lines: seq<string>) returns (blocks: seq<seq<string>>, gaps: seq<seq<string>>)
    ensures IsLayout(blocks, gaps) && Layout(blocks, gaps) == lines
    decreases |lines|
  {
    if lines == [] {
      blocks, gaps := [], [[]];
    } else {
      var bs, gs := EveryTextIsLaidOut(lines[1..]);
      assert lines == [lines[0]] + lines[1..];
      if IsBlank(lines[0]) {
        blocks, gaps := WithBlankFirst(lines[0], bs, gs);
      } else {
        blocks, gaps := WithLineFirst(lines[0], bs, gs);
      }
    }
  }

  lemma WithBlankFirst(line: string, bs: seq<seq<string>>, gs: seq<seq<string>>)
    returns (blocks: seq<seq<string>>, gaps: seq<seq<string>>)
    requires IsBlank(line) && IsLayout(bs, gs)
    ensures IsLayout(blocks, gaps) && Layout(blocks, gaps) == [line] + Layout(bs, gs)
  {
    blocks, gaps := bs, [[line] + gs[0]] + gs[1..];
    assert gaps[1..] == gs[1..];
    assert bs != [] ==> [line] + gs[0] + bs[0] + Layout(bs[1..], gs[1..]) == [line] + Layout(bs, gs);
  }

  lemma WithLineFirst(line: string, bs: seq<seq<string>>, gs: seq<seq<string>>)
    returns (blocks: seq<seq<string>>, gaps: seq<seq<string>>)
    requires !IsBlank(line) && IsLayout(bs, gs)
    ensures IsLayout(blocks, gaps) && Layout(blocks, gaps) == [line] + Layout(bs, gs)
  {
    if bs != [] && gs[0] == [] {
      blocks, gaps := [[line] + bs[0]] + bs[1..], gs;
      assert blocks[1..] == bs[1..];
      assert [] + ([line] + bs[0]) + Layout(bs[1..], gs[1..]) == [line] + Layout(bs, gs);
    } else {
      blocks, gaps := [[line]] + bs, [[]] + gs;
      assert blocks[1..] == bs && gaps[1..] == gs;
    }
  }

  // ----- lines and their ends -----

  function Joined(lines: seq<string>, sep: string): string {
    if lines == [] then ""
    else if |lines| == 1 then lines[0]
    else lines[0] + sep + Joined(lines[1..], sep)
  }

  predicate OneLine(s: string) {
    '\n' !in s && '\r' !in s
  }

  /** Splitting at newlines undoes joining by them. */
  lemma {:induction false} LinesOfJoined(lines: seq<string>)
    requires lines != [] && forall i :: 0 <= i < |lines| ==> '\n' !in lines[i]
    ensures Lines(Joined(lines, "\n")) == lines
  {
    if |lines| > 1 {
      var rest := Joined(lines[1..], "\n");
      LinesOfJoined(lines[1..]);
      CutAround(lines[0], '\n', rest);
      assert lines[0] + ['\n'] + rest == lines[0] + "\n" + rest;
      assert lines == [lines[0]] + lines[1..];
    }
  }

  lemma {:induction false} NormalizeKeeps(s: string, r: string)
    requires '\r' !in s
    ensures NormalizeNewlines(s + r) == s + NormalizeNewlines(r)
  {
    if s == "" {
      assert s + r == r;
    } else {
      assert (s + r)[0] == s[0] && (s + r)[1..] == s[1..] + r;
      NormalizeKeeps(s[1..], r);
    }
  }

  /** A line may end in LF, CR LF or CR. */
  predicate IsLineEnd(sep: string) {
    sep == "\n" || sep == "\r\n" || sep == "\r"
  }

  lemma EndNormalizes(sep: string, r: string)
    requires IsLineEnd(sep) && (sep == "\r" ==> r == "" || r[0] != '\n')
    ensures NormalizeNewlines(sep + r) == "\n" + NormalizeNewlines(r)
  {
    if sep == "\r\n" {
      assert (sep + r)[2..] == r;
    } else {
      assert (sep + r)[1..] == r;
    }
  }

  lemma {:induction false} JoinedStart(lines: seq<string>)
    requires forall i :: 0 <= i < |lines| ==> OneLine(lines[i])
    ensures var s := Joined(lines, "\r"); s == "" || s[0] != '\n'
  {
    if |lines| > 1 && lines[0] != "" {
      assert Joined(lines, "\r")[0] == lines[0][0] && lines[0][0] in lines[0];
    } else if |lines| == 1 && lines[0] != "" {
      assert lines[0][0] in lines[0];
    }
  }

  /** Whichever end its lines have, a text is normalized to newlines. */
  lemma {:induction false} NormalizeJoined(lines: seq<string>, sep: string)
    requires IsLineEnd(sep) && forall i :: 0 <= i < |lines| ==> OneLine(lines[i])
    ensures NormalizeNewlines(Joined(lines, sep)) == Joined(lines, "\n")
  {
    if |lines| == 1 {
      NormalizeKeeps(lines[0], "");
      assert lines[0] + "" == lines[0];
    } else if |lines| > 1 {
      var rest := Joined(lines[1..], sep);
      NormalizeJoined(lines[1..], sep);
      JoinedStart(lines[1..]);
      NormalizeKeeps(lines[0], sep + rest);
      EndNormalizes(sep, rest);
      Assoc(lines[0], sep, rest);
      Assoc(lines[0], "\n", Joined(lines[1..], "\n"));
    }
  }

  // ----- escaping, line by line -----

  function Escaped(lines: seq<string>): (r: seq<string>)
    ensures |r| == |lines| && forall i :: 0 <= i < |lines| ==> r[i] == Escape(lines[i])
  {
    seq(|lines|, i requires 0 <= i < |lines| => Escape(lines[i]))
  }

  lemma {:induction false} EscapeConcat(a: string, b: string)
    ensures Escape(a + b) == Escape(a) + Escape(b)
  {
    if a == "" {
      assert a + b == b;
    } else {
      assert (a + b)[0] == a[0] && (a + b)[1..] == a[1..] + b;
      EscapeConcat(a[1..], b);
      assert Escape(a) + Escape(b) == EscapeChar(a[0]) + (Escape(a[1..]) + Escape(b));
    }
  }

  /** Five characters become entities, the apostrophe among them, and all others stay. */
  lemma EscapeIs(a: string, c: char, b: string)
    ensures Escape("") == ""
    ensures Escape(a + [c] + b) == Escape(a)
              + (if c == '&' then "&amp;" else if c == '<' then "&lt;" else if c == '>' then "&gt;"
                 else if c == '\"' then "&quot;" else if c == '\'' then "&#39;" else [c])
              + Escape(b)
  {
    EscapeConcat(a + [c], b);
    EscapeConcat(a, [c]);
    assert [c][1..] == "" && EscapeChar(c) + "" == EscapeChar(c);
  }

  lemma {:induction false} EscapeJoined(lines: seq<string>)
    ensures Escape(Joined(lines, "\n")) == Joined(Escaped(lines), "\n")
  {
    if |lines| > 1 {
      var rest := Joined(lines[1..], "\n");
      EscapeJoined(lines[1..]);
      assert Escaped(lines)[1..] == Escaped(lines[1..]);
      EscapeConcat(lines[0] + "\n", rest);
      EscapeConcat(lines[0], "\n");
      assert "\n"[1..] == "" && Escape("\n") == "\n";
    }
  }

  lemma {:induction false} EscapeOneLine(s: string)
    requires '\n' !in s
    ensures '\n' !in Escape(s)
  {
    if s != "" {
      EscapeOneLine(s[1..]);
      assert s[0] in s;
    }
  }

  lemma {:induction false} EscapeBlank(s: string)
    ensures IsBlank(Escape(s)) <==> IsBlank(s)
  {
    if s != "" {
      EscapeBlank(s[1..]);
      EscapeCharBlank(s[0]);
      BlankConcat(EscapeChar(s[0]), Escape(s[1..]));
      assert s == [s[0]] + s[1..];
      BlankConcat([s[0]], s[1..]);
    }
  }

  lemma EscapeCharBlank(c: char)
    ensures IsBlank(EscapeChar(c)) <==> IsBlank([c])
  {
    assert [c][0] == c;
    if EscapeChar(c) != [c] {
      assert !IsWhitespace(EscapeChar(c)[0]) && EscapeChar(c)[0] == '&';
    }
  }

  lemma BlankConcat(a: string, b: string)
    ensures IsBlank(a + b) <==> IsBlank(a) && IsBlank(b)
  {
    if IsBlank(a + b) {
      forall i | 0 <= i < |a| ensures IsWhitespace(a[i]) {
        assert (a + b)[i] == a[i];
      }
      forall i | 0 <= i < |b| ensures IsWhitespace(b[i]) {
        assert (a + b)[|a| + i] == b[i];
      }
    }
  }

  function EscapedBlocks(blocks: seq<seq<string>>): (r: seq<seq<string>>)
    ensures |r| == |blocks| && forall i :: 0 <= i < |blocks| ==> r[i] == Escaped(blocks[i])
  {
    seq(|blocks|, i requires 0 <= i < |blocks| => Escaped(blocks[i]))
  }

  lemma EscapedLayout(blocks: seq<seq<string>>, gaps: seq<seq<string>>)
    requires IsLayout(blocks, gaps)
    ensures IsLayout(EscapedBlocks(blocks), EscapedBlocks(gaps))
  {
    forall b: seq<string>, i | 0 <= i < |b| ensures IsBlank(Escaped(b)[i]) <==> IsBlank(b[i]) {
      EscapeBlank(b[i]);
    }
  }

  lemma EscapedConcat(a: seq<string>, b: seq<string>)
    ensures Escaped(a + b) == Escaped(a) + Escaped(b)
  {
  }

  lemma {:induction false} LayoutOfEscaped(blocks: seq<seq<string>>, gaps: seq<seq<string>>)
    requires |gaps| == |blocks| + 1
    ensures Escaped(Layout(blocks, gaps)) == Layout(EscapedBlocks(blocks), EscapedBlocks(gaps))
  {
    if blocks != [] {
      var rest := Layout(blocks[1..], gaps[1..]);
      EscapedConcat(gaps[0] + blocks[0], rest);
      EscapedConcat(gaps[0], blocks[0]);
      LayoutOfEscaped(blocks[1..], gaps[1..]);
      assert EscapedBlocks(blocks)[1..] == EscapedBlocks(blocks[1..]);
      assert EscapedBlocks(gaps)[1..] == EscapedBlocks(gaps[1..]);
    }
  }

  // ----- list items -----

  /** After leading whitespace the line goes on with the marker, at `i`. */
  predicate MarkerAt(line: string, i: nat) {
    i + 2 <= |line| && IsBlank(line[..i]) && line[i] == '-' && line[i + 1] == ' '
  }

  ghost predicate HasMarker(line: string) {
    exists i: nat :: MarkerAt(line, i)
  }

  lemma {:induction false} TrimStartIs(s: string, i: nat)
    requires i <= |s| && IsBlank(s[..i]) && (i < |s| ==> !IsWhitespace(s[i]))
    ensures TrimStart(s) == s[i..]
  {
    if i > 0 {
      assert s[..i][0] == s[0];
      assert s[1..][..i - 1] == s[..i][1..] && s[1..][i - 1..] == s[i..];
      TrimStartIs(s[1..], i - 1);
    }
  }

  lemma {:induction false} TrimStartAt(s: string) returns (i: nat)
    ensures i <= |s| && IsBlank(s[..i]) && (i < |s| ==> !IsWhitespace(s[i])) && TrimStart(s) == s[i..]
  {
    i := 0;
    if s != "" && IsWhitespace(s[0]) {
      var j := TrimStartAt(s[1..]);
      i := j + 1;
      assert s[..i] == [s[0]] + s[1..][..j];
    }
  }

  /** A line is an item when it has a marker, and its content is what follows the marker. */
  lemma ItemIff(line: string)
    ensures IsListItem(line) <==> HasMarker(line)
    ensures forall i: nat :: MarkerAt(line, i) ==> ItemContent(line) == line[i + 2..]
  {
    forall i: nat | MarkerAt(line, i) ensures IsListItem(line) && ItemContent(line) == line[i + 2..] {
      TrimStartIs(line, i);
      assert line[i..][..2] == "- ";
    }
    if IsListItem(line) {
      var i := TrimStartAt(line);
      assert line[i..][0] == '-' && line[i..][1] == ' ';
      assert MarkerAt(line, i);
    }
  }

  lemma {:induction false} EscapeTrimmed(s: string)
    ensures TrimStart(Escape(s)) == Escape(TrimStart(s))
  {
    if s != "" {
      var e, rest := EscapeChar(s[0]), Escape(s[1..]);
      assert (e + rest)[0] == e[0];
      if IsWhitespace(s[0]) {
        assert e == [s[0]] && (e + rest)[1..] == rest;
        EscapeTrimmed(s[1..]);
      } else {
        assert !IsWhitespace(e[0]);
      }
    }
  }

  lemma EscapeFirst(t: string)
    requires t != ""
    ensures Escape(t) != "" && Escape(t)[0] == EscapeChar(t[0])[0]
    ensures EscapeChar(t[0]) == [t[0]] ==> Escape(t)[1..] == Escape(t[1..])
  {
  }

  lemma EscapeMarker(t: string)
    ensures "- " <= Escape(t) <==> "- " <= t
    ensures "- " <= t ==> Escape(t)[2..] == Escape(t[2..])
  {
    if t != "" {
      EscapeFirst(t);
      if t[0] == '-' && |t| > 1 {
        EscapeFirst(t[1..]);
      }
    }
  }

  /** Escaping makes no line an item, and none not one. */
  lemma EscapeItem(line: string)
    ensures IsListItem(Escape(line)) <==> IsListItem(line)
    ensures IsListItem(line) ==> ItemContent(Escape(line)) == Escape(ItemContent(line))
  {
    EscapeTrimmed(line);
    EscapeMarker(TrimStart(line));
  }
}
