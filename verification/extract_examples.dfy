/** Worked inputs for `extract_code_blocks`: two named blocks, the keyword
    fallback, and the substring rules that make "json" and "happy" match. */
module ExtractExamples {
  import opened Text
  import opened FileSet
  import opened Extract

  /** A block whose body has no backtick renders and scans back unchanged. */
  lemma WellFormedWithoutBackticks(b: Block)
    requires forall i :: 0 <= i < |b.header| ==> IsNameChar(b.header[i])
    requires forall i :: 0 <= i < |b.body| ==> b.body[i] != '`'
    ensures WellFormed(b)
  {
    forall k | 0 <= k < |b.body|
      ensures !IsFenceAt(b.body + Fence, k)
    {
      assert (b.body + Fence)[k] == b.body[k];
    }
  }

  lemma NoBlocksInEmptyText()
    ensures Blocks([]) == []
  {
  }

  /** Two fenced blocks whose headers are distinct file names (they hold a
      dot), whatever their bodies and whatever plain text lies between them,
      give exactly those two names as keys, in that order, each holding its
      body stripped: `index.html` and `styles.css` are one such pair. */
  lemma TwoNamedBlocks(h1: string, body1: string, gap: string, h2: string, body2: string, brief: string)
    requires forall i :: 0 <= i < |h1| ==> IsNameChar(h1[i])
    requires forall i :: 0 <= i < |h2| ==> IsNameChar(h2[i])
    requires '.' in h1 && '.' in h2 && h1 != h2
    requires forall i :: 0 <= i < |body1| ==> body1[i] != '`'
    requires forall i :: 0 <= i < |gap| ==> gap[i] != '`'
    requires forall i :: 0 <= i < |body2| ==> body2[i] != '`'
    ensures ExtractCodeBlocks(Fence + h1 + "\n" + body1 + Fence + gap + Fence + h2 + "\n" + body2 + Fence, brief) ==
            [Entry(h1, Strip(body1)), Entry(h2, Strip(body2))]
  {
    TwoBlocksScan(h1, body1, gap, h2, body2);
    ExtractTwoNamed(Fence + h1 + "\n" + body1 + Fence + gap + Fence + h2 + "\n" + body2 + Fence, brief,
                    Block(h1, body1), Block(h2, body2));
  }

  /** The scan of two rendered blocks with plain text between them finds
      exactly those two blocks. */
  lemma TwoBlocksScan(h1: string, body1: string, gap: string, h2: string, body2: string)
    requires forall i :: 0 <= i < |h1| ==> IsNameChar(h1[i])
    requires forall i :: 0 <= i < |h2| ==> IsNameChar(h2[i])
    requires forall i :: 0 <= i < |body1| ==> body1[i] != '`'
    requires forall i :: 0 <= i < |gap| ==> gap[i] != '`'
    requires forall i :: 0 <= i < |body2| ==> body2[i] != '`'
    ensures Blocks(Fence + h1 + "\n" + body1 + Fence + gap + Fence + h2 + "\n" + body2 + Fence) ==
            [Block(h1, body1), Block(h2, body2)]
  {
    var b1 := Block(h1, body1);
    var b2 := Block(h2, body2);
    var tail := Fence + h2 + "\n" + body2 + Fence;
    var s := Fence + h1 + "\n" + body1 + Fence + gap + Fence + h2 + "\n" + body2 + Fence;
    var x := Fence + h1 + "\n" + body1 + Fence;
    ConcatAssoc(x + gap, Fence, h2);
    ConcatAssoc(x + gap, Fence + h2, "\n");
    ConcatAssoc(x + gap, Fence + h2 + "\n", body2);
    ConcatAssoc(x + gap, Fence + h2 + "\n" + body2, Fence);
    ConcatAssoc(x, gap, tail);
    assert s == x + (gap + tail);
    WellFormedWithoutBackticks(b1);
    BlocksOfRenderedBlock(b1, gap + tail);
    BlocksSkipPlainText(gap, tail);
    OneBlockScan(h2, body2);
    ScanSplit(x, gap + tail, b1, b2);
  }

  lemma ScanSplit(x: string, rest: string, b1: Block, b2: Block)
    requires Blocks(x + rest) == [b1] + Blocks(rest) && Blocks(rest) == [b2]
    ensures Blocks(x + rest) == [b1, b2]
  {
  }

  /** A single rendered block scans back as itself. */
  lemma OneBlockScan(h: string, body: string)
    requires forall i :: 0 <= i < |h| ==> IsNameChar(h[i])
    requires forall i :: 0 <= i < |body| ==> body[i] != '`'
    ensures Blocks(Fence + h + "\n" + body + Fence) == [Block(h, body)]
  {
    var b := Block(h, body);
    WellFormedWithoutBackticks(b);
    BlocksOfRenderedBlock(b, []);
    assert Fence + h + "\n" + body + Fence + [] == Fence + h + "\n" + body + Fence;
    NoBlocksInEmptyText();
  }

  lemma ExtractTwoNamed(s: string, brief: string, b1: Block, b2: Block)
    requires Blocks(s) == [b1, b2]
    requires '.' in b1.header && '.' in b2.header && b1.header != b2.header
    ensures ExtractCodeBlocks(s, brief) == [Entry(b1.header, Strip(b1.body)), Entry(b2.header, Strip(b2.body))]
  {
    TwoNamedHeaders(Blocks(s), b1, b2);
    NamedBlocksVerbatim(s, brief);
    TwoEntries(ExtractCodeBlocks(s, brief), Entry(b1.header, Strip(b1.body)), Entry(b2.header, Strip(b2.body)));
  }

  lemma TwoNamedHeaders(bs: seq<Block>, b1: Block, b2: Block)
    requires bs == [b1, b2]
    requires '.' in b1.header && '.' in b2.header && b1.header != b2.header
    ensures forall i :: 0 <= i < |bs| ==> '.' in bs[i].header
    ensures forall i, j :: 0 <= i < j < |bs| ==> bs[i].header != bs[j].header
  {
  }

  lemma TwoEntries(r: seq<Entry>, e1: Entry, e2: Entry)
    requires |r| == 2 && r[0] == e1 && r[1] == e2
    ensures r == [e1, e2]
  {
  }

  /** The keyword test is a substring test, so a brief mentioning "json"
      matches the JavaScript keyword "js" and falls back to `script.js`. */
  lemma JsonBriefFallsBackToScript(b: string)
    requires Contains(b, "json")
    ensures DefaultName(b) == "script.js"
  {
    ContainsPrefix(b, "json", 2);
    assert "json"[..2] == "js";
  }

  /** Likewise "happy" contains "py": a brief asking for something happy,
      with no JavaScript or stylesheet keyword, falls back to `app.py`. */
  lemma HappyBriefFallsBackToPython(b: string)
    requires Contains(b, "happy")
    requires !Contains(b, "javascript") && !Contains(b, "js")
    requires !Contains(b, "css") && !Contains(b, "style")
    ensures DefaultName(b) == "app.py"
  {
    ContainsIffOccurs(b, "happy");
    var i :| OccursAt(b, "happy", i);
    assert b[i + 3..i + 5] == "happy"[3..5] == "py";
    assert OccursAt(b, "py", i + 3);
    ContainsIffOccurs(b, "py");
  }
}
