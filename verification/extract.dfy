/** `extract_code_blocks`: turns the generator's raw text into the ordered
    file set that is published.

    The regular expression ```` ```(?:([\w\.\-\/]+)?\n)?(.*?)``` ```` (with
    DOTALL) is modelled as an explicit scanner. From the current position it
    finds the next fence, reads an optional header (a non-empty run of name
    characters that must be followed directly by a newline, or a bare
    newline giving an empty name), takes the body up to the first fence at or
    after the body start, and continues after that closing fence. When no
    closing fence exists the scan stops: every later match would need one. */
module Extract {
  import opened Base
  import opened Text
  import opened FileSet

  const Fence: string := "```"

  predicate IsFenceAt(s: string, k: int)
  {
    0 <= k && k + 3 <= |s| && s[k] == '`' && s[k + 1] == '`' && s[k + 2] == '`'
  }

  /** The position of the first fence in `s`, if any. */
  function FindFence(s: string): (r: Option<nat>)
    ensures r.Some? ==> IsFenceAt(s, r.value)
    ensures r.Some? ==> forall k :: 0 <= k < r.value ==> !IsFenceAt(s, k)
    ensures r.None? ==> forall k :: !IsFenceAt(s, k)
    decreases |s|
  {
    if |s| < 3 then None
    else if IsFenceAt(s, 0) then Some(0)
    else
      match FindFence(s[1..])
      case None =>
        assert forall k :: IsFenceAt(s, k) ==> k == 0 || IsFenceAt(s[1..], k - 1);
        None
      case Some(j) =>
        assert forall k :: 0 < k <= j && IsFenceAt(s, k) ==> IsFenceAt(s[1..], k - 1);
        Some(j + 1)
  }

  /** A fence with no fence before it is the one the scan finds. */
  lemma FindFenceFirst(s: string, j: nat)
    requires IsFenceAt(s, j)
    requires forall k :: 0 <= k < j ==> !IsFenceAt(s, k)
    ensures FindFence(s) == Some(j)
  {
  }

  /** The length of the longest prefix of name characters. */
  function NameRun(t: string): (n: nat)
    ensures n <= |t|
    ensures forall i :: 0 <= i < n ==> IsNameChar(t[i])
    ensures n == |t| || !IsNameChar(t[n])
  {
    if t != [] && IsNameChar(t[0]) then 1 + NameRun(t[1..]) else 0
  }

  /** The optional header after an opening fence: its name (empty when there
      is none) and where the body starts. */
  datatype Header = Header(name: string, bodyStart: nat)

  /** The header part `(?:([\w\.\-\/]+)?\n)?` of the pattern, on the text `t`
      that follows an opening fence. A name is a non-empty run of name
      characters followed DIRECTLY by a newline; otherwise a leading newline
      alone is consumed; otherwise nothing is. */
  function ReadHeader(t: string): (h: Header)
    ensures h.bodyStart <= |t|
    ensures forall i :: 0 <= i < h.bodyStart ==> IsNameChar(t[i]) || t[i] == '\n'
    ensures forall i :: 0 <= i < |h.name| ==> IsNameChar(h.name[i])
  {
    var n := NameRun(t);
    if 0 < n < |t| && t[n] == '\n' then Header(t[..n], n + 1)
    else if t != [] && t[0] == '\n' then Header("", 1)
    else Header("", 0)
  }

  /** What the header group takes: a run of name characters ending right
      before a newline is the name, and the body starts after the newline;
      a text that does not start with a name character gives no name and
      skips one leading newline if there is one. */
  lemma ReadHeaderSpec(t: string)
    ensures forall n :: 0 < n < |t| && t[n] == '\n' && (forall i :: 0 <= i < n ==> IsNameChar(t[i])) ==>
              ReadHeader(t) == Header(t[..n], n + 1)
    ensures (t == [] || !IsNameChar(t[0])) ==>
              ReadHeader(t) == (if t != [] && t[0] == '\n' then Header("", 1) else Header("", 0))
  {
  }

  /** A run of name characters followed by anything but a newline is not a
      header: nothing is taken. */
  lemma ReadHeaderNoName(t: string, n: nat)
    requires 0 < n <= |t| && (n == |t| || (t[n] != '\n' && !IsNameChar(t[n])))
    requires forall i :: 0 <= i < n ==> IsNameChar(t[i])
    ensures ReadHeader(t) == Header("", 0)
  {
    assert NameRun(t) == n;
    assert IsNameChar(t[0]) && t[0] != '\n';
  }

  /** One match of the pattern: the header name (empty when absent) and the
      raw body. */
  datatype Block = Block(header: string, body: string)

  /** `re.findall` of the pattern over `s`, in order. Every match spends
      two fences of three characters each, so there are at most `|s| / 6`
      matches. */
  function Blocks(s: string): (bs: seq<Block>)
    ensures 6 * |bs| <= |s|
    decreases |s|, 1
  {
    match FindFence(s)
    case None => []
    case Some(o) => AfterOpen(s[o + 3..])
  }

  /** The rest of the scan once an opening fence has been consumed: the
      header, then the body up to the next fence, then the blocks after
      that closing fence. Without a closing fence there is no match. */
  function AfterOpen(t: string): (bs: seq<Block>)
    ensures 6 * |bs| <= |t| + 3
    decreases |t|, 0
  {
    var h := ReadHeader(t);
    var u := t[h.bodyStart..];
    match FindFence(u)
    case None => []
    case Some(c) =>
      [Block(h.name, u[..c])] + Blocks(u[c + 3..])
  }

  /** Every block found has a header of name characters and a body holding
      no fence: the body ends at the first fence after it starts. */
  ghost predicate Scanned(b: Block)
  {
    && (forall i :: 0 <= i < |b.header| ==> IsNameChar(b.header[i]))
    && (forall k :: !IsFenceAt(b.body, k))
  }

  lemma {:induction false} BlocksScanned(s: string)
    ensures forall j :: 0 <= j < |Blocks(s)| ==> Scanned(Blocks(s)[j])
    decreases |s|, 1
  {
    match FindFence(s)
    case None =>
    case Some(o) => AfterOpenScanned(s[o + 3..]);
  }

  lemma {:induction false} AfterOpenScanned(t: string)
    ensures forall j :: 0 <= j < |AfterOpen(t)| ==> Scanned(AfterOpen(t)[j])
    decreases |t|, 0
  {
    var h := ReadHeader(t);
    var u := t[h.bodyStart..];
    match FindFence(u)
    case None =>
    case Some(c) =>
      var rest := u[c + 3..];
      BlocksScanned(rest);
      assert forall k :: IsFenceAt(u[..c], k) ==> IsFenceAt(u, k);
      assert AfterOpen(t) == [Block(h.name, u[..c])] + Blocks(rest);
  }

  /** The scan finds nothing exactly when the text does not hold two
      non-overlapping fences. */
  lemma BlocksEmptyIff(s: string)
    ensures Blocks(s) == [] <==> !exists i, j :: IsFenceAt(s, i) && i + 3 <= j && IsFenceAt(s, j)
  {
    if Blocks(s) == [] {
      NoTwoFences(s);
    } else {
      var i, j := TwoFences(s);
    }
  }

  lemma NoTwoFences(s: string)
    requires Blocks(s) == []
    ensures forall i, j :: IsFenceAt(s, i) && i + 3 <= j ==> !IsFenceAt(s, j)
  {
    if FindFence(s).Some? {
      var o := FindFence(s).value;
      var t := s[o + 3..];
      var h := ReadHeader(t);
      var u := t[h.bodyStart..];
      var base := o + 3 + h.bodyStart;
      assert FindFence(u).None?;
      forall i, j | IsFenceAt(s, i) && i + 3 <= j
        ensures !IsFenceAt(s, j)
      {
        assert o <= i;
        if j < base {
          assert s[j] == t[j - o - 3];
        } else if j + 3 <= |s| {
          assert !IsFenceAt(u, j - base);
          assert u[j - base] == s[j] && u[j - base + 1] == s[j + 1] && u[j - base + 2] == s[j + 2];
        }
      }
    }
  }

  lemma TwoFences(s: string) returns (i: nat, j: nat)
    requires Blocks(s) != []
    ensures IsFenceAt(s, i) && i + 3 <= j && IsFenceAt(s, j)
  {
    i := FindFence(s).value;
    var t := s[i + 3..];
    var h := ReadHeader(t);
    var u := t[h.bodyStart..];
    var c := FindFence(u).value;
    j := i + 3 + h.bodyStart + c;
    assert u[c] == s[j] && u[c + 1] == s[j + 1] && u[c + 2] == s[j + 2];
  }

  /** The text the pattern reads as the given blocks, each written as
      opening fence, header, newline, body, closing fence. */
  function Render(bs: seq<Block>): string
  {
    if bs == [] then [] else Fence + bs[0].header + "\n" + bs[0].body + Fence + Render(bs[1..])
  }

  /** A block that survives rendering: its header is made of name characters
      and no fence starts inside its body, not even one that would run into
      the closing fence. */
  predicate WellFormed(b: Block)
  {
    && (forall i :: 0 <= i < |b.header| ==> IsNameChar(b.header[i]))
    && (forall k :: 0 <= k < |b.body| ==> !IsFenceAt(b.body + Fence, k))
  }

  /** After a rendered opening fence, the header reads back as written. */
  lemma ReadRenderedHeader(header: string, u: string)
    requires forall i :: 0 <= i < |header| ==> IsNameChar(header[i])
    ensures ReadHeader(header + "\n" + u) == Header(header, |header| + 1)
  {
    var t := header + "\n" + u;
    var n := |header|;
    ReadHeaderSpec(t);
    assert t[n] == '\n';
    assert t[..n] == header;
    if n == 0 {
      assert t[0] == '\n';
    } else {
      assert forall i :: 0 <= i < n ==> IsNameChar(t[i]);
    }
  }

  /** The first fence after a well-formed body is its closing fence. */
  lemma FindRenderedClose(b: Block, rest: string)
    requires WellFormed(b)
    ensures FindFence(b.body + Fence + rest) == Some(|b.body|)
  {
    var u := b.body + Fence + rest;
    var m := |b.body|;
    assert IsFenceAt(u, m);
    forall k | 0 <= k < m
      ensures !IsFenceAt(u, k)
    {
      assert !IsFenceAt(b.body + Fence, k);
      assert (b.body + Fence)[k] == u[k];
      assert (b.body + Fence)[k + 1] == u[k + 1];
      assert (b.body + Fence)[k + 2] == u[k + 2];
    }
    FindFenceFirst(u, m);
  }

  /** One rendered block followed by more text scans as that block followed
      by the blocks of the text. */
  lemma BlocksOfRenderedBlock(b: Block, rest: string)
    requires WellFormed(b)
    ensures Blocks(Fence + b.header + "\n" + b.body + Fence + rest) == [b] + Blocks(rest)
  {
    var s := Fence + b.header + "\n" + b.body + Fence + rest;
    var u := b.body + Fence + rest;
    var t := b.header + "\n" + u;
    assert s == Fence + t;
    assert IsFenceAt(s, 0);
    assert FindFence(s) == Some(0);
    assert s[3..] == t;
    assert Blocks(s) == AfterOpen(t);
    ReadRenderedHeader(b.header, u);
    assert t[|b.header| + 1..] == u;
    FindRenderedClose(b, rest);
    assert u[..|b.body|] == b.body;
    assert u[|b.body| + 3..] == rest;
    assert AfterOpen(t) == [Block(b.header, b.body)] + Blocks(rest);
  }

  /** Rendering well-formed blocks and scanning the text gives the blocks
      back. */
  lemma {:induction false} ParseRender(bs: seq<Block>)
    requires forall i :: 0 <= i < |bs| ==> WellFormed(bs[i])
    ensures Blocks(Render(bs)) == bs
    decreases |bs|
  {
    if bs != [] {
      BlocksOfRenderedBlock(bs[0], Render(bs[1..]));
      ParseRender(bs[1..]);
      assert bs == [bs[0]] + bs[1..];
    }
  }

  /** The file name the program gives block number `k` (counting from 1 over
      ALL blocks): its header when the header contains a '.', and
      `file_<k>.html` otherwise. */
  function FileName(header: string, k: nat): string
  {
    if '.' in header then Strip(header) else "file_" + Decimal(k) + ".html"
  }

  /** A header is a run of name characters, so stripping it changes nothing:
      the key of a named block is its header verbatim. */
  lemma HeaderNameIsVerbatim(header: string, k: nat)
    requires forall i :: 0 <= i < |header| ==> IsNameChar(header[i])
    requires '.' in header
    ensures FileName(header, k) == header
  {
    StripSpec(header);
    forall i | 0 <= i < |header|
      ensures !IsSpace(header[i])
    {
      NameCharIsNotSpace(header[i]);
    }
  }

  /** The (name, stripped body) pairs the loop assigns, numbering the blocks
      from `k`. */
  function Labels(bs: seq<Block>, k: nat): (ps: seq<Entry>)
    ensures |ps| == |bs|
    decreases |bs|
  {
    if bs == [] then [] else [Label(bs[0], k)] + Labels(bs[1..], k + 1)
  }

  /** The pair one block contributes when the counter stands at `k`. */
  function Label(b: Block, k: nat): Entry
  {
    Entry(FileName(b.header, k), Strip(b.body))
  }

  /** The `for meta, code in code_blocks` loop, with `file_counter` running
      from `counter`. */
  function Collect(bs: seq<Block>, files: seq<Entry>, counter: nat): (r: seq<Entry>)
    requires UniqueNames(files)
    ensures UniqueNames(r)
    decreases |bs|
  {
    if bs == [] then files
    else
      var e := Label(bs[0], counter);
      Collect(bs[1..], Assign(files, e.name, e.content), counter + 1)
  }

  /** The loop builds the same dict as assigning all labelled pairs in
      order. */
  lemma {:induction false} CollectIsFromPairs(bs: seq<Block>, ps: seq<Entry>, k: nat)
    ensures Collect(bs, FromPairs(ps), k) == FromPairs(ps + Labels(bs, k))
    decreases |bs|
  {
    if bs == [] {
      assert ps + Labels(bs, k) == ps;
    } else {
      var e := Label(bs[0], k);
      assert Collect(bs, FromPairs(ps), k) == Collect(bs[1..], Assign(FromPairs(ps), e.name, e.content), k + 1);
      FromPairsSnoc(ps, e);
      CollectIsFromPairs(bs[1..], ps + [e], k + 1);
      ConcatAssoc(ps, [e], Labels(bs[1..], k + 1));
    }
  }

  lemma ConcatAssoc<T>(a: seq<T>, b: seq<T>, c: seq<T>)
    ensures a + b + c == a + (b + c)
  {
  }

  lemma FromPairsSnoc(ps: seq<Entry>, e: Entry)
    ensures FromPairs(ps + [e]) == Assign(FromPairs(ps), e.name, e.content)
  {
    assert (ps + [e])[..|ps|] == ps;
  }

  /** A keyword rule of the fallback: if the lowercased brief contains any
      keyword, the output is named `fileName`. */
  datatype Rule = Rule(keywords: seq<string>, fileName: string)

  /** The fallback names, tried in this order. */
  const FallbackRules: seq<Rule> := [
    Rule(["javascript", "js"], "script.js"),
    Rule(["css", "style"], "style.css"),
    Rule(["python", "py"], "app.py"),
    Rule(["html", "web page", "website"], "index.html")
  ]

  const GenericName: string := "output.txt"

  predicate AnyKeyword(b: string, keywords: seq<string>)
  {
    exists i :: 0 <= i < |keywords| && Contains(b, keywords[i])
  }

  /** The first rule whose keywords match, as an ordered table. */
  function FirstRule(rules: seq<Rule>, b: string): string
  {
    if rules == [] then GenericName
    else if AnyKeyword(b, rules[0].keywords) then rules[0].fileName
    else FirstRule(rules[1..], b)
  }

  /** The `if`/`elif` chain on the lowercased brief. */
  function DefaultName(b: string): string
  {
    if Contains(b, "javascript") || Contains(b, "js") then "script.js"
    else if Contains(b, "css") || Contains(b, "style") then "style.css"
    else if Contains(b, "python") || Contains(b, "py") then "app.py"
    else if Contains(b, "html") || Contains(b, "web page") || Contains(b, "website") then "index.html"
    else GenericName
  }

  /** The `if`/`elif` chain is the ordered rule table read top to bottom. */
  lemma DefaultNameIsFirstRule(b: string)
    ensures DefaultName(b) == FirstRule(FallbackRules, b)
  {
    var r := FallbackRules;
    assert AnyKeyword(b, r[0].keywords) <==> Contains(b, "javascript") || Contains(b, "js") by {
      assert r[0].keywords[0] == "javascript" && r[0].keywords[1] == "js";
    }
    assert AnyKeyword(b, r[1].keywords) <==> Contains(b, "css") || Contains(b, "style") by {
      assert r[1].keywords[0] == "css" && r[1].keywords[1] == "style";
    }
    assert AnyKeyword(b, r[2].keywords) <==> Contains(b, "python") || Contains(b, "py") by {
      assert r[2].keywords[0] == "python" && r[2].keywords[1] == "py";
    }
    assert AnyKeyword(b, r[3].keywords) <==>
           Contains(b, "html") || Contains(b, "web page") || Contains(b, "website") by {
      assert r[3].keywords[0] == "html" && r[3].keywords[1] == "web page" && r[3].keywords[2] == "website";
    }
    assert r[1..][0] == r[1] && r[1..][1..][0] == r[2] && r[1..][1..][1..][0] == r[3];
    assert FirstRule(r[1..][1..][1..][1..], b) == GenericName;
    assert FirstRule(r[1..][1..][1..], b) == if AnyKeyword(b, r[3].keywords) then r[3].fileName else GenericName;
    assert FirstRule(r[1..][1..], b) ==
           if AnyKeyword(b, r[2].keywords) then r[2].fileName else FirstRule(r[1..][1..][1..], b);
    assert FirstRule(r[1..], b) ==
           if AnyKeyword(b, r[1].keywords) then r[1].fileName else FirstRule(r[1..][1..], b);
  }

  /** `extract_code_blocks(llm_output, brief)`. With at least one block the
      result is the dict of the labelled blocks; with none it is a single
      fallback entry holding the stripped output, or empty when the output is
      blank. */
  function ExtractCodeBlocks(output: string, brief: string): (r: seq<Entry>)
    ensures UniqueNames(r)
    ensures r == [] <==> Blocks(output) == [] && IsBlank(output)
    ensures Blocks(output) != [] ==> r == FromPairs(Labels(Blocks(output), 1))
    ensures Blocks(output) == [] && !IsBlank(output) ==>
              r == [Entry(FirstRule(FallbackRules, Lower(brief)), Strip(output))]
  {
    var bs := Blocks(output);
    CollectIsFromPairs(bs, [], 1);
    assert [] + Labels(bs, 1) == Labels(bs, 1);
    var files := Collect(bs, [], 1);
    FromPairsMembers(Labels(bs, 1));
    assert bs != [] ==> Names(Labels(bs, 1))[0] in Names(files);
    DefaultNameIsFirstRule(Lower(brief));
    if files == [] && Strip(output) != "" then
      [Entry(DefaultName(Lower(brief)), Strip(output))]
    else
      files
  }

  /** A named block's key is its header verbatim: a header is a run of name
      characters, so stripping it changes nothing. */
  lemma BlockKeyIsHeader(output: string, j: nat)
    requires j < |Blocks(output)| && '.' in Blocks(output)[j].header
    ensures FileName(Blocks(output)[j].header, j + 1) == Blocks(output)[j].header
  {
    BlocksScanned(output);
    HeaderNameIsVerbatim(Blocks(output)[j].header, j + 1);
  }

  lemma LabelKeyPresent(bs: seq<Block>, j: nat)
    requires j < |bs|
    ensures FileName(bs[j].header, j + 1) in Names(FromPairs(Labels(bs, 1)))
  {
    var ps := Labels(bs, 1);
    LabelsAt(bs, 1, j, j + 1);
    assert Names(ps)[j] == ps[j].name;
    FromPairsMembers(ps);
  }

  lemma LabelValue(bs: seq<Block>, j: nat)
    requires j < |bs|
    requires forall k :: j < k < |bs| ==> FileName(bs[k].header, k + 1) != FileName(bs[j].header, j + 1)
    ensures Get(FromPairs(Labels(bs, 1)), FileName(bs[j].header, j + 1)) == Some(Strip(bs[j].body))
  {
    LaterLabelsDiffer(bs, j);
    LabelsAt(bs, 1, j, j + 1);
    FromPairsValues(Labels(bs, 1), j);
  }

  lemma LaterLabelsDiffer(bs: seq<Block>, j: nat)
    requires j < |bs|
    requires forall k :: j < k < |bs| ==> FileName(bs[k].header, k + 1) != FileName(bs[j].header, j + 1)
    ensures forall k :: j < k < |bs| ==> Labels(bs, 1)[k].name != Labels(bs, 1)[j].name
  {
    var ps := Labels(bs, 1);
    LabelsAt(bs, 1, j, j + 1);
    forall k | j < k < |ps|
      ensures ps[k].name != ps[j].name
    {
      LabelsAt(bs, 1, k, k + 1);
    }
  }

  /** The key of block `j` (counting from 0) is in the result. */
  lemma BlockKeyPresent(output: string, brief: string, j: nat)
    requires j < |Blocks(output)|
    ensures FileName(Blocks(output)[j].header, j + 1) in Names(ExtractCodeBlocks(output, brief))
  {
    LabelKeyPresent(Blocks(output), j);
  }

  /** When no later block has the same key, the key of block `j` holds that
      block's body, stripped: a repeated key ends up with its LAST body. */
  lemma BlockValue(output: string, brief: string, j: nat)
    requires j < |Blocks(output)|
    requires forall k :: j < k < |Blocks(output)| ==>
               FileName(Blocks(output)[k].header, k + 1) != FileName(Blocks(output)[j].header, j + 1)
    ensures Get(ExtractCodeBlocks(output, brief), FileName(Blocks(output)[j].header, j + 1)) ==
            Some(Strip(Blocks(output)[j].body))
  {
    LabelValue(Blocks(output), j);
  }

  /** The result lists its keys in the order in which they first appear
      among the blocks. */
  lemma KeysInFirstAppearanceOrder(output: string, brief: string)
    requires Blocks(output) != []
    ensures FirstAppearanceOrder(ExtractCodeBlocks(output, brief), Labels(Blocks(output), 1))
  {
    FromPairsOrder(Labels(Blocks(output), 1));
  }

  /** When every block is named (its header holds a '.') and no two blocks
      share a name, the result lists the blocks in order, each under its
      header verbatim with its body stripped. */
  lemma NamedBlocksVerbatim(output: string, brief: string)
    requires Blocks(output) != []
    requires forall i :: 0 <= i < |Blocks(output)| ==> '.' in Blocks(output)[i].header
    requires forall i, j :: 0 <= i < j < |Blocks(output)| ==> Blocks(output)[i].header != Blocks(output)[j].header
    ensures |ExtractCodeBlocks(output, brief)| == |Blocks(output)|
    ensures forall i :: 0 <= i < |Blocks(output)| ==>
              ExtractCodeBlocks(output, brief)[i] == Entry(Blocks(output)[i].header, Strip(Blocks(output)[i].body))
  {
    var bs := Blocks(output);
    BlocksScanned(output);
    NamedLabels(bs);
    FromPairsDistinct(Labels(bs, 1));
  }

  /** Labelling named blocks with distinct headers gives each block its header
      as its name, so the names stay distinct. */
  lemma NamedLabels(bs: seq<Block>)
    requires forall i :: 0 <= i < |bs| ==> Scanned(bs[i]) && '.' in bs[i].header
    requires forall i, j :: 0 <= i < j < |bs| ==> bs[i].header != bs[j].header
    ensures forall i :: 0 <= i < |bs| ==> Labels(bs, 1)[i] == Entry(bs[i].header, Strip(bs[i].body))
    ensures UniqueNames(Labels(bs, 1))
  {
    var ps := Labels(bs, 1);
    forall i | 0 <= i < |bs|
      ensures ps[i] == Entry(bs[i].header, Strip(bs[i].body))
    {
      NamedLabel(bs, i);
    }
    forall a, b | 0 <= a < b < |ps|
      ensures ps[a].name != ps[b].name
    {
      assert ps[a].name == bs[a].header && ps[b].name == bs[b].header;
    }
  }

  lemma NamedLabel(bs: seq<Block>, i: nat)
    requires i < |bs| && Scanned(bs[i]) && '.' in bs[i].header
    ensures Labels(bs, 1)[i] == Entry(bs[i].header, Strip(bs[i].body))
  {
    HeaderNameIsVerbatim(bs[i].header, i + 1);
    LabelOfNamedHeader(bs, i);
  }

  lemma LabelOfNamedHeader(bs: seq<Block>, i: nat)
    requires i < |bs| && FileName(bs[i].header, i + 1) == bs[i].header
    ensures Labels(bs, 1)[i] == Entry(bs[i].header, Strip(bs[i].body))
  {
    LabelAt(bs, i);
  }

  lemma LabelAt(bs: seq<Block>, i: nat)
    requires i < |bs|
    ensures Labels(bs, 1)[i] == Entry(FileName(bs[i].header, i + 1), Strip(bs[i].body))
  {
    LabelsAt(bs, 1, i, i + 1);
  }

  /** Block `i` is labelled with the counter at `c`, which is `k + i`. */
  lemma {:induction false} LabelsAt(bs: seq<Block>, k: nat, i: nat, c: nat)
    requires i < |bs| && c == k + i
    ensures Labels(bs, k)[i] == Label(bs[i], c)
    decreases i
  {
    if i > 0 {
      LabelsAt(bs[1..], k + 1, i - 1, c);
      assert bs[1..][i - 1] == bs[i];
    }
  }

  /** Every key of the result is a non-empty name: a header holding a '.'
      is not empty, a synthesized name is `file_<k>.html`, and every
      fallback name is a literal file name. */
  lemma KeysNonEmpty(output: string, brief: string)
    ensures "" !in Names(ExtractCodeBlocks(output, brief))
  {
    var bs := Blocks(output);
    if bs != [] {
      LabelNamesNonEmpty(bs);
      FromPairsMembers(Labels(bs, 1));
    } else {
      DefaultNameIsFirstRule(Lower(brief));
      assert DefaultName(Lower(brief)) != "";
    }
  }

  lemma LabelNamesNonEmpty(bs: seq<Block>)
    ensures "" !in Names(Labels(bs, 1))
  {
    var ps := Labels(bs, 1);
    forall j | 0 <= j < |ps|
      ensures Names(ps)[j] != ""
    {
      LabelAt(bs, j);
      FileNameNonEmpty(bs[j].header, j + 1);
    }
  }

  lemma FileNameNonEmpty(header: string, k: nat)
    ensures FileName(header, k) != ""
  {
    if '.' in header {
      var i :| 0 <= i < |header| && header[i] == '.';
      assert !IsSpace(header[i]);
    } else {
      assert FileName(header, k)[0] == 'f';
    }
  }

  /** A first character that does not start a fence is skipped. */
  lemma BlocksSkipChar(s: string)
    requires s != [] && !IsFenceAt(s, 0)
    ensures Blocks(s) == Blocks(s[1..])
  {
    if |s| >= 3 {
      match FindFence(s[1..])
      case None =>
        assert FindFence(s) == None;
      case Some(j) =>
        assert FindFence(s) == Some(j + 1);
        var t := s[j + 1 + 3..];
        assert t == s[1..][j + 3..];
        assert Blocks(s) == AfterOpen(t);
        assert Blocks(s[1..]) == AfterOpen(t);
    }
  }

  /** Text without a backtick in front of a fenced block does not change what
      the scan finds. */
  lemma {:induction false} BlocksSkipPlainText(gap: string, x: string)
    requires forall i :: 0 <= i < |gap| ==> gap[i] != '`'
    ensures Blocks(gap + x) == Blocks(x)
    decreases |gap|
  {
    if gap != [] {
      var s := gap + x;
      var s1 := gap[1..] + x;
      assert s[0] == gap[0];
      assert s[1..] == s1;
      BlocksSkipChar(s);
      assert forall i :: 0 <= i < |gap[1..]| ==> gap[1..][i] != '`' by {
        assert forall i :: 0 <= i < |gap[1..]| ==> gap[1..][i] == gap[i + 1];
      }
      BlocksSkipPlainText(gap[1..], x);
    } else {
      assert gap + x == x;
    }
  }
}
