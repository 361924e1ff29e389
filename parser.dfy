/** parse_config_sections: splits a document into named sections. */
module Parser {
  import opened Text
  import opened Sections

  /** re.match(r'^\[([^\]]+)\]$', line.strip()): a bracketed name, with no
      closing bracket inside it, is all that the stripped line holds. */
  predicate IsHeader(line: string) {
    var t := Strip(line);
    |t| >= 3 && t[0] == '[' && t[|t| - 1] == ']' && ']' !in t[1..|t| - 1]
  }

  /** The captured group: the text between the brackets. */
  function HeaderName(line: string): (name: string)
    requires IsHeader(line)
    ensures name != [] && ']' !in name
  {
    var t := Strip(line);
    t[1..|t| - 1]
  }

  /** A line of the document, classified once by the header test. */
  datatype Line = Header(raw: string, name: string) | Plain(raw: string)

  function Classify(line: string): (l: Line)
    ensures l.raw == line
  {
    if IsHeader(line) then Header(line, HeaderName(line)) else Plain(line)
  }

  function ClassifyAll(lines: seq<string>): (ls: seq<Line>)
    ensures |ls| == |lines|
    ensures forall i :: 0 <= i < |lines| ==> ls[i] == Classify(lines[i])
    decreases |lines|
  {
    if lines == [] then [] else ClassifyAll(lines[..|lines| - 1]) + [Classify(lines[|lines| - 1])]
  }

  function Raws(ls: seq<Line>): (r: seq<string>)
    ensures |r| == |ls|
    ensures forall i :: 0 <= i < |ls| ==> r[i] == ls[i].raw
    decreases |ls|
  {
    if ls == [] then [] else Raws(ls[..|ls| - 1]) + [ls[|ls| - 1].raw]
  }

  predicate NoHeader(ls: seq<Line>) {
    forall i :: 0 <= i < |ls| ==> ls[i].Plain?
  }

  /** A header line and the lines that follow it up to the next header. */
  datatype Block = Block(header: Line, lines: seq<Line>)

  predicate WellFormed(b: Block) {
    b.header.Header? && NoHeader(b.lines)
  }

  predicate AllOpened(bs: seq<Block>) {
    forall i :: 0 <= i < |bs| ==> bs[i].header.Header?
  }

  function Name(b: Block): string
    requires b.header.Header?
  {
    b.header.name
  }

  /** The body recorded for a block: its lines joined and stripped. */
  function BlockBody(b: Block): string {
    Strip(Join(Raws(b.lines)))
  }

  function BlockLines(bs: seq<Block>): seq<Line>
    decreases |bs|
  {
    if bs == [] then [] else BlockLines(bs[..|bs| - 1]) + ([bs[|bs| - 1].header] + bs[|bs| - 1].lines)
  }

  /** The lines before the first header. */
  function Preamble(ls: seq<Line>): seq<Line>
    decreases |ls|
  {
    if ls == [] || ls[0].Header? then [] else [ls[0]] + Preamble(ls[1..])
  }

  /** The blocks of a document, read line by line: a header opens a block,
      any other line extends the open block or, before the first header,
      belongs to no block. */
  function Blocks(ls: seq<Line>): (bs: seq<Block>)
    ensures AllOpened(bs)
    decreases |ls|
  {
    if ls == [] then []
    else
      var init := Blocks(ls[..|ls| - 1]);
      var line := ls[|ls| - 1];
      if line.Header? then init + [Block(line, [])]
      else if init == [] then []
      else init[..|init| - 1] + [Block(init[|init| - 1].header, init[|init| - 1].lines + [line])]
  }

  /** The association list built by assigning each block's body to its name, in order. */
  function PutAll(bs: seq<Block>): seq<Entry>
    requires AllOpened(bs)
    decreases |bs|
  {
    if bs == [] then []
    else Put(PutAll(bs[..|bs| - 1]), Name(bs[|bs| - 1]), BlockBody(bs[|bs| - 1]))
  }

  /** What the parser records: every block, except that a last block with
      no line after its header is not recorded. */
  function Record(bs: seq<Block>): seq<Entry>
    requires AllOpened(bs)
  {
    if bs == [] then []
    else if bs[|bs| - 1].lines != [] then PutAll(bs)
    else PutAll(bs[..|bs| - 1])
  }

  /** The number of blocks Record assigns. */
  function RecordedCount(bs: seq<Block>): nat {
    if bs != [] && bs[|bs| - 1].lines == [] then |bs| - 1 else |bs|
  }

  function ParseSections(content: string): seq<Entry> {
    Record(Blocks(ClassifyAll(Split(content))))
  }

  /** Blocks, unfolded once at a line that is not a header. */
  lemma BlocksSnocPlain(init: seq<Line>, line: Line)
    requires line.Plain?
    ensures var bs := Blocks(init);
      Blocks(init + [line]) ==
        if bs == [] then [] else bs[..|bs| - 1] + [Block(bs[|bs| - 1].header, bs[|bs| - 1].lines + [line])]
  {
    SnocInit(init, line);
  }

  lemma BlocksSnocHeader(init: seq<Line>, header: Line)
    requires header.Header?
    ensures Blocks(init + [header]) == Blocks(init) + [Block(header, [])]
  {
    SnocInit(init, header);
  }

  lemma PutAllSnoc(bs: seq<Block>, b: Block)
    requires AllOpened(bs)
    requires b.header.Header?
    ensures AllOpened(bs + [b])
    ensures PutAll(bs + [b]) == Put(PutAll(bs), Name(b), BlockBody(b))
  {
    var c := bs + [b];
    assert c[..|c| - 1] == bs;
    assert c[|c| - 1] == b;
  }

  lemma RawsSnoc(ls: seq<Line>, l: Line)
    ensures Raws(ls + [l]) == Raws(ls) + [l.raw]
  {
    SnocInit(ls, l);
  }

  lemma {:induction false} PutAllDistinct(bs: seq<Block>)
    requires AllOpened(bs)
    ensures Distinct(Names(PutAll(bs)))
    decreases |bs|
  {
    if bs != [] {
      var last := bs[|bs| - 1];
      PutAllDistinct(bs[..|bs| - 1]);
      PutKeepsDistinct(PutAll(bs[..|bs| - 1]), Name(last), BlockBody(last));
    }
  }

  /** A parse never yields two sections with the same name. */
  lemma RecordDistinct(bs: seq<Block>)
    requires AllOpened(bs)
    ensures Distinct(Names(Record(bs)))
  {
    if bs != [] {
      PutAllDistinct(bs);
      PutAllDistinct(bs[..|bs| - 1]);
    }
  }

  /** The parser's state after it has read ls[..i]: the open section is
      the last block so far, and every earlier block has been assigned. */
  ghost predicate Scanned(ls: seq<Line>, i: nat, current: Option<string>,
                          contentLines: seq<string>, sections: seq<Entry>)
    requires i <= |ls|
  {
    var bs := Blocks(ls[..i]);
    if current.None? then bs == [] && sections == []
    else
      && bs != []
      && current.value == Name(bs[|bs| - 1])
      && contentLines == Raws(bs[|bs| - 1].lines)
      && sections == PutAll(bs[..|bs| - 1])
  }

  lemma ScanHeader(ls: seq<Line>, i: nat, current: Option<string>,
                   contentLines: seq<string>, sections: seq<Entry>)
    requires i < |ls| && ls[i].Header?
    requires Scanned(ls, i, current, contentLines, sections)
    ensures var closed := if current.Some? then Put(sections, current.value, Strip(Join(contentLines))) else sections;
      Scanned(ls, i + 1, Some(ls[i].name), [], closed)
  {
    TakeSnoc(ls, i);
    BlocksSnocHeader(ls[..i], ls[i]);
    var bs := Blocks(ls[..i]);
    assert (bs + [Block(ls[i], [])])[..|bs|] == bs;
    if current.Some? {
      PutAllSnoc(bs[..|bs| - 1], bs[|bs| - 1]);
      InitLast(bs);
    }
  }

  lemma ScanPlain(ls: seq<Line>, i: nat, current: Option<string>,
                 contentLines: seq<string>, sections: seq<Entry>)
    requires i < |ls| && ls[i].Plain?
    requires Scanned(ls, i, current, contentLines, sections)
    ensures var lines' := if current.Some? then contentLines + [ls[i].raw] else contentLines;
      Scanned(ls, i + 1, current, lines', sections)
  {
    TakeSnoc(ls, i);
    BlocksSnocPlain(ls[..i], ls[i]);
    if current.Some? {
      var bs := Blocks(ls[..i]);
      var bs' := Blocks(ls[..i + 1]);
      assert bs'[..|bs'| - 1] == bs[..|bs| - 1];
      RawsSnoc(bs[|bs| - 1].lines, ls[i]);
    }
  }

  lemma ScanEnd(ls: seq<Line>, current: Option<string>,
                contentLines: seq<string>, sections: seq<Entry>)
    requires Scanned(ls, |ls|, current, contentLines, sections)
    ensures Record(Blocks(ls)) ==
      if current.Some? && contentLines != [] then Put(sections, current.value, Strip(Join(contentLines)))
      else sections
  {
    TakeAll(ls);
    var bs := Blocks(ls);
    if current.Some? && contentLines != [] {
      PutAllSnoc(bs[..|bs| - 1], bs[|bs| - 1]);
      InitLast(bs);
    }
  }

  /** parse_config_sections */
  method ParseConfigSections(content: string) returns (sections: seq<Entry>)
    ensures sections == ParseSections(content)
    ensures Distinct(Names(sections))
  {
    sections := [];
    var current: Option<string> := None;
    var contentLines: seq<string> := [];
    var lines := Split(content);
    ghost var ls := ClassifyAll(lines);
    for i := 0 to |lines|
      invariant Scanned(ls, i, current, contentLines, sections)
    {
      var line := lines[i];
      if IsHeader(line) {
        ScanHeader(ls, i, current, contentLines, sections);
        if current.Some? {
          sections := Put(sections, current.value, Strip(Join(contentLines)));
        }
        current := Some(HeaderName(line));
        contentLines := [];
        continue;
      }
      ScanPlain(ls, i, current, contentLines, sections);
      if current.Some? {
        contentLines := contentLines + [line];
      }
    }
    ScanEnd(ls, current, contentLines, sections);
    if current.Some? && contentLines != [] {
      sections := Put(sections, current.value, Strip(Join(contentLines)));
    }
    RecordDistinct(Blocks(ls));
  }

  /** No block opens in lines without a header line. */
  lemma {:induction false} BlocksOfNoHeader(ls: seq<Line>)
    ensures Blocks(ls) == [] <==> NoHeader(ls)
    decreases |ls|
  {
    if ls != [] {
      var init := ls[..|ls| - 1];
      BlocksOfNoHeader(init);
      assert forall i :: 0 <= i < |init| ==> init[i] == ls[i];
    }
  }

  lemma {:induction false} PreambleOfNoHeader(ls: seq<Line>)
    requires NoHeader(ls)
    ensures Preamble(ls) == ls
    decreases |ls|
  {
    if ls != [] {
      PreambleOfNoHeader(ls[1..]);
    }
  }

  lemma {:induction false} PreambleSnoc(ls: seq<Line>, line: Line)
    ensures Preamble(ls + [line]) ==
      if NoHeader(ls) && line.Plain? then ls + [line] else Preamble(ls)
    decreases |ls|
  {
    if ls == [] {
      assert ls + [line] == [line];
    } else {
      TailSnoc(ls, line);
      PreambleSnoc(ls[1..], line);
      if ls[0].Plain? && NoHeader(ls[1..]) {
        PreambleOfNoHeader(ls[1..]);
      }
      if ls[0].Plain? && !NoHeader(ls[1..]) {
        var j :| 0 <= j < |ls[1..]| && ls[1..][j].Header?;
        assert ls[j + 1].Header?;
      }
    }
  }

  lemma BlockLinesSnoc(bs: seq<Block>, b: Block)
    ensures BlockLines(bs + [b]) == BlockLines(bs) + ([b.header] + b.lines)
  {
    SnocInit(bs, b);
  }

  /** Every block opened is well formed: a header followed by header-free lines. */
  lemma {:induction false} BlocksWellFormed(ls: seq<Line>)
    ensures forall i :: 0 <= i < |Blocks(ls)| ==> WellFormed(Blocks(ls)[i])
    decreases |ls|
  {
    if ls != [] {
      var init := ls[..|ls| - 1];
      var line := ls[|ls| - 1];
      InitLast(ls);
      BlocksWellFormed(init);
      var bs := Blocks(init);
      if line.Header? {
        BlocksSnocHeader(init, line);
      } else {
        BlocksSnocPlain(init, line);
        if bs != [] {
          var bs' := Blocks(ls);
          assert forall i :: 0 <= i < |bs| - 1 ==> bs'[i] == bs[i];
          assert WellFormed(bs[|bs| - 1]);
        }
      }
    }
  }

  lemma CoverPlain(init: seq<Line>, line: Line)
    requires line.Plain?
    requires init == Preamble(init) + BlockLines(Blocks(init))
    requires NoHeader(Preamble(init))
    ensures init + [line] == Preamble(init + [line]) + BlockLines(Blocks(init + [line]))
    ensures NoHeader(Preamble(init + [line]))
  {
    BlocksOfNoHeader(init);
    if Blocks(init) != [] {
      CoverPlainOpen(init, line);
    } else {
      PreambleSnoc(init, line);
      BlocksSnocPlain(init, line);
      PreambleOfNoHeader(init);
    }
  }

  lemma CoverPlainOpen(init: seq<Line>, line: Line)
    requires line.Plain? && Blocks(init) != [] && !NoHeader(init)
    requires init == Preamble(init) + BlockLines(Blocks(init))
    ensures init + [line] == Preamble(init) + BlockLines(Blocks(init + [line]))
    ensures Preamble(init + [line]) == Preamble(init)
  {
    PreambleSnoc(init, line);
    BlocksSnocPlain(init, line);
    var bs := Blocks(init);
    var last := bs[|bs| - 1];
    var front := bs[..|bs| - 1];
    InitLast(bs);
    BlockLinesSnoc(front, last);
    BlockLinesSnoc(front, Block(last.header, last.lines + [line]));
    SnocInside(Preamble(init), BlockLines(front), [last.header], last.lines, line);
  }

  lemma SnocInside(p: seq<Line>, f: seq<Line>, h: seq<Line>, l: seq<Line>, x: Line)
    ensures p + (f + (h + (l + [x]))) == (p + (f + (h + l))) + [x]
  {
  }

  lemma CoverHeader(init: seq<Line>, line: Line)
    requires line.Header?
    requires init == Preamble(init) + BlockLines(Blocks(init))
    requires NoHeader(Preamble(init))
    ensures init + [line] == Preamble(init + [line]) + BlockLines(Blocks(init + [line]))
    ensures NoHeader(Preamble(init + [line]))
  {
    PreambleSnoc(init, line);
    BlocksSnocHeader(init, line);
    BlockLinesSnoc(Blocks(init), Block(line, []));
    assert [line] + [] == [line];
    AppendAssoc(Preamble(init), BlockLines(Blocks(init)), [line]);
  }

  /** Every line is either in the preamble, which holds no header, or in
      exactly one block: nothing is lost or reordered. */
  lemma {:induction false} BlocksCover(ls: seq<Line>)
    ensures ls == Preamble(ls) + BlockLines(Blocks(ls))
    ensures NoHeader(Preamble(ls))
    decreases |ls|
  {
    if ls != [] {
      var init := ls[..|ls| - 1];
      var line := ls[|ls| - 1];
      InitLast(ls);
      BlocksCover(init);
      if line.Header? {
        CoverHeader(init, line);
      } else {
        CoverPlain(init, line);
      }
    }
  }

  lemma {:induction false} BlocksExtend(prefix: seq<Line>, header: Line, lines: seq<Line>)
    requires header.Header? && NoHeader(lines)
    ensures Blocks(prefix + [header] + lines) == Blocks(prefix) + [Block(header, lines)]
    decreases |lines|
  {
    if lines == [] {
      assert prefix + [header] + lines == prefix + [header];
      BlocksSnocHeader(prefix, header);
    } else {
      var init := lines[..|lines| - 1];
      var line := lines[|lines| - 1];
      InitLast(lines);
      AppendAssoc(prefix + [header], init, [line]);
      BlocksExtend(prefix, header, init);
      BlocksSnocPlain(prefix + [header] + init, line);
      SnocInit(Blocks(prefix), Block(header, init));
    }
  }

  /** The decomposition of BlocksCover is the only one: a header-free preamble
      followed by well-formed blocks reads back as exactly those blocks. */
  lemma {:induction false} BlocksOfLayout(pre: seq<Line>, bs: seq<Block>)
    requires NoHeader(pre)
    requires forall i :: 0 <= i < |bs| ==> WellFormed(bs[i])
    ensures Blocks(pre + BlockLines(bs)) == bs
    decreases |bs|
  {
    if bs == [] {
      assert pre + BlockLines(bs) == pre;
      BlocksOfNoHeader(pre);
    } else {
      var init := bs[..|bs| - 1];
      var b := bs[|bs| - 1];
      BlocksOfLayout(pre, init);
      AppendAssoc4(pre, BlockLines(init), [b.header], b.lines);
      BlocksExtend(pre + BlockLines(init), b.header, b.lines);
      assert Block(b.header, b.lines) == b;
      InitLast(bs);
    }
  }

  /** Lines before the first header are dropped: they change nothing. */
  lemma PreambleDropped(pre: seq<Line>, rest: seq<Line>)
    requires NoHeader(pre)
    requires rest == [] || rest[0].Header?
    ensures Blocks(pre + rest) == Blocks(rest)
  {
    BlocksCover(rest);
    BlocksWellFormed(rest);
    assert Preamble(rest) == [];
    assert rest == BlockLines(Blocks(rest));
    BlocksOfLayout(pre, Blocks(rest));
  }

  lemma {:induction false} ClassifyAllAppend(a: seq<string>, b: seq<string>)
    ensures ClassifyAll(a + b) == ClassifyAll(a) + ClassifyAll(b)
    decreases |b|
  {
    if b == [] {
      assert a + b == a;
    } else {
      AppendInit(a, b);
      ClassifyAllAppend(a, b[..|b| - 1]);
    }
  }

  /** The same on document text: a header-free leading text, up to a newline
      before the first header, does not change the parse. */
  lemma PreambleTextDropped(pre: string, doc: string)
    requires HeaderFree(pre)
    requires IsHeader(Split(doc)[0])
    ensures ParseSections(pre + "\n" + doc) == ParseSections(doc)
  {
    SplitNewline(pre, doc);
    ClassifyAllAppend(Split(pre), Split(doc));
    PreambleDropped(ClassifyAll(Split(pre)), ClassifyAll(Split(doc)));
  }

  /** A later block with the same name overwrites an earlier one: the body
      recorded for k is that of the last block named k. */
  lemma {:induction false} PutAllLast(bs: seq<Block>, k: string, i: nat)
    requires AllOpened(bs)
    requires i < |bs| && Name(bs[i]) == k
    requires forall j :: i < j < |bs| ==> Name(bs[j]) != k
    ensures Lookup(PutAll(bs), k) == Some(BlockBody(bs[i]))
    decreases |bs|
  {
    if i < |bs| - 1 {
      PutAllLast(bs[..|bs| - 1], k, i);
    }
  }

  lemma {:induction false} PutAllAbsent(bs: seq<Block>, k: string)
    requires AllOpened(bs)
    requires forall j :: 0 <= j < |bs| ==> Name(bs[j]) != k
    ensures Lookup(PutAll(bs), k) == None
    decreases |bs|
  {
    if bs != [] {
      PutAllAbsent(bs[..|bs| - 1], k);
    }
  }

  /** The parse records, for each name, the body of the last recorded block
      with that name; every block is recorded but a last block with no line
      after its header. */
  lemma RecordLast(bs: seq<Block>, k: string, i: nat)
    requires AllOpened(bs)
    requires i < RecordedCount(bs) && Name(bs[i]) == k
    requires forall j :: i < j < RecordedCount(bs) ==> Name(bs[j]) != k
    ensures Lookup(Record(bs), k) == Some(BlockBody(bs[i]))
  {
    if bs[|bs| - 1].lines != [] {
      PutAllLast(bs, k, i);
    } else {
      PutAllLast(bs[..|bs| - 1], k, i);
    }
  }

  lemma RecordAbsent(bs: seq<Block>, k: string)
    requires AllOpened(bs)
    requires forall j :: 0 <= j < RecordedCount(bs) ==> Name(bs[j]) != k
    ensures Lookup(Record(bs), k) == None
  {
    if bs != [] && bs[|bs| - 1].lines != [] {
      PutAllAbsent(bs, k);
    } else if bs != [] {
      PutAllAbsent(bs[..|bs| - 1], k);
    }
  }

  /** No line of the text is a section header. */
  predicate HeaderFree(body: string) {
    forall i :: 0 <= i < |Split(body)| ==> !IsHeader(Split(body)[i])
  }

  lemma IsHeaderSpaceCons(c: char, line: string)
    requires IsSpace(c)
    ensures IsHeader([c] + line) == IsHeader(line)
  {
    StripSpaceCons(c, line);
  }

  lemma IsHeaderSpaceSnoc(line: string, c: char)
    requires IsSpace(c)
    ensures IsHeader(line + [c]) == IsHeader(line)
  {
    StripSpaceSnoc(line, c);
  }

  lemma HeaderFreeCons(c: char, y: string)
    requires IsSpace(c) && HeaderFree([c] + y)
    ensures HeaderFree(y)
  {
    var x := [c] + y;
    assert x[1..] == y;
    var r := Split(y);
    var rx := Split(x);
    forall i | 0 <= i < |r|
      ensures !IsHeader(r[i])
    {
      if c == '\n' {
        assert rx[i + 1] == r[i];
      } else if i == 0 {
        assert rx[0] == [c] + r[0];
        IsHeaderSpaceCons(c, r[0]);
      } else {
        assert rx[i] == r[i];
      }
    }
  }

  lemma HeaderFreeSnoc(y: string, c: char)
    requires IsSpace(c) && HeaderFree(y + [c])
    ensures HeaderFree(y)
  {
    var r := Split(y);
    var rx := Split(y + [c]);
    if c == '\n' {
      assert y + [c] == y + "\n" + "";
      SplitNewline(y, "");
    } else {
      SplitSnoc(y, c);
    }
    forall i | 0 <= i < |r|
      ensures !IsHeader(r[i])
    {
      if c == '\n' || i < |r| - 1 {
        assert rx[i] == r[i];
      } else {
        assert rx[i] == r[i] + [c];
        IsHeaderSpaceSnoc(r[i], c);
      }
    }
  }

  lemma {:induction false} HeaderFreeTrimStart(x: string)
    requires HeaderFree(x)
    ensures HeaderFree(TrimStart(x))
    decreases |x|
  {
    if x != [] && IsSpace(x[0]) {
      HeadTail(x);
      HeaderFreeCons(x[0], x[1..]);
      HeaderFreeTrimStart(x[1..]);
      assert TrimStart(x) == TrimStart(x[1..]);
    }
  }

  lemma {:induction false} HeaderFreeTrimEnd(x: string)
    requires HeaderFree(x)
    ensures HeaderFree(TrimEnd(x))
    decreases |x|
  {
    if x != [] && IsSpace(x[|x| - 1]) {
      var x' := x[..|x| - 1];
      InitLast(x);
      HeaderFreeSnoc(x', x[|x| - 1]);
      HeaderFreeTrimEnd(x');
      assert TrimEnd(x) == TrimEnd(x');
    } else {
      assert TrimEnd(x) == x;
    }
  }

  /** Stripping a header-free text leaves it header-free. */
  lemma HeaderFreeStrip(x: string)
    requires HeaderFree(x)
    ensures HeaderFree(Strip(x))
  {
    HeaderFreeTrimStart(x);
    HeaderFreeTrimEnd(TrimStart(x));
  }

  /** Newline-free lines none of which is a header join into a header-free text. */
  lemma HeaderFreeJoin(raws: seq<string>)
    requires NoNewline(raws)
    requires forall i :: 0 <= i < |raws| ==> !IsHeader(raws[i])
    ensures HeaderFree(Join(raws))
  {
    if raws != [] {
      SplitJoin(raws);
    }
  }

  /** A line as the parser sees it: one piece of the split, classified. */
  predicate Sane(l: Line) {
    '\n' !in l.raw && l == Classify(l.raw)
  }

  predicate BlockHas(b: Block, P: Line -> bool) {
    P(b.header) && forall j :: 0 <= j < |b.lines| ==> P(b.lines[j])
  }

  /** A property every line has holds of every block's header and lines. */
  lemma {:induction false} BlocksKeep(ls: seq<Line>, P: Line -> bool)
    requires forall i :: 0 <= i < |ls| ==> P(ls[i])
    ensures forall i :: 0 <= i < |Blocks(ls)| ==> BlockHas(Blocks(ls)[i], P)
    decreases |ls|
  {
    if ls != [] {
      var init := ls[..|ls| - 1];
      var line := ls[|ls| - 1];
      InitLast(ls);
      assert forall i :: 0 <= i < |init| ==> init[i] == ls[i];
      BlocksKeep(init, P);
      var bs := Blocks(init);
      if line.Header? {
        BlocksSnocHeader(init, line);
      } else {
        BlocksSnocPlain(init, line);
        if bs != [] {
          var bs' := Blocks(ls);
          var last := bs[|bs| - 1];
          assert forall i :: 0 <= i < |bs| - 1 ==> bs'[i] == bs[i];
          assert bs'[|bs| - 1] == Block(last.header, last.lines + [line]);
          assert BlockHas(last, P);
        }
      }
    }
  }

  /** A section as a parse can record it: a non-empty one-line name without
      a closing bracket, and a stripped body no line of which is a header. */
  predicate GoodEntry(e: Entry) {
    GoodName(e.name) && Strip(e.body) == e.body && HeaderFree(e.body)
  }

  predicate GoodName(name: string) {
    name != [] && ']' !in name && '\n' !in name
  }

  predicate GoodSections(s: seq<Entry>) {
    Distinct(Names(s)) && forall i :: 0 <= i < |s| ==> GoodEntry(s[i])
  }

  lemma RawsOfClassified(ls: seq<Line>)
    requires forall i :: 0 <= i < |ls| ==> Sane(ls[i]) && ls[i].Plain?
    ensures NoNewline(Raws(ls))
    ensures forall i :: 0 <= i < |Raws(ls)| ==> !IsHeader(Raws(ls)[i])
  {
  }

  lemma SaneBlockEntry(b: Block)
    requires WellFormed(b) && BlockHas(b, Sane)
    ensures GoodEntry(Entry(Name(b), BlockBody(b)))
  {
    var raw := b.header.raw;
    var t := Strip(raw);
    StripKeeps(raw, '\n');
    assert Name(b) == t[1..|t| - 1];
    assert forall i :: 0 <= i < |Name(b)| ==> Name(b)[i] == t[i + 1];
    RawsOfClassified(b.lines);
    var j := Join(Raws(b.lines));
    HeaderFreeJoin(Raws(b.lines));
    HeaderFreeStrip(j);
    StripIdempotent(j);
  }

  lemma {:induction false} PutAllSource(bs: seq<Block>, e: Entry) returns (i: nat)
    requires AllOpened(bs) && e in PutAll(bs)
    ensures i < |bs| && e == Entry(Name(bs[i]), BlockBody(bs[i]))
    decreases |bs|
  {
    var init := bs[..|bs| - 1];
    var last := bs[|bs| - 1];
    PutMember(PutAll(init), Name(last), BlockBody(last), e);
    if e in PutAll(init) {
      i := PutAllSource(init, e);
    } else {
      i := |bs| - 1;
    }
  }

  /** Every section a parse records is a good one, and no two share a name. */
  lemma ParsedGood(content: string)
    ensures GoodSections(ParseSections(content))
  {
    var ls := ClassifyAll(Split(content));
    var bs := Blocks(ls);
    BlocksKeep(ls, Sane);
    BlocksWellFormed(ls);
    RecordDistinct(bs);
    var s := Record(bs);
    var src := if bs != [] && bs[|bs| - 1].lines == [] then bs[..|bs| - 1] else bs;
    assert s == PutAll(src);
    forall k | 0 <= k < |s|
      ensures GoodEntry(s[k])
    {
      var i := PutAllSource(src, s[k]);
      assert src[i] == bs[i];
      SaneBlockEntry(bs[i]);
    }
  }
}
