/** What a generated document reads back as. Generating with an empty
    personal configuration and parsing the result again gives, for every
    standard name, the body the original parse gave it (empty when it had
    none), and for every other name the original parse's answer. */
module RoundTrip {
  import opened Text
  import opened Sections
  import opened Config
  import opened Order
  import Parser
  import Serializer

  /** One section per name, with the body the parsed document gives that
      name, empty when it has none. */
  function Entries(names: seq<string>, s: seq<Entry>): (r: seq<Entry>)
    ensures |r| == |names|
    ensures forall i :: 0 <= i < |names| ==> r[i] == Entry(names[i], Get(s, names[i], ""))
    decreases |names|
  {
    if names == [] then []
    else Entries(names[..|names| - 1], s) + [Entry(names[|names| - 1], Get(s, names[|names| - 1], ""))]
  }

  /** The sections a generated document holds, in the order it holds them:
      the twelve standard ones, then the other parsed names, sorted. */
  function Emitted(s: seq<Entry>): seq<Entry> {
    Entries(Serializer.StandardNames + Sort(Serializer.ExtraNames(Names(s))), s)
  }

  /** The lines written for a run of sections. */
  function Emit(es: seq<Entry>): seq<string>
    decreases |es|
  {
    if es == [] then []
    else Emit(es[..|es| - 1]) + Serializer.Block(es[|es| - 1].name, es[|es| - 1].body)
  }

  /** The lines a written body splits into; a blank body is not written. */
  function BodyLines(body: string): seq<string> {
    if Strip(body) != "" then Split(body) else []
  }

  /** Lines, each read as a line that is not a header. */
  function Plains(xs: seq<string>): (ls: seq<Parser.Line>)
    ensures |ls| == |xs|
    ensures forall i :: 0 <= i < |xs| ==> ls[i] == Parser.Plain(xs[i])
    decreases |xs|
  {
    if xs == [] then [] else Plains(xs[..|xs| - 1]) + [Parser.Plain(xs[|xs| - 1])]
  }

  /** The block a written section reads back as: its header line, then its
      body lines and the empty line after them. */
  function LaidOut(e: Entry): Parser.Block {
    Parser.Block(Parser.Header("[" + e.name + "]", e.name), Plains(BodyLines(e.body) + [""]))
  }

  /** f applied to each element, in order. */
  function Map<A, B>(f: A -> B, xs: seq<A>): (ys: seq<B>)
    ensures |ys| == |xs|
    ensures forall i :: 0 <= i < |xs| ==> ys[i] == f(xs[i])
    decreases |xs|
  {
    if xs == [] then [] else Map(f, xs[..|xs| - 1]) + [f(xs[|xs| - 1])]
  }

  /** The blocks a run of written sections reads back as. */
  function Layout(es: seq<Entry>): (bs: seq<Parser.Block>)
    ensures |bs| == |es| && Parser.AllOpened(bs)
  {
    Map(LaidOut, es)
  }

  /** An empty personal configuration merges nothing into a standard section. */
  lemma EmptyMerge(sec: Serializer.Standard, body: string)
    ensures Serializer.MergeStandard(sec, body, Empty) == body
  {
  }

  lemma {:induction false} StandardPartsEmit(order: seq<Serializer.Standard>, names: seq<string>, s: seq<Entry>)
    requires |order| == |names|
    requires forall i :: 0 <= i < |order| ==> Serializer.SectionName(order[i]) == names[i]
    ensures Serializer.StandardParts(order, s, Empty) == Emit(Entries(names, s))
    decreases |order|
  {
    if order != [] {
      var k := |order| - 1;
      StandardPartsEmit(order[..k], names[..k], s);
      SnocInit(Entries(names[..k], s), Entry(names[k], Get(s, names[k], "")));
      EmptyMerge(order[k], Get(s, names[k], ""));
    }
  }

  lemma {:induction false} ExtraPartsEmit(names: seq<string>, s: seq<Entry>)
    ensures Serializer.ExtraParts(names, s) == Emit(Entries(names, s))
    decreases |names|
  {
    if names != [] {
      var k := |names| - 1;
      ExtraPartsEmit(names[..k], s);
      SnocInit(Entries(names[..k], s), Entry(names[k], Get(s, names[k], "")));
    }
  }

  lemma {:induction false} EntriesAppend(a: seq<string>, b: seq<string>, s: seq<Entry>)
    ensures Entries(a + b, s) == Entries(a, s) + Entries(b, s)
  {
    var l := Entries(a + b, s);
    var r := Entries(a, s) + Entries(b, s);
    assert forall i :: 0 <= i < |l| ==> l[i] == r[i];
  }

  lemma {:induction false} EmitAppend(a: seq<Entry>, b: seq<Entry>)
    ensures Emit(a + b) == Emit(a) + Emit(b)
    decreases |b|
  {
    if b == [] {
      assert a + b == a;
    } else {
      var b' := b[..|b| - 1];
      var e := b[|b| - 1];
      AppendInit(a, b);
      assert (a + b)[|a + b| - 1] == e;
      EmitAppend(a, b');
      AppendAssoc(Emit(a), Emit(b'), Serializer.Block(e.name, e.body));
    }
  }

  /** With an empty personal configuration the lines of the document are
      the comment lines followed by one block per emitted section. */
  lemma PartsEmpty(s: seq<Entry>, timestamp: string, url: string)
    ensures Serializer.Parts(s, Empty, timestamp, url)
      == Serializer.HeaderLines(timestamp, url) + Emit(Emitted(s))
  {
    var extra := Sort(Serializer.ExtraNames(Names(s)));
    var h := Serializer.HeaderLines(timestamp, url);
    var p := Serializer.StandardParts(Serializer.StandardOrder, s, Empty);
    var x := Serializer.ExtraParts(extra, s);
    var c := Serializer.CustomParts([], Names(s));
    assert c == [];
    Serializer.StandardNamesInOrder();
    StandardPartsEmit(Serializer.StandardOrder, Serializer.StandardNames, s);
    ExtraPartsEmit(extra, s);
    EntriesAppend(Serializer.StandardNames, extra, s);
    EmitAppend(Entries(Serializer.StandardNames, s), Entries(extra, s));
    AppendAssoc(h, p, x);
  }

  /** A line starting with '#' is not a header. */
  lemma HashNotHeader(line: string)
    requires line != [] && line[0] == '#'
    ensures !Parser.IsHeader(line)
  {
    var n := TrailingSpaces(line);
    TrailingSpacesFacts(line);
    assert Strip(line) == line[..|line| - n];
    if n == |line| {
      assert line[|line| - n..][0] == line[0];
    }
  }

  lemma HeaderLinesNoNewline(timestamp: string, url: string)
    requires '\n' !in timestamp && '\n' !in url
    ensures NoNewline(Serializer.HeaderLines(timestamp, url))
  {
  }

  lemma HeaderLinesPlain(timestamp: string, url: string)
    ensures forall i :: 0 <= i < |Serializer.HeaderLines(timestamp, url)| ==>
      !Parser.IsHeader(Serializer.HeaderLines(timestamp, url)[i])
  {
    var h := Serializer.HeaderLines(timestamp, url);
    forall i | 0 <= i < |h|
      ensures !Parser.IsHeader(h[i])
    {
      if i < 4 {
        HashNotHeader(h[i]);
      } else {
        assert h[i] == "";
      }
    }
  }

  /** A written header line reads back as a header with the same name. */
  lemma HeaderOf(name: string)
    requires name != [] && ']' !in name
    ensures Parser.Classify("[" + name + "]") == Parser.Header("[" + name + "]", name)
  {
    var t := "[" + name + "]";
    StripOfTrimmed(t);
    assert t[1..|t| - 1] == name;
  }

  lemma BlockSplit(e: Entry)
    requires '\n' !in e.name
    ensures SplitEach(Serializer.Block(e.name, e.body)) == ["[" + e.name + "]"] + BodyLines(e.body) + [""]
  {
    var h := "[" + e.name + "]";
    var mid: seq<string> := if Strip(e.body) != "" then [e.body] else [];
    assert Serializer.Block(e.name, e.body) == [h] + mid + [""];
    SplitEachAppend([h] + mid, [""]);
    SplitEachAppend([h], mid);
    SplitNoNewline(h);
    assert [h][..0] == [];
    assert [""][..0] == [];
    if mid != [] {
      assert mid[..0] == [];
    }
  }

  lemma ClassifyPlains(xs: seq<string>)
    requires forall i :: 0 <= i < |xs| ==> !Parser.IsHeader(xs[i])
    ensures Parser.ClassifyAll(xs) == Plains(xs)
  {
    var l := Parser.ClassifyAll(xs);
    assert forall i :: 0 <= i < |xs| ==> l[i] == Parser.Classify(xs[i]);
  }

  /** The lines after a written header: the body lines and an empty line, none a header. */
  lemma BodyLinesPlain(body: string)
    requires Parser.HeaderFree(body)
    ensures forall i :: 0 <= i < |BodyLines(body) + [""]| ==> !Parser.IsHeader((BodyLines(body) + [""])[i])
  {
    var b := BodyLines(body);
    var x := b + [""];
    forall i | 0 <= i < |x|
      ensures !Parser.IsHeader(x[i])
    {
      if i < |b| {
        assert x[i] == Split(body)[i];
      } else {
        assert x[i] == "";
      }
    }
  }

  lemma LaidOutLines(e: Entry)
    requires Parser.GoodName(e.name) && Parser.HeaderFree(e.body)
    ensures Parser.ClassifyAll(SplitEach(Serializer.Block(e.name, e.body))) == [LaidOut(e).header] + LaidOut(e).lines
  {
    var h := "[" + e.name + "]";
    var rest := BodyLines(e.body) + [""];
    BlockSplit(e);
    AppendAssoc([h], BodyLines(e.body), [""]);
    BodyLinesPlain(e.body);
    ClassifyPlains(rest);
    HeaderOf(e.name);
    Parser.ClassifyAllAppend([h], rest);
    assert Parser.ClassifyAll([h]) == [Parser.Header(h, e.name)];
  }

  /** The emitted lines, split and classified, are the blocks laid out one after another. */
  lemma {:induction false} SplitEmit(es: seq<Entry>)
    requires forall i :: 0 <= i < |es| ==> Parser.GoodName(es[i].name) && Parser.HeaderFree(es[i].body)
    ensures Parser.ClassifyAll(SplitEach(Emit(es))) == Parser.BlockLines(Layout(es))
    decreases |es|
  {
    if es != [] {
      var init := es[..|es| - 1];
      var e := es[|es| - 1];
      var b := Serializer.Block(e.name, e.body);
      SplitEmit(init);
      SplitEachAppend(Emit(init), b);
      Parser.ClassifyAllAppend(SplitEach(Emit(init)), SplitEach(b));
      LaidOutLines(e);
      SnocInit(Layout(init), LaidOut(e));
    }
  }

  /** A written body reads back as itself. */
  lemma BlockBodyLaidOut(e: Entry)
    requires Strip(e.body) == e.body
    ensures Parser.BlockBody(LaidOut(e)) == e.body
  {
    var x := BodyLines(e.body) + [""];
    var raws := Parser.Raws(Plains(x));
    assert raws == x;
    if Strip(e.body) != "" {
      JoinSnoc(Split(e.body), "");
      JoinSplit(e.body);
      assert e.body + "\n" + "" == e.body + ['\n'];
      StripSpaceSnoc(e.body, '\n');
    } else {
      assert x == [""];
    }
  }

  /** Reading back distinct sections with stripped bodies, laid out in
      order, assigns each once, in that order. */
  lemma {:induction false} PutAllLayout(es: seq<Entry>)
    requires Distinct(Names(es))
    requires forall i :: 0 <= i < |es| ==> Strip(es[i].body) == es[i].body
    ensures Parser.PutAll(Layout(es)) == es
    decreases |es|
  {
    if es != [] {
      var init := es[..|es| - 1];
      var e := es[|es| - 1];
      DistinctLast(es);
      assert forall i :: 0 <= i < |init| ==> init[i] == es[i];
      PutAllLayout(init);
      InitLast(es);
      PutAllStep(init, e);
    }
  }

  lemma DistinctLast(es: seq<Entry>)
    requires es != [] && Distinct(Names(es))
    ensures Distinct(Names(es[..|es| - 1])) && es[|es| - 1].name !in Names(es[..|es| - 1])
  {
    var init := es[..|es| - 1];
    var n := Names(es);
    var m := Names(init);
    NamesAt(es);
    NamesAt(init);
    forall i | 0 <= i < |init|
      ensures m[i] == n[i] && m[i] != n[|es| - 1]
    {
      assert init[i] == es[i];
    }
    assert n[|es| - 1] == es[|es| - 1].name;
  }

  lemma PutAllStep(init: seq<Entry>, e: Entry)
    requires Parser.PutAll(Layout(init)) == init
    requires Strip(e.body) == e.body && e.name !in Names(init)
    ensures Parser.PutAll(Layout(init + [e])) == init + [e]
  {
    var l := Layout(init + [e]);
    assert (init + [e])[..|init|] == init;
    assert l == Layout(init) + [LaidOut(e)];
    SnocInit(Layout(init), LaidOut(e));
    assert Parser.PutAll(l) == Put(init, e.name, Parser.BlockBody(LaidOut(e)));
    BlockBodyLaidOut(e);
    PutNew(init, e.name, e.body);
  }

  lemma {:induction false} NamesEntries(names: seq<string>, s: seq<Entry>)
    ensures Names(Entries(names, s)) == names
  {
    NamesAt(Entries(names, s));
  }

  /** Looking up a name among the emitted sections finds the parsed body
      when the name is emitted, and nothing otherwise. */
  lemma {:induction false} LookupEntries(names: seq<string>, s: seq<Entry>, k: string)
    ensures Lookup(Entries(names, s), k) == if k in names then Some(Get(s, k, "")) else None
    decreases |names|
  {
    if names != [] {
      var init := names[..|names| - 1];
      var n := names[|names| - 1];
      LookupEntries(init, s, k);
      NamesEntries(init, s);
      LookupAppend(Entries(init, s), [Entry(n, Get(s, n, ""))], k);
      InitLast(names);
    }
  }

  lemma {:induction false} DistinctCount(a: seq<string>, x: string)
    requires Distinct(a)
    ensures multiset(a)[x] <= 1
    decreases |a|
  {
    if a != [] {
      assert a == [a[0]] + a[1..];
      assert forall j :: 0 <= j < |a| - 1 ==> a[1..][j] == a[j + 1];
      DistinctCount(a[1..], x);
      assert a[0] !in a[1..];
    }
  }

  lemma CountTwo(b: seq<string>, i: nat, j: nat)
    requires i < j < |b|
    ensures multiset(b)[b[i]] >= if b[i] == b[j] then 2 else 1
  {
    assert b == b[..j] + [b[j]] + b[j + 1..];
    assert b[..j][i] == b[i];
  }

  /** A rearrangement of distinct names is distinct. */
  lemma DistinctPermutation(a: seq<string>, b: seq<string>)
    requires Distinct(a) && multiset(a) == multiset(b)
    ensures Distinct(b)
  {
    forall i, j | 0 <= i < j < |b|
      ensures b[i] != b[j]
    {
      CountTwo(b, i, j);
      DistinctCount(a, b[i]);
    }
  }

  lemma DistinctAppend(a: seq<string>, b: seq<string>)
    requires Distinct(a) && Distinct(b)
    requires forall j :: 0 <= j < |b| ==> b[j] !in a
    ensures Distinct(a + b)
  {
    forall i, j | 0 <= i < j < |a + b|
      ensures (a + b)[i] != (a + b)[j]
    {
      if j >= |a| && i < |a| {
        assert (a + b)[j] == b[j - |a|];
        assert (a + b)[i] == a[i];
      }
    }
  }

  lemma StandardDistinct()
    ensures Distinct(Serializer.StandardNames)
  {
  }

  lemma StandardGood()
    ensures forall i :: 0 <= i < |Serializer.StandardNames| ==> Parser.GoodName(Serializer.StandardNames[i])
  {
  }

  /** The body a good parse gives any name is stripped and header-free. */
  lemma GetGood(s: seq<Entry>, n: string)
    requires Parser.GoodSections(s)
    ensures Strip(Get(s, n, "")) == Get(s, n, "") && Parser.HeaderFree(Get(s, n, ""))
  {
    if Lookup(s, n).Some? {
      var i := LookupAt(s, n);
    } else {
      assert Split("") == [""];
      assert !Parser.IsHeader("");
    }
  }

  /** A name a good parse holds is a good section name. */
  lemma NameGood(s: seq<Entry>, n: string)
    requires Parser.GoodSections(s) && n in Names(s)
    ensures Parser.GoodName(n)
  {
    NamesAt(s);
    var j :| 0 <= j < |s| && Names(s)[j] == n;
    assert Parser.GoodEntry(s[j]);
  }

  lemma EmittedGood(s: seq<Entry>)
    requires Parser.GoodSections(s)
    ensures Distinct(Names(Emitted(s)))
    ensures forall i :: 0 <= i < |Emitted(s)| ==> Parser.GoodEntry(Emitted(s)[i])
  {
    var extra := Serializer.ExtraNames(Names(s));
    var sorted := Sort(extra);
    var names := Serializer.StandardNames + sorted;
    NamesEntries(names, s);
    Serializer.ExtraNamesDistinct(Names(s));
    SortFacts(extra);
    DistinctPermutation(extra, sorted);
    StandardDistinct();
    StandardGood();
    forall j | 0 <= j < |sorted|
      ensures sorted[j] !in Serializer.StandardNames && sorted[j] in Names(s)
    {
      Serializer.ExtraOrder(Names(s), sorted[j]);
    }
    DistinctAppend(Serializer.StandardNames, sorted);
    forall i | 0 <= i < |names|
      ensures Parser.GoodEntry(Entry(names[i], Get(s, names[i], "")))
    {
      GetGood(s, names[i]);
      if i >= |Serializer.StandardNames| {
        assert names[i] == sorted[i - |Serializer.StandardNames|];
        NameGood(s, names[i]);
      }
    }
  }

  /** Comment lines followed by the blocks of sections, split and classified. */
  lemma ReadBackLines(h: seq<string>, es: seq<Entry>)
    requires h != [] && NoNewline(h)
    requires forall i :: 0 <= i < |es| ==> Parser.GoodName(es[i].name) && Parser.HeaderFree(es[i].body)
    ensures Parser.ClassifyAll(Split(Join(h + Emit(es)))) == Parser.ClassifyAll(h) + Parser.BlockLines(Layout(es))
  {
    var e := Emit(es);
    SplitJoinEach(h + e);
    SplitEachAppend(h, e);
    SplitEachNoNewline(h);
    Parser.ClassifyAllAppend(h, SplitEach(e));
    SplitEmit(es);
  }

  /** A header-free preamble followed by the laid-out blocks of distinct
      sections with stripped bodies records exactly those sections. */
  lemma ReadBackBlocks(pre: seq<Parser.Line>, es: seq<Entry>)
    requires Parser.NoHeader(pre)
    requires Distinct(Names(es))
    requires forall i :: 0 <= i < |es| ==> Strip(es[i].body) == es[i].body
    ensures Parser.Record(Parser.Blocks(pre + Parser.BlockLines(Layout(es)))) == es
  {
    LayoutWellFormed(es);
    Parser.BlocksOfLayout(pre, Layout(es));
    RecordLayout(es);
    PutAllLayout(es);
  }

  lemma LayoutWellFormed(es: seq<Entry>)
    ensures forall i :: 0 <= i < |es| ==> Parser.WellFormed(Layout(es)[i])
  {
  }

  /** Every laid-out block has a line after its header, so every one is recorded. */
  lemma RecordLayout(es: seq<Entry>)
    ensures Parser.Record(Layout(es)) == Parser.PutAll(Layout(es))
  {
    if es != [] {
      assert Layout(es)[|es| - 1].lines != [];
    }
  }

  lemma ClassifyPlain(h: seq<string>)
    requires forall i :: 0 <= i < |h| ==> !Parser.IsHeader(h[i])
    ensures Parser.NoHeader(Parser.ClassifyAll(h))
  {
    var pre := Parser.ClassifyAll(h);
    assert forall i :: 0 <= i < |h| ==> pre[i] == Parser.Classify(h[i]);
  }

  /** A document of header-free comment lines followed by the blocks of good
      sections parses as exactly those sections. */
  lemma ReadBack(h: seq<string>, es: seq<Entry>)
    requires h != [] && NoNewline(h)
    requires forall i :: 0 <= i < |h| ==> !Parser.IsHeader(h[i])
    requires Parser.GoodSections(es)
    ensures Parser.ParseSections(Join(h + Emit(es))) == es
  {
    ReadBackLines(h, es);
    ClassifyPlain(h);
    ReadBackBlocks(Parser.ClassifyAll(h), es);
  }

  /** Parsing a document generated from good sections with an empty
      personal configuration gives back exactly the emitted sections. */
  lemma RoundTripExact(s: seq<Entry>, timestamp: string, url: string)
    requires Parser.GoodSections(s)
    requires '\n' !in timestamp && '\n' !in url
    ensures Parser.ParseSections(Serializer.GenerateConfig(s, Empty, timestamp, url)) == Emitted(s)
  {
    PartsEmpty(s, timestamp, url);
    HeaderLinesNoNewline(timestamp, url);
    HeaderLinesPlain(timestamp, url);
    EmittedGood(s);
    ReadBack(Serializer.HeaderLines(timestamp, url), Emitted(s));
  }

  /** Generating from a parsed document with an empty personal configuration
      and parsing the result: a standard name reads back as the body the
      first parse gave it, or empty; any other name reads back as the first
      parse had it, present or absent. */
  lemma RoundTrip(doc: string, timestamp: string, url: string, k: string)
    requires '\n' !in timestamp && '\n' !in url
    ensures var s := Parser.ParseSections(doc);
      Lookup(Parser.ParseSections(Serializer.GenerateConfig(s, Empty, timestamp, url)), k)
      == if k in Serializer.StandardNames then Some(Get(s, k, "")) else Lookup(s, k)
  {
    var s := Parser.ParseSections(doc);
    Parser.ParsedGood(doc);
    RoundTripExact(s, timestamp, url);
    LookupEntries(Serializer.StandardNames + Sort(Serializer.ExtraNames(Names(s))), s, k);
    Serializer.ExtraOrder(Names(s), k);
  }
}
