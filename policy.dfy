/** add_personal_policies_smart: adds personal static policy groups to the
    [policy] body, skipping names already defined, and regroups the body. */
module Policy {
  import opened Text
  import opened Sections
  import opened Config

  /** The bucket a policy line goes to, by its stripped form. */
  datatype Kind = Comment | Static | Benchmark | OtherLine | Blank

  function KindOf(line: string): Kind {
    var t := Strip(line);
    if StartsWith(t, "#") then Comment
    else if StartsWith(t, "static=") then Static
    else if StartsWith(t, "url-latency-benchmark=") then Benchmark
    else if t != "" then OtherLine
    else Blank
  }

  /** A body line together with its bucket. */
  datatype PolicyLine = PolicyLine(raw: string, kind: Kind)

  function ClassifyAll(lines: seq<string>): (ls: seq<PolicyLine>)
    ensures |ls| == |lines|
    ensures forall i :: 0 <= i < |lines| ==> ls[i].raw == lines[i]
    decreases |lines|
  {
    if lines == [] then []
    else ClassifyAll(lines[..|lines| - 1]) + [PolicyLine(lines[|lines| - 1], KindOf(lines[|lines| - 1]))]
  }

  /** The lines of one bucket, in their original order. */
  function OfKind(ls: seq<PolicyLine>, k: Kind): seq<string>
    decreases |ls|
  {
    if ls == [] then []
    else
      var last := ls[|ls| - 1];
      OfKind(ls[..|ls| - 1], k) + (if last.kind == k then [last.raw] else [])
  }

  /** The lines of one bucket of a body. */
  function Bucket(lines: seq<string>, k: Kind): seq<string> {
    OfKind(ClassifyAll(lines), k)
  }

  /** The index of the first comma of u, or |u| when there is none. */
  function FirstComma(u: string): (c: nat)
    ensures c <= |u|
    ensures c < |u| ==> u[c] == ','
    ensures forall i :: 0 <= i < c ==> u[i] != ','
    decreases |u|
  {
    if u == [] then 0
    else if u[0] == ',' then 0
    else 1 + FirstComma(u[1..])
  }

  /** re.match(prefix + '([^,]+),', t), the group stripped: the text between
      the prefix and the first comma, which must not be empty. */
  function GroupName(t: string, prefix: string): Option<string> {
    if !StartsWith(t, prefix) then None
    else
      var u := t[|prefix|..];
      var c := FirstComma(u);
      if 1 <= c < |u| then Some(Strip(u[..c])) else None
  }

  /** re.match(r'^(static|url-latency-benchmark)=([^,]+),', line.strip()) */
  function DefinedName(line: string): Option<string> {
    var t := Strip(line);
    if GroupName(t, "static=").Some? then GroupName(t, "static=")
    else GroupName(t, "url-latency-benchmark=")
  }

  /** The names defined by existing static and benchmark lines. */
  function DefinedNames(lines: seq<string>): set<string>
    decreases |lines|
  {
    if lines == [] then {}
    else
      var d := DefinedName(lines[|lines| - 1]);
      DefinedNames(lines[..|lines| - 1]) + (if d.Some? then {d.value} else {})
  }

  /** A personal policy as the merge sees it: its stripped text and the
      static group it names, if any. A non-string names none. */
  datatype Candidate = Candidate(line: string, name: Option<string>)

  function CandidateOf(item: Item): Candidate {
    match item
    case NonStr => Candidate("", None)
    case Str(s) => Candidate(Strip(s), GroupName(Strip(s), "static="))
  }

  function Candidates(policies: seq<Item>): (cs: seq<Candidate>)
    ensures |cs| == |policies|
    decreases |policies|
  {
    if policies == [] then []
    else Candidates(policies[..|policies| - 1]) + [CandidateOf(policies[|policies| - 1])]
  }

  /** The names of some candidates. */
  function NamesOf(cs: seq<Candidate>): set<string>
    decreases |cs|
  {
    if cs == [] then {}
    else
      var g := cs[|cs| - 1].name;
      NamesOf(cs[..|cs| - 1]) + (if g.Some? then {g.value} else {})
  }

  function Texts(cs: seq<Candidate>): (r: seq<string>)
    ensures |r| == |cs|
    ensures forall i :: 0 <= i < |cs| ==> r[i] == cs[i].line
    decreases |cs|
  {
    if cs == [] then [] else Texts(cs[..|cs| - 1]) + [cs[|cs| - 1].line]
  }

  /** The candidates accepted, in order: each that names a static group not
      defined before and not accepted before. */
  function Accept(names: set<string>, cs: seq<Candidate>): seq<Candidate>
    decreases |cs|
  {
    if cs == [] then []
    else
      var prev := Accept(names, cs[..|cs| - 1]);
      var c := cs[|cs| - 1];
      if c.name.Some? && c.name.value !in names && c.name.value !in NamesOf(prev) then prev + [c] else prev
  }

  /** The policy lines accepted from the personal policies. */
  function Accepted(names: set<string>, policies: seq<Item>): seq<string> {
    Texts(Accept(names, Candidates(policies)))
  }

  /** The body add_personal_policies_smart returns. */
  function MergePolicies(content: string, policies: seq<Item>): string {
    if policies == [] then content
    else
      var lines := Split(content);
      var statics := Bucket(lines, Static);
      var benchmarks := Bucket(lines, Benchmark);
      var accepted := Accepted(DefinedNames(statics + benchmarks), policies);
      if accepted == [] then content
      else Join(statics + accepted + [""] + Bucket(lines, Comment) + benchmarks + Bucket(lines, OtherLine))
  }

  method AddPersonalPoliciesSmart(content: string, policies: seq<Item>) returns (r: string)
    ensures r == MergePolicies(content, policies)
  {
    if |policies| == 0 {
      return content;
    }
    var lines := Split(content);
    var comments, statics, benchmarks, others := Classify(lines);
    var existing := CollectNames(statics + benchmarks);
    var accepted, addedCount := AcceptPolicies(existing, policies);
    if addedCount == 0 {
      return content;
    }
    statics := statics + accepted;
    var newLines := statics + [""] + comments + benchmarks;
    ghost var prefix := newLines;
    OthersNonBlank(lines);
    for i := 0 to |others|
      invariant newLines == prefix + others[..i]
    {
      TakeSnoc(others, i);
      if Strip(others[i]) != "" {
        newLines := newLines + [others[i]];
      }
    }
    TakeAll(others);
    return Join(newLines);
  }

  /** The loop filling the four buckets. */
  method Classify(lines: seq<string>) returns (comments: seq<string>, statics: seq<string>,
                                               benchmarks: seq<string>, others: seq<string>)
    ensures comments == Bucket(lines, Comment) && statics == Bucket(lines, Static)
    ensures benchmarks == Bucket(lines, Benchmark) && others == Bucket(lines, OtherLine)
  {
    ghost var ls := ClassifyAll(lines);
    ClassifyAllClassified(lines);
    comments, statics, benchmarks, others := [], [], [], [];
    for i := 0 to |lines|
      invariant comments == OfKind(ls[..i], Comment) && statics == OfKind(ls[..i], Static)
      invariant benchmarks == OfKind(ls[..i], Benchmark) && others == OfKind(ls[..i], OtherLine)
    {
      TakeTake(ls, i);
      var t := Strip(lines[i]);
      if StartsWith(t, "#") {
        comments := comments + [lines[i]];
      } else if StartsWith(t, "static=") {
        statics := statics + [lines[i]];
      } else if StartsWith(t, "url-latency-benchmark=") {
        benchmarks := benchmarks + [lines[i]];
      } else if t != "" {
        others := others + [lines[i]];
      }
    }
    TakeAll(ls);
  }

  /** The loop collecting existing_policy_names. */
  method CollectNames(lines: seq<string>) returns (names: set<string>)
    ensures names == DefinedNames(lines)
  {
    names := {};
    for i := 0 to |lines|
      invariant names == DefinedNames(lines[..i])
    {
      TakeTake(lines, i);
      var d := DefinedName(lines[i]);
      if d.Some? {
        names := names + {d.value};
      }
    }
    TakeAll(lines);
  }

  /** The loop over the personal policies. */
  method AcceptPolicies(names: set<string>, policies: seq<Item>) returns (accepted: seq<string>, addedCount: nat)
    ensures accepted == Accepted(names, policies)
    ensures addedCount == |accepted|
  {
    accepted := [];
    addedCount := 0;
    var existing := names;
    ghost var acc: seq<Candidate> := [];
    for k := 0 to |policies|
      invariant acc == Accept(names, Candidates(policies[..k]))
      invariant accepted == Texts(acc)
      invariant existing == names + NamesOf(acc)
      invariant addedCount == |accepted|
    {
      AcceptStep(names, policies, k);
      ghost var c := CandidateOf(policies[k]);
      ghost var take := Takes(existing, c);
      NamesOfSnoc(acc, c);
      TextsSnoc(acc, c);
      accepted, existing, addedCount := ConsiderPolicy(policies[k], accepted, existing, addedCount);
      acc := if take then acc + [c] else acc;
    }
    TakeAll(policies);
  }

  /** One pass of the loop body: a string policy, stripped, whose static
      group is not yet known is appended and its group becomes known. */
  method ConsiderPolicy(policy: Item, accepted: seq<string>, existing: set<string>, addedCount: nat)
    returns (accepted': seq<string>, existing': set<string>, addedCount': nat)
    ensures var c := CandidateOf(policy);
      if Takes(existing, c) then
        accepted' == accepted + [c.line] && existing' == existing + {c.name.value} && addedCount' == addedCount + 1
      else
        accepted' == accepted && existing' == existing && addedCount' == addedCount
  {
    accepted', existing', addedCount' := accepted, existing, addedCount;
    if policy.Str? {
      var t := Strip(policy.s);
      var m := GroupName(t, "static=");
      if m.Some? && m.value !in existing {
        accepted' := accepted + [t];
        existing' := existing + {m.value};
        addedCount' := addedCount + 1;
      }
    }
  }

  /** Whether a candidate names a static group that is not yet known. */
  predicate Takes(known: set<string>, c: Candidate) {
    c.name.Some? && c.name.value !in known
  }

  /** Accepting one more policy: its candidate is added exactly when it
      names a group neither defined nor accepted before. */
  lemma AcceptStep(names: set<string>, policies: seq<Item>, k: nat)
    requires k < |policies|
    ensures var prev := Accept(names, Candidates(policies[..k]));
      var c := CandidateOf(policies[k]);
      Accept(names, Candidates(policies[..k + 1])) ==
        if Takes(names + NamesOf(prev), c) then prev + [c] else prev
  {
    CandidatesSnoc(policies, k);
    AcceptSnoc(names, Candidates(policies[..k]), CandidateOf(policies[k]));
  }

  lemma CandidatesSnoc(policies: seq<Item>, k: nat)
    requires k < |policies|
    ensures Candidates(policies[..k + 1]) == Candidates(policies[..k]) + [CandidateOf(policies[k])]
  {
    TakeTake(policies, k);
  }

  lemma AcceptSnoc(names: set<string>, cs: seq<Candidate>, c: Candidate)
    ensures Accept(names, cs + [c]) ==
      if c.name.Some? && c.name.value !in names + NamesOf(Accept(names, cs)) then Accept(names, cs) + [c]
      else Accept(names, cs)
  {
    SnocInit(cs, c);
  }

  lemma NamesOfSnoc(cs: seq<Candidate>, c: Candidate)
    ensures NamesOf(cs + [c]) == NamesOf(cs) + (if c.name.Some? then {c.name.value} else {})
  {
    SnocInit(cs, c);
  }

  lemma TextsSnoc(cs: seq<Candidate>, c: Candidate)
    ensures Texts(cs + [c]) == Texts(cs) + [c.line]
  {
    SnocInit(cs, c);
  }

  predicate Classified(ls: seq<PolicyLine>) {
    forall i :: 0 <= i < |ls| ==> ls[i].kind == KindOf(ls[i].raw)
  }

  lemma {:induction false} ClassifyAllClassified(lines: seq<string>)
    ensures Classified(ClassifyAll(lines))
    decreases |lines|
  {
    if lines != [] {
      ClassifyAllClassified(lines[..|lines| - 1]);
    }
  }

  /** Every line of a bucket has that bucket's kind. */
  lemma {:induction false} OfKindAll(ls: seq<PolicyLine>, k: Kind)
    requires Classified(ls)
    ensures forall i :: 0 <= i < |OfKind(ls, k)| ==> KindOf(OfKind(ls, k)[i]) == k
    decreases |ls|
  {
    if ls != [] {
      OfKindAll(ls[..|ls| - 1], k);
    }
  }

  lemma OfKindSnoc(ls: seq<PolicyLine>, x: PolicyLine, k: Kind)
    ensures OfKind(ls + [x], k) == OfKind(ls, k) + (if x.kind == k then [x.raw] else [])
  {
    SnocInit(ls, x);
  }

  /** The buckets split the body: every line is in exactly one bucket. */
  lemma {:induction false} PartitionLines(lines: seq<string>)
    ensures var ls := ClassifyAll(lines);
      multiset(OfKind(ls, Static)) + multiset(OfKind(ls, Comment)) + multiset(OfKind(ls, Benchmark))
      + multiset(OfKind(ls, OtherLine)) + multiset(OfKind(ls, Blank)) == multiset(lines)
    decreases |lines|
  {
    if lines != [] {
      var init := lines[..|lines| - 1];
      var x := lines[|lines| - 1];
      var ls := ClassifyAll(lines);
      PartitionLines(init);
      InitLast(lines);
      SnocInit(ClassifyAll(init), PolicyLine(x, KindOf(x)));
      var ci := ClassifyAll(init);
      var s, c, b, o, l := OfKind(ci, Static), OfKind(ci, Comment), OfKind(ci, Benchmark), OfKind(ci, OtherLine), OfKind(ci, Blank);
      MultisetStep(s, c, b, o, l, x, KindOf(x));
    }
  }

  lemma MultisetStep(s: seq<string>, c: seq<string>, b: seq<string>, o: seq<string>, l: seq<string>,
                     x: string, k: Kind)
    ensures multiset(s + (if k == Static then [x] else [])) + multiset(c + (if k == Comment then [x] else []))
          + multiset(b + (if k == Benchmark then [x] else [])) + multiset(o + (if k == OtherLine then [x] else []))
          + multiset(l + (if k == Blank then [x] else []))
         == multiset(s) + multiset(c) + multiset(b) + multiset(o) + multiset(l) + multiset{x}
  {
  }

  /** The four kept buckets and the blank lines hold every line of the body
      exactly once: regrouping loses nothing but blank lines. */
  lemma Partition(lines: seq<string>)
    ensures multiset(Bucket(lines, Static)) + multiset(Bucket(lines, Comment)) + multiset(Bucket(lines, Benchmark))
          + multiset(Bucket(lines, OtherLine)) + multiset(Bucket(lines, Blank)) == multiset(lines)
  {
    PartitionLines(lines);
  }

  lemma OthersNonBlank(lines: seq<string>)
    ensures forall i :: 0 <= i < |Bucket(lines, OtherLine)| ==> Strip(Bucket(lines, OtherLine)[i]) != ""
  {
    ClassifyAllClassified(lines);
    OfKindAll(ClassifyAll(lines), OtherLine);
  }

  /** The only lines dropped are blank. */
  lemma BlankBucket(lines: seq<string>)
    ensures forall i :: 0 <= i < |Bucket(lines, Blank)| ==> Strip(Bucket(lines, Blank)[i]) == ""
  {
    ClassifyAllClassified(lines);
    OfKindAll(ClassifyAll(lines), Blank);
  }

  lemma {:induction false} OfKindAppend(a: seq<PolicyLine>, b: seq<PolicyLine>, k: Kind)
    ensures OfKind(a + b, k) == OfKind(a, k) + OfKind(b, k)
    decreases |b|
  {
    if b == [] {
      assert a + b == a;
    } else {
      var b' := b[..|b| - 1];
      AppendInit(a, b);
      OfKindAppend(a, b', k);
    }
  }

  lemma {:induction false} ClassifyAllAppend(a: seq<string>, b: seq<string>)
    ensures ClassifyAll(a + b) == ClassifyAll(a) + ClassifyAll(b)
    decreases |b|
  {
    if b == [] {
      assert a + b == a;
    } else {
      var b' := b[..|b| - 1];
      AppendInit(a, b);
      ClassifyAllAppend(a, b');
    }
  }

  /** The buckets of a + b are those of a followed by those of b. */
  lemma BucketAppend(a: seq<string>, b: seq<string>, k: Kind)
    ensures Bucket(a + b, k) == Bucket(a, k) + Bucket(b, k)
  {
    ClassifyAllAppend(a, b);
    OfKindAppend(ClassifyAll(a), ClassifyAll(b), k);
  }

  /** Lines that all have kind j contribute to bucket k only when j == k. */
  lemma {:induction false} BucketUniform(lines: seq<string>, j: Kind, k: Kind)
    requires forall i :: 0 <= i < |lines| ==> KindOf(lines[i]) == j
    ensures Bucket(lines, k) == if j == k then lines else []
    decreases |lines|
  {
    if lines != [] {
      var init := lines[..|lines| - 1];
      BucketUniform(init, j, k);
      InitLast(lines);
      BucketAppend(init, [lines[|lines| - 1]], k);
      assert ClassifyAll([lines[|lines| - 1]]) == [PolicyLine(lines[|lines| - 1], j)];
      OfKindSnoc([], PolicyLine(lines[|lines| - 1], j), k);
    }
  }

  /** Every accepted candidate names a group that was not defined, no group
      is accepted twice, and the accepted candidates are some of the given
      ones, in their order. */
  lemma {:induction false} AcceptFacts(names: set<string>, cs: seq<Candidate>)
    ensures forall i :: 0 <= i < |Accept(names, cs)| ==>
      Accept(names, cs)[i].name.Some? && Accept(names, cs)[i].name.value !in names
    ensures forall i, j :: 0 <= i < j < |Accept(names, cs)| ==> Accept(names, cs)[i].name != Accept(names, cs)[j].name
    ensures multiset(Accept(names, cs)) <= multiset(cs)
    decreases |cs|
  {
    if cs != [] {
      var init := cs[..|cs| - 1];
      var c := cs[|cs| - 1];
      var prev := Accept(names, init);
      AcceptFacts(names, init);
      InitLast(cs);
      if Accept(names, cs) != prev {
        var a := prev + [c];
        assert forall i :: 0 <= i < |prev| ==> a[i] == prev[i];
        NamesOfMember(prev, c.name.value);
      }
    }
  }

  lemma {:induction false} NamesOfMember(cs: seq<Candidate>, n: string)
    ensures n in NamesOf(cs) <==> exists i :: 0 <= i < |cs| && cs[i].name == Some(n)
    decreases |cs|
  {
    if cs != [] {
      var init := cs[..|cs| - 1];
      NamesOfMember(init, n);
      assert forall i :: 0 <= i < |init| ==> init[i] == cs[i];
    }
  }

  /** A group is accepted exactly when some candidate names it and it was
      not defined already. */
  lemma {:induction false} AcceptMember(names: set<string>, cs: seq<Candidate>, n: string)
    ensures n in NamesOf(Accept(names, cs)) <==>
      n !in names && exists k :: 0 <= k < |cs| && cs[k].name == Some(n)
    decreases |cs|
  {
    if cs != [] {
      var init := cs[..|cs| - 1];
      var c := cs[|cs| - 1];
      var prev := Accept(names, init);
      AcceptMember(names, init, n);
      assert forall k :: 0 <= k < |init| ==> init[k] == cs[k];
      if Accept(names, cs) != prev {
        NamesOfSnoc(prev, c);
      }
    }
  }

  /** The candidate at each position is that of the policy there. */
  lemma {:induction false} CandidatesAt(policies: seq<Item>, k: nat)
    requires k < |policies|
    ensures Candidates(policies)[k] == CandidateOf(policies[k])
    decreases |policies|
  {
    if k < |policies| - 1 {
      CandidatesAt(policies[..|policies| - 1], k);
    }
  }

  /** A personal policy group is added exactly when some string policy,
      stripped, reads static=NAME, with NAME not defined in the body. */
  lemma AcceptedGroup(names: set<string>, policies: seq<Item>, n: string)
    ensures n in NamesOf(Accept(names, Candidates(policies))) <==>
      n !in names &&
      exists k :: 0 <= k < |policies| && policies[k].Str? && GroupName(Strip(policies[k].s), "static=") == Some(n)
  {
    var cs := Candidates(policies);
    AcceptMember(names, cs, n);
    forall k | 0 <= k < |policies|
      ensures cs[k].name == Some(n) <==> policies[k].Str? && GroupName(Strip(policies[k].s), "static=") == Some(n)
    {
      CandidatesAt(policies, k);
    }
  }

  /** Every line of a run has the given kind. */
  predicate AllKind(lines: seq<string>, k: Kind) {
    forall i :: 0 <= i < |lines| ==> KindOf(lines[i]) == k
  }

  lemma BucketKind(lines: seq<string>, k: Kind)
    ensures AllKind(Bucket(lines, k), k)
  {
    ClassifyAllClassified(lines);
    OfKindAll(ClassifyAll(lines), k);
  }

  lemma {:induction false} OfKindNoNewline(ls: seq<PolicyLine>, k: Kind)
    requires forall j :: 0 <= j < |ls| ==> '\n' !in ls[j].raw
    ensures NoNewline(OfKind(ls, k))
    decreases |ls|
  {
    if ls != [] {
      var init := ls[..|ls| - 1];
      assert forall j :: 0 <= j < |init| ==> init[j] == ls[j];
      OfKindNoNewline(init, k);
    }
  }

  /** The buckets of a split body are free of newlines. */
  lemma BucketNoNewline(content: string, k: Kind)
    ensures NoNewline(Bucket(Split(content), k))
  {
    OfKindNoNewline(ClassifyAll(Split(content)), k);
  }

  /** A candidate that names a group is the stripped text of a string policy
      reading static=NAME,: it goes to the static bucket, it defines NAME, and
      it spans one line when the policy does. */
  lemma NamedCandidate(item: Item)
    requires CandidateOf(item).name.Some?
    ensures item.Str?
    ensures KindOf(CandidateOf(item).line) == Static
    ensures DefinedName(CandidateOf(item).line) == CandidateOf(item).name
    ensures '\n' !in item.s ==> '\n' !in CandidateOf(item).line
  {
    var t := Strip(item.s);
    assert CandidateOf(item) == Candidate(t, GroupName(t, "static="));
    StripIdempotent(item.s);
    StaticKind(t);
    if '\n' !in item.s {
      StripKeeps(item.s, '\n');
    }
  }

  /** A stripped line that starts with static= is a static line. */
  lemma StaticKind(t: string)
    requires Strip(t) == t && StartsWith(t, "static=")
    ensures KindOf(t) == Static
  {
    assert t[..7] == "static=";
    assert t[..1][0] == t[0] == t[..7][0];
  }

  /** Every candidate names a group, is a single static line, and defines
      that group. */
  predicate DefiningLines(acc: seq<Candidate>) {
    forall i :: 0 <= i < |acc| ==>
      && acc[i].name.Some?
      && KindOf(acc[i].line) == Static
      && DefinedName(acc[i].line) == acc[i].name
      && '\n' !in acc[i].line
  }

  /** Every accepted candidate names a group, is a static line that defines
      that group, and spans one line when the policies do. */
  lemma AcceptedLines(names: set<string>, policies: seq<Item>)
    requires forall k :: 0 <= k < |policies| && policies[k].Str? ==> '\n' !in policies[k].s
    ensures DefiningLines(Accept(names, Candidates(policies)))
  {
    var cs := Candidates(policies);
    var acc := Accept(names, cs);
    AcceptFacts(names, cs);
    forall i | 0 <= i < |acc|
      ensures acc[i].name.Some? && KindOf(acc[i].line) == Static
      ensures DefinedName(acc[i].line) == acc[i].name && '\n' !in acc[i].line
    {
      assert acc[i] in multiset(acc);
      assert acc[i] in multiset(cs);
      var k :| 0 <= k < |cs| && cs[k] == acc[i];
      CandidatesAt(policies, k);
      NamedCandidate(policies[k]);
    }
  }

  lemma {:induction false} DefinedNamesAppend(a: seq<string>, b: seq<string>)
    ensures DefinedNames(a + b) == DefinedNames(a) + DefinedNames(b)
    decreases |b|
  {
    if b == [] {
      assert a + b == a;
    } else {
      AppendInit(a, b);
      DefinedNamesAppend(a, b[..|b| - 1]);
    }
  }

  /** The accepted lines define exactly the accepted names. */
  lemma {:induction false} DefinedNamesOfTexts(acc: seq<Candidate>)
    requires forall i :: 0 <= i < |acc| ==> acc[i].name.Some? && DefinedName(acc[i].line) == acc[i].name
    ensures DefinedNames(Texts(acc)) == NamesOf(acc)
    decreases |acc|
  {
    if acc != [] {
      var init := acc[..|acc| - 1];
      assert forall i :: 0 <= i < |init| ==> init[i] == acc[i];
      DefinedNamesOfTexts(init);
      SnocInit(Texts(init), acc[|acc| - 1].line);
    }
  }

  /** After one merge every group a candidate names is known: defined in
      the body or accepted. */
  lemma DefiningNames(acc: seq<Candidate>)
    requires DefiningLines(acc)
    ensures DefinedNames(Texts(acc)) == NamesOf(acc)
  {
    DefinedNamesOfTexts(acc);
  }

  lemma NamesCovered(names: set<string>, cs: seq<Candidate>)
    ensures forall i :: 0 <= i < |cs| && cs[i].name.Some? ==>
      cs[i].name.value in names + NamesOf(Accept(names, cs))
  {
    forall i | 0 <= i < |cs| && cs[i].name.Some?
      ensures cs[i].name.value in names + NamesOf(Accept(names, cs))
    {
      AcceptMember(names, cs, cs[i].name.value);
    }
  }

  /** Nothing is accepted when every group the candidates name is known. */
  lemma {:induction false} AcceptNone(known: set<string>, cs: seq<Candidate>)
    requires forall i :: 0 <= i < |cs| && cs[i].name.Some? ==> cs[i].name.value in known
    ensures Accept(known, cs) == []
    decreases |cs|
  {
    if cs != [] {
      var init := cs[..|cs| - 1];
      assert forall i :: 0 <= i < |init| ==> init[i] == cs[i];
      AcceptNone(known, init);
    }
  }

  /** Appending a run of lines of kind j adds that run to bucket j only. */
  lemma BucketRun(p: seq<string>, x: seq<string>, j: Kind, k: Kind)
    requires AllKind(x, j)
    ensures Bucket(p + x, k) == if j == k then Bucket(p, k) + x else Bucket(p, k)
  {
    BucketAppend(p, x, k);
    BucketUniform(x, j, k);
  }

  /** The static and benchmark buckets of a regrouped body: its static lines
      with the accepted ones after them, and its benchmark lines. */
  lemma LayoutBucket(s: seq<string>, a: seq<string>, c: seq<string>, b: seq<string>, o: seq<string>, k: Kind)
    requires AllKind(s, Static) && AllKind(a, Static) && AllKind(c, Comment)
    requires AllKind(b, Benchmark) && AllKind(o, OtherLine)
    requires k == Static || k == Benchmark
    ensures Bucket(s + a + [""] + c + b + o, k) == if k == Static then s + a else b
  {
    var p1 := s + a;
    var p2 := p1 + [""];
    var p3 := p2 + c;
    var p4 := p3 + b;
    assert AllKind([""], Blank) by { assert KindOf("") == Blank; }
    if k == Static {
      BucketUniform(s, Static, Static);
      BucketRun(s, a, Static, Static);
      BucketRun(p1, [""], Blank, Static);
      BucketRun(p2, c, Comment, Static);
      BucketRun(p3, b, Benchmark, Static);
      BucketRun(p4, o, OtherLine, Static);
    } else {
      BucketUniform(s, Static, Benchmark);
      BucketRun(s, a, Static, Benchmark);
      BucketRun(p1, [""], Blank, Benchmark);
      BucketRun(p2, c, Comment, Benchmark);
      BucketRun(p3, b, Benchmark, Benchmark);
      BucketRun(p4, o, OtherLine, Benchmark);
    }
  }

  /** Merging the same policies a second time changes nothing, provided no
      policy spans several lines: every group they name is then defined by
      a static line of the first result. */
  lemma MergePoliciesIdempotent(content: string, policies: seq<Item>)
    requires forall k :: 0 <= k < |policies| && policies[k].Str? ==> '\n' !in policies[k].s
    ensures MergePolicies(MergePolicies(content, policies), policies) == MergePolicies(content, policies)
  {
    var lines := Split(content);
    var s, b := Bucket(lines, Static), Bucket(lines, Benchmark);
    var acc := Accept(DefinedNames(s + b), Candidates(policies));
    if policies != [] && Texts(acc) != [] {
      var layout := s + Texts(acc) + [""] + Bucket(lines, Comment) + b + Bucket(lines, OtherLine);
      var r := Join(layout);
      assert MergePolicies(content, policies) == r;
      ReparseLayout(content, policies);
      SecondAcceptNone(s, b, policies);
      MergeNothing(r, policies);
    }
  }

  /** Merging returns the body unchanged when nothing is accepted. */
  lemma MergeNothing(content: string, policies: seq<Item>)
    requires var lines := Split(content);
      Accepted(DefinedNames(Bucket(lines, Static) + Bucket(lines, Benchmark)), policies) == []
    ensures MergePolicies(content, policies) == content
  {
  }

  /** Splitting the regrouped body gives back its lines, with the same
      static and benchmark buckets as before plus the accepted lines. */
  lemma ReparseLayout(content: string, policies: seq<Item>)
    requires forall k :: 0 <= k < |policies| && policies[k].Str? ==> '\n' !in policies[k].s
    ensures var lines := Split(content);
      var s, b := Bucket(lines, Static), Bucket(lines, Benchmark);
      var a := Texts(Accept(DefinedNames(s + b), Candidates(policies)));
      var layout := s + a + [""] + Bucket(lines, Comment) + b + Bucket(lines, OtherLine);
      && Split(Join(layout)) == layout
      && Bucket(layout, Static) == s + a
      && Bucket(layout, Benchmark) == b
  {
    var lines := Split(content);
    var s, c, b, o := Bucket(lines, Static), Bucket(lines, Comment), Bucket(lines, Benchmark), Bucket(lines, OtherLine);
    var acc := Accept(DefinedNames(s + b), Candidates(policies));
    var a := Texts(acc);
    AcceptedLines(DefinedNames(s + b), policies);
    LayoutKinds(content, acc);
    LayoutNoNewline(content, acc);
    SplitJoin(s + a + [""] + c + b + o);
    LayoutBucket(s, a, c, b, o, Static);
    LayoutBucket(s, a, c, b, o, Benchmark);
  }

  /** After the accepted lines are added, every policy names a known group. */
  lemma SecondAcceptNone(s: seq<string>, b: seq<string>, policies: seq<Item>)
    requires forall k :: 0 <= k < |policies| && policies[k].Str? ==> '\n' !in policies[k].s
    ensures Accepted(DefinedNames(s + Texts(Accept(DefinedNames(s + b), Candidates(policies))) + b), policies) == []
  {
    var names := DefinedNames(s + b);
    var cs := Candidates(policies);
    var acc := Accept(names, cs);
    var known := DefinedNames(s + Texts(acc) + b);
    AcceptedLines(names, policies);
    NamesGrow(s, Texts(acc), b);
    DefiningNames(acc);
    assert names + NamesOf(acc) <= known;
    NamesCovered(names, cs);
    AcceptNone(known, cs);
  }

  /** Lines inserted between two runs add their names to the runs' names. */
  lemma NamesGrow(s: seq<string>, a: seq<string>, b: seq<string>)
    ensures DefinedNames(s + a + b) == DefinedNames(s + b) + DefinedNames(a)
  {
    DefinedNamesAppend(s + a, b);
    DefinedNamesAppend(s, a);
    DefinedNamesAppend(s, b);
  }

  lemma LayoutKinds(content: string, acc: seq<Candidate>)
    requires DefiningLines(acc)
    ensures var lines := Split(content);
      && AllKind(Bucket(lines, Static), Static) && AllKind(Texts(acc), Static)
      && AllKind(Bucket(lines, Comment), Comment) && AllKind(Bucket(lines, Benchmark), Benchmark)
      && AllKind(Bucket(lines, OtherLine), OtherLine)
  {
    var lines := Split(content);
    BucketKind(lines, Static);
    BucketKind(lines, Comment);
    BucketKind(lines, Benchmark);
    BucketKind(lines, OtherLine);
  }

  /** The regrouped body is free of newlines inside its lines. */
  lemma LayoutNoNewline(content: string, acc: seq<Candidate>)
    requires DefiningLines(acc)
    ensures var lines := Split(content);
      NoNewline(Bucket(lines, Static) + Texts(acc) + [""] + Bucket(lines, Comment)
                + Bucket(lines, Benchmark) + Bucket(lines, OtherLine))
  {
    var lines := Split(content);
    var s, c, b, o := Bucket(lines, Static), Bucket(lines, Comment), Bucket(lines, Benchmark), Bucket(lines, OtherLine);
    BucketNoNewline(content, Static);
    BucketNoNewline(content, Comment);
    BucketNoNewline(content, Benchmark);
    BucketNoNewline(content, OtherLine);
    NoNewlineAppend(s, Texts(acc));
    NoNewlineAppend(s + Texts(acc), [""]);
    NoNewlineAppend(s + Texts(acc) + [""], c);
    NoNewlineAppend(s + Texts(acc) + [""] + c, b);
    NoNewlineAppend(s + Texts(acc) + [""] + c + b, o);
  }
}
