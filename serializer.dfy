/** generate_final_config: emits the merged document. */
module Serializer {
  import opened Text
  import opened Sections
  import opened Config
  import opened Dedup
  import opened Mitm
  import opened Policy
  import opened Replace
  import opened Order

  /** The twelve standard sections. */
  datatype Standard =
    | General | TaskLocal | RewriteLocal | RewriteRemote | ServerLocal | ServerRemote
    | Dns | PolicySection | FilterRemote | FilterLocal | HttpBackend | MitmSection

  function SectionName(s: Standard): string {
    match s
    case General => "general"
    case TaskLocal => "task_local"
    case RewriteLocal => "rewrite_local"
    case RewriteRemote => "rewrite_remote"
    case ServerLocal => "server_local"
    case ServerRemote => "server_remote"
    case Dns => "dns"
    case PolicySection => "policy"
    case FilterRemote => "filter_remote"
    case FilterLocal => "filter_local"
    case HttpBackend => "http_backend"
    case MitmSection => "mitm"
  }

  /** The standard sections, in the order they are emitted. */
  const StandardOrder: seq<Standard> := [
    General, TaskLocal, RewriteLocal, RewriteRemote, ServerLocal, ServerRemote,
    Dns, PolicySection, FilterRemote, FilterLocal, HttpBackend, MitmSection]

  /** Their names, in that order. */
  const StandardNames: seq<string> := [
    "general", "task_local", "rewrite_local", "rewrite_remote", "server_local", "server_remote",
    "dns", "policy", "filter_remote", "filter_local", "http_backend", "mitm"]

  /** The comment lines that open the document; the generation time and
      the remote URL are given. */
  function HeaderLines(timestamp: string, url: string): seq<string> {
    ["# QuantumultX 配置文件", "# 生成时间: " + timestamp, "# 基于: " + url, "# 配置来源: 青龙面板环境变量", ""]
  }

  /** The personal items merged into a section by add_config_items, for the
      six sections that take them. */
  function ItemsOf(sec: Standard, cfg: PersonalConfig): Option<seq<Item>> {
    match sec
    case RewriteRemote => Some(cfg.rewriteRemote)
    case RewriteLocal => Some(cfg.rewriteLocal)
    case ServerRemote => Some(cfg.serverRemote)
    case Dns => Some(cfg.dns)
    case FilterRemote => Some(cfg.filterRemote)
    case FilterLocal => Some(cfg.filterLocal)
    case _ => None
  }

  /** The body of a standard section once the personal configuration is
      merged in; the sections without a merge step pass through. */
  function MergeStandard(sec: Standard, body: string, cfg: PersonalConfig): string {
    if sec == MitmSection then PatchMitm(body, cfg.passphrase, cfg.p12)
    else if sec == PolicySection then MergePolicies(body, cfg.policies)
    else if ItemsOf(sec, cfg).Some? then AddItems(body, ItemsOf(sec, cfg).value)
    else body
  }

  /** A standard or parsed section: its header, its body unless blank, and an empty line. */
  function Block(name: string, body: string): seq<string> {
    ["[" + name + "]"] + (if Strip(body) != "" then [body] else []) + [""]
  }

  /** A custom section: its header, its body (joined when a list, absent
      when neither a string nor a list), and an empty line. */
  function CustomBlock(name: string, body: CustomBody): seq<string> {
    ["[" + name + "]"]
    + (match body
       case Body(s) => [s]
       case Lines(ls) => [Join(ls)]
       case Other => [])
    + [""]
  }

  /** The block of one standard section. */
  function StandardBlock(sec: Standard, sections: seq<Entry>, cfg: PersonalConfig): seq<string> {
    var n := SectionName(sec);
    Block(n, MergeStandard(sec, Get(sections, n, ""), cfg))
  }

  function StandardParts(order: seq<Standard>, sections: seq<Entry>, cfg: PersonalConfig): seq<string>
    decreases |order|
  {
    if order == [] then []
    else StandardParts(order[..|order| - 1], sections, cfg) + StandardBlock(order[|order| - 1], sections, cfg)
  }

  /** The parsed names that are not standard, in document order. */
  function ExtraNames(names: seq<string>): seq<string>
    decreases |names|
  {
    if names == [] then []
    else
      var n := names[|names| - 1];
      ExtraNames(names[..|names| - 1]) + (if n in StandardNames then [] else [n])
  }

  function ExtraParts(names: seq<string>, sections: seq<Entry>): seq<string>
    decreases |names|
  {
    if names == [] then []
    else
      var n := names[|names| - 1];
      ExtraParts(names[..|names| - 1], sections) + Block(n, Get(sections, n, ""))
  }

  function CustomParts(customs: seq<(string, CustomBody)>, parsed: seq<string>): seq<string>
    decreases |customs|
  {
    if customs == [] then []
    else
      var c := customs[|customs| - 1];
      CustomParts(customs[..|customs| - 1], parsed) + (if c.0 in parsed then [] else CustomBlock(c.0, c.1))
  }

  /** The lines of the document before the replacements. */
  function Parts(sections: seq<Entry>, cfg: PersonalConfig, timestamp: string, url: string): seq<string> {
    HeaderLines(timestamp, url)
    + StandardParts(StandardOrder, sections, cfg)
    + ExtraParts(Sort(ExtraNames(Names(sections))), sections)
    + CustomParts(cfg.customSections, Names(sections))
  }

  /** The document generate_final_config returns. */
  function GenerateConfig(sections: seq<Entry>, cfg: PersonalConfig, timestamp: string, url: string): string {
    ApplyAll(Join(Parts(sections, cfg, timestamp, url)), cfg.replacements)
  }

  method GenerateFinalConfig(sections: seq<Entry>, cfg: PersonalConfig, timestamp: string, url: string)
    returns (out: string)
    ensures out == GenerateConfig(sections, cfg, timestamp, url)
  {
    var parts := HeaderLines(timestamp, url);
    parts := EmitStandard(parts, StandardOrder, sections, cfg);
    var all := Names(sections);
    var extra := Sort(ExtraNames(all));
    parts := EmitExtra(parts, extra, sections);
    parts := EmitCustom(parts, cfg.customSections, all);
    var full := Join(parts);
    out := ApplyGlobalReplacements(full, cfg.replacements);
  }

  /** The loop over the standard sections, given in their fixed order. */
  method EmitStandard(head: seq<string>, order: seq<Standard>, sections: seq<Entry>, cfg: PersonalConfig)
    returns (parts: seq<string>)
    ensures parts == head + StandardParts(order, sections, cfg)
  {
    parts := head;
    for i := 0 to |order|
      invariant parts == head + StandardParts(order[..i], sections, cfg)
    {
      parts := EmitSection(parts, order[i], sections, cfg);
      AppendAssoc(head, StandardParts(order[..i], sections, cfg), StandardBlock(order[i], sections, cfg));
      StandardPartsSnoc(order[..i], order[i], sections, cfg);
      TakeSnoc(order, i);
    }
    TakeAll(order);
  }

  /** One standard section: its body looked up, merged and emitted. */
  method EmitSection(head: seq<string>, sec: Standard, sections: seq<Entry>, cfg: PersonalConfig)
    returns (parts: seq<string>)
    ensures parts == head + StandardBlock(sec, sections, cfg)
  {
    var name := SectionName(sec);
    var content := Get(sections, name, "");
    content := MergeSection(sec, content, cfg);
    parts := EmitBlock(head, name, content);
  }

  /** The three appends of one standard or parsed section. */
  method EmitBlock(head: seq<string>, name: string, content: string) returns (parts: seq<string>)
    ensures parts == head + Block(name, content)
  {
    parts := head + ["[" + name + "]"];
    if Strip(content) != "" {
      parts := parts + [content];
    }
    parts := parts + [""];
  }

  lemma StandardPartsSnoc(order: seq<Standard>, sec: Standard, sections: seq<Entry>, cfg: PersonalConfig)
    ensures StandardParts(order + [sec], sections, cfg) ==
      StandardParts(order, sections, cfg) + StandardBlock(sec, sections, cfg)
  {
    SnocInit(order, sec);
  }

  lemma ExtraPartsSnoc(names: seq<string>, n: string, sections: seq<Entry>)
    ensures ExtraParts(names + [n], sections) == ExtraParts(names, sections) + Block(n, Get(sections, n, ""))
  {
    SnocInit(names, n);
  }

  /** The loop over the sorted non-standard parsed sections. */
  method EmitExtra(head: seq<string>, extra: seq<string>, sections: seq<Entry>) returns (parts: seq<string>)
    ensures parts == head + ExtraParts(extra, sections)
  {
    parts := head;
    for i := 0 to |extra|
      invariant parts == head + ExtraParts(extra[..i], sections)
    {
      var content := Get(sections, extra[i], "");
      parts := EmitBlock(parts, extra[i], content);
      AppendAssoc(head, ExtraParts(extra[..i], sections), Block(extra[i], content));
      ExtraPartsSnoc(extra[..i], extra[i], sections);
      TakeSnoc(extra, i);
    }
    TakeAll(extra);
  }

  /** The loop over the custom sections of the personal configuration. */
  method EmitCustom(head: seq<string>, customs: seq<(string, CustomBody)>, all: seq<string>) returns (parts: seq<string>)
    ensures parts == head + CustomParts(customs, all)
  {
    parts := head;
    for i := 0 to |customs|
      invariant parts == head + CustomParts(customs[..i], all)
    {
      var (name, content) := customs[i];
      ghost var block := if name in all then [] else CustomBlock(name, content);
      if name !in all {
        parts := EmitCustomBlock(parts, name, content);
      } else {
        assert parts == parts + block;
      }
      AppendAssoc(head, CustomParts(customs[..i], all), block);
      CustomPartsSnoc(customs[..i], customs[i], all);
      TakeSnoc(customs, i);
    }
    TakeAll(customs);
  }

  /** The appends of one custom section. */
  method EmitCustomBlock(head: seq<string>, name: string, content: CustomBody) returns (parts: seq<string>)
    ensures parts == head + CustomBlock(name, content)
  {
    parts := head + ["[" + name + "]"];
    match content {
      case Lines(ls) => parts := parts + [Join(ls)];
      case Body(s) => parts := parts + [s];
      case Other =>
    }
    parts := parts + [""];
  }

  lemma CustomPartsSnoc(customs: seq<(string, CustomBody)>, c: (string, CustomBody), parsed: seq<string>)
    ensures CustomParts(customs + [c], parsed) ==
      CustomParts(customs, parsed) + (if c.0 in parsed then [] else CustomBlock(c.0, c.1))
  {
    SnocInit(customs, c);
  }

  /** The per-section dispatch. */
  method MergeSection(sec: Standard, content: string, cfg: PersonalConfig) returns (r: string)
    ensures r == MergeStandard(sec, content, cfg)
  {
    match sec {
      case MitmSection => r := UpdateMitmSection(content, cfg.passphrase, cfg.p12);
      case RewriteRemote => r := AddConfigItems(content, cfg.rewriteRemote);
      case RewriteLocal => r := AddConfigItems(content, cfg.rewriteLocal);
      case ServerRemote => r := AddConfigItems(content, cfg.serverRemote);
      case PolicySection => r := AddPersonalPoliciesSmart(content, cfg.policies);
      case Dns => r := AddConfigItems(content, cfg.dns);
      case FilterRemote => r := AddConfigItems(content, cfg.filterRemote);
      case FilterLocal => r := AddConfigItems(content, cfg.filterLocal);
      case General => r := content;
      case TaskLocal => r := content;
      case ServerLocal => r := content;
      case HttpBackend => r := content;
    }
  }

  /** The order and the names agree: the i-th standard section is named
      StandardNames[i]. */
  lemma StandardNamesInOrder()
    ensures |StandardNames| == |StandardOrder|
    ensures forall i :: 0 <= i < |StandardOrder| ==> SectionName(StandardOrder[i]) == StandardNames[i]
  {
  }

  /** The non-standard names are exactly the parsed names outside the twelve. */
  lemma {:induction false} ExtraNamesMember(names: seq<string>, n: string)
    ensures n in ExtraNames(names) <==> n in names && n !in StandardNames
    decreases |names|
  {
    if names != [] {
      var init := names[..|names| - 1];
      ExtraNamesMember(init, n);
      InitLast(names);
    }
  }

  lemma {:induction false} ExtraNamesDistinct(names: seq<string>)
    requires Distinct(names)
    ensures Distinct(ExtraNames(names))
    decreases |names|
  {
    if names != [] {
      var init := names[..|names| - 1];
      var last := names[|names| - 1];
      assert Distinct(init) by {
        assert forall i :: 0 <= i < |init| ==> init[i] == names[i];
      }
      ExtraNamesDistinct(init);
      var e := ExtraNames(init);
      forall i | 0 <= i < |e|
        ensures e[i] != last
      {
        ExtraNamesMember(init, e[i]);
      }
    }
  }

  /** The extra sections come out sorted, one block per non-standard parsed
      name, whatever the order of the document. */
  lemma ExtraOrder(names: seq<string>, n: string)
    ensures Sorted(Sort(ExtraNames(names)))
    ensures n in Sort(ExtraNames(names)) <==> n in names && n !in StandardNames
  {
    SortFacts(ExtraNames(names));
    ExtraNamesMember(names, n);
    assert n in Sort(ExtraNames(names)) <==> n in multiset(Sort(ExtraNames(names)));
  }
}
