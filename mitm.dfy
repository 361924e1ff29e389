/** update_mitm_section: writes the personal certificate into the [mitm]
    body, rewriting the existing passphrase/p12 lines or inserting them. */
module Mitm {
  import opened Text
  import opened Config

  /** A list field is replaced by its first element ("" when empty); then
      the value is stripped. */
  function Normalize(f: CertField): string {
    match f
    case Scalar(s) => Strip(s)
    case List(elems) => if elems == [] then "" else Strip(elems[0])
  }

  /** re.match(key + r'\s*=', s): the key, optional whitespace, then '='. */
  predicate KeyAt(s: string, key: string) {
    StartsWith(s, key) &&
    var u := s[|key|..];
    LeadingSpaces(u) < |u| && u[LeadingSpaces(u)] == '='
  }

  /** re.search('^' + key + r'\s*=', content, re.MULTILINE): the key opens
      the content or follows a newline. */
  predicate HasKey(content: string, key: string) {
    exists p :: 0 <= p <= |content| && (p == 0 || content[p - 1] == '\n') && KeyAt(content[p..], key)
  }

  function PassphraseLine(pp: string): string {
    "passphrase = " + pp
  }

  function P12Line(q: string): string {
    "p12 = " + q
  }

  predicate IsPassphraseLine(line: string) {
    StartsWith(Strip(line), "passphrase =")
  }

  predicate IsP12Line(line: string) {
    StartsWith(Strip(line), "p12 =")
  }

  predicate IsHostnameLine(line: string) {
    StartsWith(Strip(line), "hostname =")
  }

  /** One line of the rewrite used when both keys are present. */
  function Rewrite(line: string, pp: string, q: string): string {
    if IsPassphraseLine(line) then PassphraseLine(pp)
    else if IsP12Line(line) then P12Line(q)
    else line
  }

  function RewriteAll(lines: seq<string>, pp: string, q: string): (r: seq<string>)
    ensures |r| == |lines|
    decreases |lines|
  {
    if lines == [] then []
    else RewriteAll(lines[..|lines| - 1], pp, q) + [Rewrite(lines[|lines| - 1], pp, q)]
  }

  /** The certificate lines inserted after a hostname line: only those for
      the keys that were not found. */
  function Missing(pp: string, q: string, hasPassphrase: bool, hasP12: bool): seq<string> {
    (if hasPassphrase then [] else [PassphraseLine(pp)]) + (if hasP12 then [] else [P12Line(q)])
  }

  /** Each line, followed by the missing certificate lines when it is a
      hostname line. */
  function Expand(lines: seq<string>, extra: seq<string>): seq<string>
    decreases |lines|
  {
    if lines == [] then []
    else
      var last := lines[|lines| - 1];
      Expand(lines[..|lines| - 1], extra) + [last] + (if IsHostnameLine(last) then extra else [])
  }

  predicate MentionsHostname(lines: seq<string>) {
    exists i :: 0 <= i < |lines| && Contains(lines[i], "hostname =")
  }

  /** The lines produced when a key is missing: the expansion, and both
      certificate lines at the end when no resulting line mentions a hostname. */
  function InsertCertificate(lines: seq<string>, pp: string, q: string, hasPassphrase: bool, hasP12: bool): seq<string> {
    var r := Expand(lines, Missing(pp, q, hasPassphrase, hasP12));
    if MentionsHostname(r) then r else r + [PassphraseLine(pp), P12Line(q)]
  }

  /** The body update_mitm_section returns. */
  function PatchMitm(content: string, passphrase: CertField, p12: CertField): string {
    var pp := Normalize(passphrase);
    var q := Normalize(p12);
    if pp == "" || q == "" then content
    else
      var hasPassphrase := HasKey(content, "passphrase");
      var hasP12 := HasKey(content, "p12");
      if hasPassphrase && hasP12 then Join(RewriteAll(Split(content), pp, q))
      else Join(InsertCertificate(Split(content), pp, q, hasPassphrase, hasP12))
  }

  method UpdateMitmSection(content: string, passphrase: CertField, p12: CertField) returns (r: string)
    ensures r == PatchMitm(content, passphrase, p12)
  {
    var pp := Normalize(passphrase);
    var q := Normalize(p12);
    if pp == "" || q == "" {
      return content;
    }
    var hasPassphrase := HasKey(content, "passphrase");
    var hasP12 := HasKey(content, "p12");
    var lines := Split(content);
    if hasPassphrase && hasP12 {
      var updated := ReplaceCertificateLines(lines, pp, q);
      return Join(updated);
    }
    var result := InsertAfterHostname(lines, pp, q, hasPassphrase, hasP12);
    var mentioned := AnyMentionsHostname(result);
    if !mentioned {
      result := result + ["passphrase = " + pp, "p12 = " + q];
    }
    return Join(result);
  }

  /** The loop building updated_lines. */
  method ReplaceCertificateLines(lines: seq<string>, pp: string, q: string) returns (updated: seq<string>)
    ensures updated == RewriteAll(lines, pp, q)
  {
    updated := [];
    for i := 0 to |lines|
      invariant updated == RewriteAll(lines[..i], pp, q)
    {
      TakeTake(lines, i);
      var t := Strip(lines[i]);
      if StartsWith(t, "passphrase =") {
        updated := updated + ["passphrase = " + pp];
      } else if StartsWith(t, "p12 =") {
        updated := updated + ["p12 = " + q];
      } else {
        updated := updated + [lines[i]];
      }
    }
    TakeAll(lines);
  }

  /** The loop building result_lines. */
  method InsertAfterHostname(lines: seq<string>, pp: string, q: string, hasPassphrase: bool, hasP12: bool)
    returns (result: seq<string>)
    ensures result == Expand(lines, Missing(pp, q, hasPassphrase, hasP12))
  {
    ghost var extra := Missing(pp, q, hasPassphrase, hasP12);
    result := [];
    for i := 0 to |lines|
      invariant result == Expand(lines[..i], extra)
    {
      TakeTake(lines, i);
      result := result + [lines[i]];
      if StartsWith(Strip(lines[i]), "hostname =") {
        if !hasPassphrase {
          result := result + ["passphrase = " + pp];
        }
        if !hasP12 {
          result := result + ["p12 = " + q];
        }
      }
    }
    TakeAll(lines);
  }

  /** any('hostname =' in line for line in result_lines) */
  method AnyMentionsHostname(lines: seq<string>) returns (mentioned: bool)
    ensures mentioned == MentionsHostname(lines)
  {
    mentioned := false;
    for j := 0 to |lines|
      invariant mentioned <==> exists k :: 0 <= k < j && Contains(lines[k], "hostname =")
    {
      if Contains(lines[j], "hostname =") {
        mentioned := true;
      }
    }
  }

  /** A list contributes its first element, treated like a scalar; the
      normalised value never starts or ends with whitespace. */
  lemma NormalizeFacts(f: CertField)
    ensures f.List? && f.elems == [] ==> Normalize(f) == ""
    ensures f.List? && f.elems != [] ==> Normalize(f) == Normalize(Scalar(f.elems[0]))
    ensures var n := Normalize(f); n != [] ==> !IsSpace(n[0]) && !IsSpace(n[|n| - 1])
  {
    match f
    case Scalar(s) => StripEnds(s);
    case List(elems) => if elems != [] { StripEnds(elems[0]); }
  }

  /** An incomplete certificate leaves the body untouched. */
  lemma IncompleteUnchanged(content: string, passphrase: CertField, p12: CertField)
    requires Normalize(passphrase) == "" || Normalize(p12) == ""
    ensures PatchMitm(content, passphrase, p12) == content
  {
  }

  lemma {:induction false} RewriteAllLines(lines: seq<string>, pp: string, q: string)
    ensures |RewriteAll(lines, pp, q)| == |lines|
    ensures forall i :: 0 <= i < |lines| ==>
      RewriteAll(lines, pp, q)[i] ==
        if IsPassphraseLine(lines[i]) then PassphraseLine(pp)
        else if IsP12Line(lines[i]) then P12Line(q)
        else lines[i]
  {
    forall i | 0 <= i < |lines|
      ensures RewriteAll(lines, pp, q)[i] == Rewrite(lines[i], pp, q)
    {
      RewriteAllAt(lines, pp, q, i);
    }
  }

  lemma {:induction false} RewriteAllAt(lines: seq<string>, pp: string, q: string, i: nat)
    requires i < |lines|
    ensures RewriteAll(lines, pp, q)[i] == Rewrite(lines[i], pp, q)
    decreases |lines|
  {
    var init := lines[..|lines| - 1];
    if i < |init| {
      assert init[i] == lines[i];
      RewriteAllAt(init, pp, q, i);
    }
  }

  lemma {:induction false} RewriteAllNoNewline(lines: seq<string>, pp: string, q: string)
    requires NoNewline(lines) && '\n' !in pp && '\n' !in q
    ensures NoNewline(RewriteAll(lines, pp, q))
  {
    forall i | 0 <= i < |lines|
      ensures '\n' !in RewriteAll(lines, pp, q)[i]
    {
      RewriteAllAt(lines, pp, q, i);
      assert '\n' !in lines[i];
    }
  }

  /** With both keys present, every line is kept in place: passphrase lines
      and p12 lines take the new values, all others are unchanged, and the
      body keeps its number of lines. */
  lemma BothKeysRewrite(content: string, passphrase: CertField, p12: CertField)
    requires Normalize(passphrase) != "" && Normalize(p12) != ""
    requires '\n' !in Normalize(passphrase) && '\n' !in Normalize(p12)
    requires HasKey(content, "passphrase") && HasKey(content, "p12")
    ensures var lines := Split(content);
      var out := Split(PatchMitm(content, passphrase, p12));
      && |out| == |lines|
      && forall i :: 0 <= i < |lines| ==>
        out[i] ==
          if IsPassphraseLine(lines[i]) then PassphraseLine(Normalize(passphrase))
          else if IsP12Line(lines[i]) then P12Line(Normalize(p12))
          else lines[i]
  {
    var pp := Normalize(passphrase);
    var q := Normalize(p12);
    var lines := Split(content);
    RewriteAllLines(lines, pp, q);
    RewriteAllNoNewline(lines, pp, q);
    SplitJoin(RewriteAll(lines, pp, q));
  }

  lemma {:induction false} ExpandWithoutHostname(lines: seq<string>, extra: seq<string>)
    requires forall i :: 0 <= i < |lines| ==> !IsHostnameLine(lines[i])
    ensures Expand(lines, extra) == lines
    decreases |lines|
  {
    if lines != [] {
      ExpandWithoutHostname(lines[..|lines| - 1], extra);
    }
  }

  /** Every original line is kept, in order, each followed by the missing
      certificate lines exactly when it is a hostname line. */
  lemma {:induction false} ExpandAppend(a: seq<string>, b: seq<string>, extra: seq<string>)
    ensures Expand(a + b, extra) == Expand(a, extra) + Expand(b, extra)
    decreases |b|
  {
    if b == [] {
      assert a + b == a;
    } else {
      var b' := b[..|b| - 1];
      AppendInit(a, b);
      ExpandAppend(a, b', extra);
    }
  }

  lemma ExpandOne(line: string, extra: seq<string>)
    ensures Expand([line], extra) == [line] + (if IsHostnameLine(line) then extra else [])
  {
    assert [line][..0] == [];
  }

  /** A hostname line mentions a hostname. */
  lemma HostnameLineMentions(line: string)
    requires IsHostnameLine(line)
    ensures Contains(line, "hostname =")
  {
    StripContains(line, "hostname =");
  }

  /** When no line mentions a hostname and a key is missing, both
      certificate lines are appended at the end, even the one whose key
      was found: that line is left as it was. */
  lemma AppendsBothWithoutHostname(content: string, passphrase: CertField, p12: CertField)
    requires Normalize(passphrase) != "" && Normalize(p12) != ""
    requires !(HasKey(content, "passphrase") && HasKey(content, "p12"))
    requires !MentionsHostname(Split(content))
    ensures PatchMitm(content, passphrase, p12) ==
      content + "\n" + PassphraseLine(Normalize(passphrase)) + "\n" + P12Line(Normalize(p12))
  {
    var pp := Normalize(passphrase);
    var q := Normalize(p12);
    var lines := Split(content);
    forall i | 0 <= i < |lines|
      ensures !IsHostnameLine(lines[i])
    {
      if IsHostnameLine(lines[i]) {
        HostnameLineMentions(lines[i]);
      }
    }
    var hp, hq := HasKey(content, "passphrase"), HasKey(content, "p12");
    var a, b := PassphraseLine(pp), P12Line(q);
    ExpandWithoutHostname(lines, Missing(pp, q, hp, hq));
    assert InsertCertificate(lines, pp, q, hp, hq) == lines + [a, b];
    JoinSplit(content);
    JoinAppend(lines, [a, b]);
    assert Join([a, b]) == a + "\n" + b by {
      assert [a, b][1..] == [b];
    }
    AppendAssoc(content + "\n", a + "\n", b);
    AppendAssoc(content + "\n", a, "\n");
  }
}
