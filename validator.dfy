/** validate_mitm_section: the pass/fail check on the emitted [mitm]
    block, and the step of the run that depends on it. */
module Validator {
  import opened Text
  import opened Sections
  import opened Config
  import opened Parser
  import opened Serializer

  /** The stripped non-blank lines from a point inside the [mitm] block up
      to the next line that opens a section; a repeated [mitm] line is
      skipped. */
  function Collect(lines: seq<string>): seq<string>
    decreases |lines|
  {
    if lines == [] then []
    else
      var t := Strip(lines[0]);
      if t == "[mitm]" then Collect(lines[1..])
      else if StartsWith(t, "[") then []
      else if t != "" then [t] + Collect(lines[1..])
      else Collect(lines[1..])
  }

  /** mitm_lines: collected after the first line that strips to [mitm]. */
  function MitmLines(lines: seq<string>): seq<string>
    decreases |lines|
  {
    if lines == [] then []
    else if Strip(lines[0]) == "[mitm]" then Collect(lines[1..])
    else MitmLines(lines[1..])
  }

  /** The last line starting with prefix. */
  function LastWith(ms: seq<string>, prefix: string): Option<string>
    decreases |ms|
  {
    if ms == [] then None
    else if StartsWith(ms[|ms| - 1], prefix) then Some(ms[|ms| - 1])
    else LastWith(ms[..|ms| - 1], prefix)
  }

  /** Both certificate lines are present, and neither last one holds a
      bracketed list. */
  predicate ValidMitm(ms: seq<string>) {
    var p := LastWith(ms, "passphrase =");
    var q := LastWith(ms, "p12 =");
    p.Some? && q.Some? && !StartsWith(p.value, "passphrase = [") && !StartsWith(q.value, "p12 = [")
  }

  /** The verdict of validate_mitm_section on a document. */
  predicate ValidDocument(config: string) {
    ValidMitm(MitmLines(Split(config)))
  }

  method ValidateMitmSection(config: string) returns (ok: bool)
    ensures ok == ValidDocument(config)
  {
    var lines := Split(config);
    var ms := ExtractMitm(lines);
    ok := CheckCertificate(ms);
  }

  /** The loop collecting mitm_lines. */
  method ExtractMitm(lines: seq<string>) returns (ms: seq<string>)
    ensures ms == MitmLines(lines)
  {
    var inMitm := false;
    ms := [];
    var i := 0;
    while i < |lines|
      invariant 0 <= i <= |lines|
      invariant !inMitm ==> ms == [] && MitmLines(lines[i..]) == MitmLines(lines)
      invariant inMitm ==> ms + Collect(lines[i..]) == MitmLines(lines)
    {
      assert lines[i..][1..] == lines[i + 1..];
      var t := Strip(lines[i]);
      if t == "[mitm]" {
        inMitm := true;
        i := i + 1;
        continue;
      } else if inMitm && StartsWith(t, "[") {
        assert ms == MitmLines(lines);
        return;
      } else if inMitm {
        if t != "" {
          ms := ms + [t];
        }
      }
      i := i + 1;
    }
  }

  /** The loop over mitm_lines and the format checks. */
  method CheckCertificate(ms: seq<string>) returns (ok: bool)
    ensures ok == ValidMitm(ms)
  {
    var passphraseFound := false;
    var p12Found := false;
    var passphraseLine := "";
    var p12Line := "";
    for i := 0 to |ms|
      invariant passphraseFound <==> LastWith(ms[..i], "passphrase =").Some?
      invariant passphraseFound ==> passphraseLine == LastWith(ms[..i], "passphrase =").value
      invariant p12Found <==> LastWith(ms[..i], "p12 =").Some?
      invariant p12Found ==> p12Line == LastWith(ms[..i], "p12 =").value
    {
      TakeTake(ms, i);
      var line := ms[i];
      if StartsWith(line, "passphrase =") {
        passphraseFound := true;
        passphraseLine := line;
        assert line[..12][1] == line[1] == 'a';
        assert line[..5][1] == line[1];
      } else if StartsWith(line, "p12 =") {
        p12Found := true;
        p12Line := line;
      }
    }
    TakeAll(ms);
    if !passphraseFound || !p12Found {
      return false;
    }
    if StartsWith(passphraseLine, "passphrase = [") {
      return false;
    }
    if StartsWith(p12Line, "p12 = [") {
      return false;
    }
    return true;
  }

  /** i is the position of the last line starting with prefix. */
  predicate IsLast(ms: seq<string>, i: int, prefix: string) {
    0 <= i < |ms| && StartsWith(ms[i], prefix) && forall j :: i < j < |ms| ==> !StartsWith(ms[j], prefix)
  }

  lemma {:induction false} LastWithSpec(ms: seq<string>, prefix: string)
    ensures LastWith(ms, prefix).None? <==> forall i :: 0 <= i < |ms| ==> !StartsWith(ms[i], prefix)
    ensures LastWith(ms, prefix).Some? ==> exists i :: IsLast(ms, i, prefix) && ms[i] == LastWith(ms, prefix).value
    decreases |ms|
  {
    if ms != [] {
      var init := ms[..|ms| - 1];
      LastWithSpec(init, prefix);
      if !StartsWith(ms[|ms| - 1], prefix) && LastWith(init, prefix).Some? {
        var i :| IsLast(init, i, prefix) && init[i] == LastWith(init, prefix).value;
        assert IsLast(ms, i, prefix);
      }
      if !StartsWith(ms[|ms| - 1], prefix) && LastWith(init, prefix).None? {
        assert forall i :: 0 <= i < |ms| - 1 ==> ms[i] == init[i];
      }
      if StartsWith(ms[|ms| - 1], prefix) {
        assert IsLast(ms, |ms| - 1, prefix);
      }
    }
  }

  /** The last line with a given prefix is unique. */
  lemma IsLastUnique(ms: seq<string>, i: int, j: int, prefix: string)
    requires IsLast(ms, i, prefix) && IsLast(ms, j, prefix)
    ensures i == j
  {
  }

  /** The check passes exactly when a passphrase line and a p12 line are
      found and the last of each kind does not hold a bracketed list. */
  lemma ValidMitmIff(ms: seq<string>)
    ensures ValidMitm(ms) <==>
      (exists i :: IsLast(ms, i, "passphrase =") && !StartsWith(ms[i], "passphrase = [")) &&
      (exists j :: IsLast(ms, j, "p12 =") && !StartsWith(ms[j], "p12 = ["))
  {
    LastWithSpec(ms, "passphrase =");
    LastWithSpec(ms, "p12 =");
    if exists i :: IsLast(ms, i, "passphrase =") && !StartsWith(ms[i], "passphrase = [") {
      var i :| IsLast(ms, i, "passphrase =") && !StartsWith(ms[i], "passphrase = [");
      assert LastWith(ms, "passphrase =").Some?;
      var i' :| IsLast(ms, i', "passphrase =") && ms[i'] == LastWith(ms, "passphrase =").value;
      IsLastUnique(ms, i, i', "passphrase =");
    }
    if exists j :: IsLast(ms, j, "p12 =") && !StartsWith(ms[j], "p12 = [") {
      var j :| IsLast(ms, j, "p12 =") && !StartsWith(ms[j], "p12 = [");
      assert LastWith(ms, "p12 =").Some?;
      var j' :| IsLast(ms, j', "p12 =") && ms[j'] == LastWith(ms, "p12 =").value;
      IsLastUnique(ms, j, j', "p12 =");
    }
  }

  /** What the run saves: nothing when the remote document could not be
      obtained or is empty, or when the generated document fails the
      check; the generated document otherwise. */
  function Outcome(remote: Option<string>, cfg: PersonalConfig, timestamp: string, url: string): Option<string> {
    if remote.None? || remote.value == "" then None
    else
      var final := GenerateConfig(ParseSections(remote.value), cfg, timestamp, url);
      if ValidDocument(final) then Some(final) else None
  }

  /** Steps 2 to 6 of run: parse, generate, validate, and save only what passed. */
  method Run(remote: Option<string>, cfg: PersonalConfig, timestamp: string, url: string) returns (saved: Option<string>)
    ensures saved == Outcome(remote, cfg, timestamp, url)
    ensures saved.Some? ==> ValidDocument(saved.value)
  {
    if remote.None? || remote.value == "" {
      return None;
    }
    var sections := ParseConfigSections(remote.value);
    var final := GenerateFinalConfig(sections, cfg, timestamp, url);
    var ok := ValidateMitmSection(final);
    if !ok {
      return None;
    }
    return Some(final);
  }
}
