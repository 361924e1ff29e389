/** Three inputs on which update_mitm_section does not do what its design
    says, each shown on the code as written (Mitm.PatchMitm), and a
    corrected patch with the intended properties proved about it. */
module MitmFindings {
  import opened Text
  import opened Config
  import opened Mitm
  import Validator
  import Sections

  /** A value the patch can write: non-empty, on one line, and not the
      rendering of a list (which starts with '['). */
  predicate Writable(v: string) {
    v != "" && '\n' !in v && !StartsWith(v, "[")
  }

  predicate AnyPassphraseLine(lines: seq<string>) {
    exists i :: 0 <= i < |lines| && IsPassphraseLine(lines[i])
  }

  predicate AnyP12Line(lines: seq<string>) {
    exists i :: 0 <= i < |lines| && IsP12Line(lines[i])
  }

  predicate AnyHostnameLine(lines: seq<string>) {
    exists i :: 0 <= i < |lines| && IsHostnameLine(lines[i])
  }

  /** The insertion step, appending at the end exactly when no line is a
      hostname line (the test that decides where lines are inserted). */
  function InsertCertificateFixed(lines: seq<string>, pp: string, q: string, hasPassphrase: bool, hasP12: bool): seq<string> {
    var r := Expand(lines, Missing(pp, q, hasPassphrase, hasP12));
    if AnyHostnameLine(lines) then r else r + [PassphraseLine(pp), P12Line(q)]
  }

  /** The lines of the corrected patch for writable values: a key counts as
      present exactly when some line is one the rewrite replaces. */
  function FixedLines(lines: seq<string>, pp: string, q: string): seq<string> {
    var hasPassphrase := AnyPassphraseLine(lines);
    var hasP12 := AnyP12Line(lines);
    if hasPassphrase && hasP12 then RewriteAll(lines, pp, q)
    else InsertCertificateFixed(lines, pp, q, hasPassphrase, hasP12)
  }

  /** The corrected patch: a value that cannot be written is treated like a
      missing one. */
  function PatchMitmFixed(content: string, passphrase: CertField, p12: CertField): string {
    var pp := Normalize(passphrase);
    var q := Normalize(p12);
    if !Writable(pp) || !Writable(q) then content
    else Join(FixedLines(Split(content), pp, q))
  }

  /** No line that the validator would take for the end of the [mitm] block. */
  predicate Unbracketed(lines: seq<string>) {
    forall i :: 0 <= i < |lines| ==> !StartsWith(Strip(lines[i]), "[")
  }

  /** No certificate line holding a bracketed value. */
  predicate CleanCert(lines: seq<string>) {
    forall i :: 0 <= i < |lines| ==>
      (IsPassphraseLine(lines[i]) ==> !StartsWith(Strip(lines[i]), "passphrase = ["))
      && (IsP12Line(lines[i]) ==> !StartsWith(Strip(lines[i]), "p12 = ["))
  }

  /** Every line of out is a line of lines or one of the two certificate lines. */
  predicate FromInput(out: seq<string>, lines: seq<string>, pp: string, q: string) {
    forall i :: 0 <= i < |out| ==> out[i] in lines || out[i] == PassphraseLine(pp) || out[i] == P12Line(q)
  }

  lemma NormalizeStripped(f: CertField)
    ensures Strip(Normalize(f)) == Normalize(f)
  {
    match f
    case Scalar(s) => StripIdempotent(s);
    case List(elems) => if elems != [] { StripIdempotent(elems[0]); }
  }


  lemma NotBoth(line: string)
    ensures IsPassphraseLine(line) ==> !IsP12Line(line)
  {
    var t := Strip(line);
    if IsPassphraseLine(line) {
      assert t[..12][1] == t[1];
      assert |t| >= 5 ==> t[..5][1] == t[1];
    }
  }

  /** The passphrase line written for a writable stripped value. */
  lemma PassphraseLineFacts(pp: string)
    requires Writable(pp) && Strip(pp) == pp
    ensures var a := PassphraseLine(pp);
      && Strip(a) == a && '\n' !in a && IsPassphraseLine(a) && !IsP12Line(a)
      && !StartsWith(a, "[") && !StartsWith(a, "passphrase = [")
  {
    var a := PassphraseLine(pp);
    StripEnds(pp);
    assert a[|a| - 1] == pp[|pp| - 1];
    StripOfTrimmed(a);
    assert a[..12] == "passphrase =";
    assert a[..14][13] == a[13] == pp[0];
    assert pp[..1][0] == pp[0];
    NotBoth(a);
  }

  lemma P12LineFacts(q: string)
    requires Writable(q) && Strip(q) == q
    ensures var b := P12Line(q);
      && Strip(b) == b && '\n' !in b && IsP12Line(b) && !IsPassphraseLine(b)
      && !StartsWith(b, "[") && !StartsWith(b, "p12 = [")
  {
    var b := P12Line(q);
    StripEnds(q);
    assert b[|b| - 1] == q[|q| - 1];
    StripOfTrimmed(b);
    assert b[..5] == "p12 =";
    assert b[..7][6] == b[6] == q[0];
    assert q[..1][0] == q[0];
    NotBoth(b);
  }

  /** Lines drawn from the body and the two written lines hold no line break. */
  lemma OutNoNewline(out: seq<string>, lines: seq<string>, pp: string, q: string)
    requires FromInput(out, lines, pp, q) && NoNewline(lines)
    requires Writable(pp) && Strip(pp) == pp && Writable(q) && Strip(q) == q
    ensures NoNewline(out)
  {
    PassphraseLineFacts(pp);
    P12LineFacts(q);
    forall i | 0 <= i < |out|
      ensures '\n' !in out[i]
    {
      if out[i] in lines {
        var j :| 0 <= j < |lines| && lines[j] == out[i];
      }
    }
  }

  /** Lines drawn from clean body lines and the two written lines are clean. */
  lemma OutClean(out: seq<string>, lines: seq<string>, pp: string, q: string)
    requires FromInput(out, lines, pp, q)
    requires Unbracketed(lines) && CleanCert(lines)
    requires Writable(pp) && Strip(pp) == pp && Writable(q) && Strip(q) == q
    ensures Unbracketed(out) && CleanCert(out)
  {
    PassphraseLineFacts(pp);
    P12LineFacts(q);
    forall i | 0 <= i < |out|
      ensures !StartsWith(Strip(out[i]), "[")
      ensures IsPassphraseLine(out[i]) ==> !StartsWith(Strip(out[i]), "passphrase = [")
      ensures IsP12Line(out[i]) ==> !StartsWith(Strip(out[i]), "p12 = [")
    {
      if out[i] in lines {
        var j :| 0 <= j < |lines| && lines[j] == out[i];
      }
    }
  }

  lemma {:induction false} ExpandFrom(lines: seq<string>, extra: seq<string>)
    ensures forall i :: 0 <= i < |Expand(lines, extra)| ==>
      Expand(lines, extra)[i] in lines || Expand(lines, extra)[i] in extra
    decreases |lines|
  {
    if lines != [] {
      var init := lines[..|lines| - 1];
      var last := lines[|lines| - 1];
      ExpandFrom(init, extra);
      var r := Expand(init, extra);
      var t := [last] + (if IsHostnameLine(last) then extra else []);
      forall i | 0 <= i < |r + t|
        ensures (r + t)[i] in lines || (r + t)[i] in extra
      {
        if i < |r| {
          assert (r + t)[i] == r[i];
          if r[i] in init {
            var j :| 0 <= j < |init| && init[j] == r[i];
            assert lines[j] == r[i];
          }
        } else {
          assert (r + t)[i] == t[i - |r|];
        }
      }
    }
  }

  /** Every line is kept, followed by the extra lines when it is a hostname line. */
  lemma {:induction false} ExpandKeeps(lines: seq<string>, extra: seq<string>, j: nat)
    requires j < |lines|
    ensures lines[j] in Expand(lines, extra)
    ensures IsHostnameLine(lines[j]) ==> forall x :: x in extra ==> x in Expand(lines, extra)
    decreases |lines|
  {
    var init := lines[..|lines| - 1];
    var last := lines[|lines| - 1];
    var t := [last] + (if IsHostnameLine(last) then extra else []);
    if j < |init| {
      assert init[j] == lines[j];
      ExpandKeeps(init, extra, j);
    } else {
      assert forall x :: x in extra && IsHostnameLine(last) ==> x in t;
    }
  }

  lemma RewriteFrom(lines: seq<string>, pp: string, q: string)
    requires Writable(pp) && Strip(pp) == pp && Writable(q) && Strip(q) == q
    ensures FromInput(RewriteAll(lines, pp, q), lines, pp, q)
    ensures AnyPassphraseLine(lines) ==> AnyPassphraseLine(RewriteAll(lines, pp, q))
    ensures AnyP12Line(lines) ==> AnyP12Line(RewriteAll(lines, pp, q))
  {
    var out := RewriteAll(lines, pp, q);
    RewriteAllLines(lines, pp, q);
    assert FromInput(out, lines, pp, q) by {
      forall i | 0 <= i < |out|
        ensures out[i] in lines || out[i] == PassphraseLine(pp) || out[i] == P12Line(q)
      {
        assert out[i] == Rewrite(lines[i], pp, q);
      }
    }
    if AnyPassphraseLine(lines) {
      var i :| 0 <= i < |lines| && IsPassphraseLine(lines[i]);
      RewrittenPassphrase(lines, pp, q, i);
    }
    if AnyP12Line(lines) {
      var i :| 0 <= i < |lines| && IsP12Line(lines[i]);
      RewrittenP12(lines, pp, q, i);
    }
  }

  lemma RewrittenPassphrase(lines: seq<string>, pp: string, q: string, i: nat)
    requires Writable(pp) && Strip(pp) == pp
    requires i < |lines| && IsPassphraseLine(lines[i])
    ensures AnyPassphraseLine(RewriteAll(lines, pp, q))
  {
    RewriteAllAt(lines, pp, q, i);
    PassphraseLineFacts(pp);
    assert IsPassphraseLine(RewriteAll(lines, pp, q)[i]);
  }

  lemma RewrittenP12(lines: seq<string>, pp: string, q: string, i: nat)
    requires Writable(q) && Strip(q) == q
    requires i < |lines| && IsP12Line(lines[i])
    ensures AnyP12Line(RewriteAll(lines, pp, q))
  {
    RewriteAllAt(lines, pp, q, i);
    NotBoth(lines[i]);
    P12LineFacts(q);
    assert IsP12Line(RewriteAll(lines, pp, q)[i]);
  }

  lemma ExpandFromInput(lines: seq<string>, pp: string, q: string, hasPassphrase: bool, hasP12: bool)
    ensures FromInput(Expand(lines, Missing(pp, q, hasPassphrase, hasP12)), lines, pp, q)
  {
    var extra := Missing(pp, q, hasPassphrase, hasP12);
    ExpandFrom(lines, extra);
    assert forall x :: x in extra ==> x == PassphraseLine(pp) || x == P12Line(q);
  }

  /** With a hostname line, each missing line is inserted after it. */
  lemma InsertWithHostname(lines: seq<string>, pp: string, q: string, hasPassphrase: bool, hasP12: bool)
    requires Writable(pp) && Strip(pp) == pp && Writable(q) && Strip(q) == q
    requires AnyHostnameLine(lines)
    requires hasPassphrase == AnyPassphraseLine(lines) && hasP12 == AnyP12Line(lines)
    ensures var r := Expand(lines, Missing(pp, q, hasPassphrase, hasP12));
      AnyPassphraseLine(r) && AnyP12Line(r)
  {
    var extra := Missing(pp, q, hasPassphrase, hasP12);
    var r := Expand(lines, extra);
    var a, b := PassphraseLine(pp), P12Line(q);
    PassphraseLineFacts(pp);
    P12LineFacts(q);
    var h :| 0 <= h < |lines| && IsHostnameLine(lines[h]);
    ExpandKeeps(lines, extra, h);
    var x := a;
    if hasPassphrase {
      var i :| 0 <= i < |lines| && IsPassphraseLine(lines[i]);
      ExpandKeeps(lines, extra, i);
      x := lines[i];
    } else {
      assert a in extra;
    }
    assert IsPassphraseLine(x) && x in r;
    var y := b;
    if hasP12 {
      var i :| 0 <= i < |lines| && IsP12Line(lines[i]);
      ExpandKeeps(lines, extra, i);
      y := lines[i];
    } else {
      assert b in extra;
    }
    assert IsP12Line(y) && y in r;
  }

  lemma InsertFrom(lines: seq<string>, pp: string, q: string, hasPassphrase: bool, hasP12: bool)
    requires Writable(pp) && Strip(pp) == pp && Writable(q) && Strip(q) == q
    requires hasPassphrase == AnyPassphraseLine(lines) && hasP12 == AnyP12Line(lines)
    ensures var out := InsertCertificateFixed(lines, pp, q, hasPassphrase, hasP12);
      FromInput(out, lines, pp, q) && AnyPassphraseLine(out) && AnyP12Line(out)
  {
    var r := Expand(lines, Missing(pp, q, hasPassphrase, hasP12));
    ExpandFromInput(lines, pp, q, hasPassphrase, hasP12);
    if AnyHostnameLine(lines) {
      InsertWithHostname(lines, pp, q, hasPassphrase, hasP12);
    } else {
      var a, b := PassphraseLine(pp), P12Line(q);
      PassphraseLineFacts(pp);
      P12LineFacts(q);
      var out := r + [a, b];
      assert out[|r|] == a && out[|r| + 1] == b;
      forall i | 0 <= i < |out|
        ensures out[i] in lines || out[i] == a || out[i] == b
      {
        if i < |r| {
          assert out[i] == r[i];
        }
      }
    }
  }

  /** The corrected lines keep the body's lines, add only the two
      certificate lines, and hold both a passphrase line and a p12 line. */
  lemma FixedLinesFrom(lines: seq<string>, pp: string, q: string)
    requires Writable(pp) && Strip(pp) == pp && Writable(q) && Strip(q) == q
    ensures var out := FixedLines(lines, pp, q);
      FromInput(out, lines, pp, q) && AnyPassphraseLine(out) && AnyP12Line(out)
  {
    if AnyPassphraseLine(lines) && AnyP12Line(lines) {
      RewriteFrom(lines, pp, q);
    } else {
      InsertFrom(lines, pp, q, AnyPassphraseLine(lines), AnyP12Line(lines));
    }
  }

  predicate PrefixClean(ms: seq<string>, p: string, pb: string) {
    forall k :: 0 <= k < |ms| && StartsWith(ms[k], p) ==> !StartsWith(ms[k], pb)
  }

  predicate StripClean(out: seq<string>, p: string, pb: string) {
    forall i :: 0 <= i < |out| && StartsWith(Strip(out[i]), p) ==> !StartsWith(Strip(out[i]), pb)
  }

  /** What the validator collects from clean lines is clean. */
  lemma {:induction false} CollectClean(out: seq<string>, p: string, pb: string)
    requires Unbracketed(out) && StripClean(out, p, pb)
    ensures PrefixClean(Validator.Collect(out), p, pb)
    decreases |out|
  {
    if out != [] {
      var t := Strip(out[0]);
      var tail := out[1..];
      assert forall i :: 0 <= i < |tail| ==> tail[i] == out[i + 1];
      CollectClean(tail, p, pb);
      assert !StartsWith(t, "[");
      assert t != "[mitm]" by {
        assert "[mitm]"[..1] == "[";
      }
      var c := Validator.Collect(tail);
      if t != "" {
        var ms := [t] + c;
        assert Validator.Collect(out) == ms;
        forall k | 0 <= k < |ms| && StartsWith(ms[k], p)
          ensures !StartsWith(ms[k], pb)
        {
          if k > 0 {
            assert ms[k] == c[k - 1];
          }
        }
      }
    }
  }

  /** A line starting with p survives into what the validator collects. */
  lemma {:induction false} CollectFinds(out: seq<string>, p: string, i: nat)
    requires Unbracketed(out) && p != ""
    requires i < |out| && StartsWith(Strip(out[i]), p)
    ensures exists k :: 0 <= k < |Validator.Collect(out)| && StartsWith(Validator.Collect(out)[k], p)
    decreases |out|
  {
    var t := Strip(out[0]);
    var tail := out[1..];
    assert !StartsWith(t, "[");
    assert t != "[mitm]" by {
      assert "[mitm]"[..1] == "[";
    }
    var c := Validator.Collect(tail);
    if i == 0 {
      assert Validator.Collect(out) == [t] + c;
      assert ([t] + c)[0] == t;
    } else {
      assert forall j :: 0 <= j < |tail| ==> tail[j] == out[j + 1];
      CollectFinds(tail, p, i - 1);
      var k :| 0 <= k < |c| && StartsWith(c[k], p);
      if t != "" {
        assert Validator.Collect(out) == [t] + c;
        assert ([t] + c)[k + 1] == c[k];
      } else {
        assert Validator.Collect(out) == c;
      }
    }
  }

  lemma LastWithGood(ms: seq<string>, p: string, pb: string)
    requires exists k :: 0 <= k < |ms| && StartsWith(ms[k], p)
    requires PrefixClean(ms, p, pb)
    ensures Validator.LastWith(ms, p).Some? && !StartsWith(Validator.LastWith(ms, p).value, pb)
  {
    Validator.LastWithSpec(ms, p);
    var i :| Validator.IsLast(ms, i, p) && ms[i] == Validator.LastWith(ms, p).value;
  }

  /** Clean lines with a passphrase line and a p12 line, stripped and
      collected, pass the validator. */
  lemma ValidOfLines(out: seq<string>)
    requires Unbracketed(out) && CleanCert(out)
    requires AnyPassphraseLine(out) && AnyP12Line(out)
    ensures Validator.ValidMitm(Validator.Collect(out))
  {
    var ms := Validator.Collect(out);
    var i :| 0 <= i < |out| && IsPassphraseLine(out[i]);
    var j :| 0 <= j < |out| && IsP12Line(out[j]);
    CollectFinds(out, "passphrase =", i);
    CollectFinds(out, "p12 =", j);
    CollectClean(out, "passphrase =", "passphrase = [");
    CollectClean(out, "p12 =", "p12 = [");
    LastWithGood(ms, "passphrase =", "passphrase = [");
    LastWithGood(ms, "p12 =", "p12 = [");
  }

  /** The corrected patch always yields a [mitm] body that passes the
      validator, when both values can be written and the body has no line
      the validator would stop at and no bracketed certificate line. */
  lemma FixedValid(content: string, passphrase: CertField, p12: CertField)
    requires Writable(Normalize(passphrase)) && Writable(Normalize(p12))
    requires Unbracketed(Split(content)) && CleanCert(Split(content))
    ensures Validator.ValidMitm(Validator.Collect(Split(PatchMitmFixed(content, passphrase, p12))))
  {
    var pp := Normalize(passphrase);
    var q := Normalize(p12);
    var lines := Split(content);
    NormalizeStripped(passphrase);
    NormalizeStripped(p12);
    var out := FixedLines(lines, pp, q);
    FixedLinesFrom(lines, pp, q);
    OutNoNewline(out, lines, pp, q);
    OutClean(out, lines, pp, q);
    SplitJoin(out);
    ValidOfLines(out);
  }

  /** Each line not taken from the body is a certificate line holding a
      writable value. */
  lemma WrittenClean(out: seq<string>, lines: seq<string>, pp: string, q: string)
    requires FromInput(out, lines, pp, q)
    requires Writable(pp) && Strip(pp) == pp && Writable(q) && Strip(q) == q
    ensures forall i :: 0 <= i < |out| ==> (out[i] in lines ||
      (!StartsWith(Strip(out[i]), "passphrase = [") && !StartsWith(Strip(out[i]), "p12 = [") && !StartsWith(Strip(out[i]), "[")))
  {
    PassphraseLineFacts(pp);
    P12LineFacts(q);
  }

  /** The corrected patch never writes a bracketed certificate line: every
      line of its result that is not a line of the body is a certificate
      line holding a writable value. */
  lemma FixedNeverWritesBracket(content: string, passphrase: CertField, p12: CertField)
    ensures var lines := Split(content);
      var out := Split(PatchMitmFixed(content, passphrase, p12));
      forall i :: 0 <= i < |out| ==> (out[i] in lines ||
        (!StartsWith(Strip(out[i]), "passphrase = [") && !StartsWith(Strip(out[i]), "p12 = [") && !StartsWith(Strip(out[i]), "[")))
  {
    var pp := Normalize(passphrase);
    var q := Normalize(p12);
    var lines := Split(content);
    if Writable(pp) && Writable(q) {
      NormalizeStripped(passphrase);
      NormalizeStripped(p12);
      var out := FixedLines(lines, pp, q);
      assert PatchMitmFixed(content, passphrase, p12) == Join(out);
      FixedLinesFrom(lines, pp, q);
      OutNoNewline(out, lines, pp, q);
      SplitJoin(out);
      WrittenClean(out, lines, pp, q);
    } else {
      JoinSplit(content);
    }
  }

  /** Where no line mentions "hostname =" without being a hostname line,
      the code's append test and the corrected one agree. */
  lemma MentionsIff(lines: seq<string>, extra: seq<string>)
    requires forall i :: 0 <= i < |lines| && Contains(lines[i], "hostname =") ==> IsHostnameLine(lines[i])
    ensures MentionsHostname(Expand(lines, extra)) == AnyHostnameLine(lines)
  {
    var r := Expand(lines, extra);
    if AnyHostnameLine(lines) {
      var h :| 0 <= h < |lines| && IsHostnameLine(lines[h]);
      ExpandKeeps(lines, extra, h);
      HostnameLineMentions(lines[h]);
      var k :| 0 <= k < |r| && r[k] == lines[h];
    } else {
      ExpandWithoutHostname(lines, extra);
    }
  }

  /** Where the code and the correction agree: writable values, keys found
      by the regular expression exactly when a line is rewritten, and no
      line mentioning "hostname =" that is not a hostname line. */
  lemma FixedAgrees(content: string, passphrase: CertField, p12: CertField)
    requires Writable(Normalize(passphrase)) && Writable(Normalize(p12))
    requires HasKey(content, "passphrase") == AnyPassphraseLine(Split(content))
    requires HasKey(content, "p12") == AnyP12Line(Split(content))
    requires forall i :: 0 <= i < |Split(content)| && Contains(Split(content)[i], "hostname =") ==>
      IsHostnameLine(Split(content)[i])
    ensures PatchMitm(content, passphrase, p12) == PatchMitmFixed(content, passphrase, p12)
  {
    var pp := Normalize(passphrase);
    var q := Normalize(p12);
    var lines := Split(content);
    var hasPassphrase := AnyPassphraseLine(lines);
    var hasP12 := AnyP12Line(lines);
    MentionsIff(lines, Missing(pp, q, hasPassphrase, hasP12));
    assert InsertCertificate(lines, pp, q, hasPassphrase, hasP12)
      == InsertCertificateFixed(lines, pp, q, hasPassphrase, hasP12);
  }

  /** The code's own patch passes the validator on the inputs where it
      agrees with the correction. */
  lemma PatchValid(content: string, passphrase: CertField, p12: CertField)
    requires Writable(Normalize(passphrase)) && Writable(Normalize(p12))
    requires HasKey(content, "passphrase") == AnyPassphraseLine(Split(content))
    requires HasKey(content, "p12") == AnyP12Line(Split(content))
    requires forall i :: 0 <= i < |Split(content)| && Contains(Split(content)[i], "hostname =") ==>
      IsHostnameLine(Split(content)[i])
    requires Unbracketed(Split(content)) && CleanCert(Split(content))
    ensures Validator.ValidMitm(Validator.Collect(Split(PatchMitm(content, passphrase, p12))))
  {
    FixedAgrees(content, passphrase, p12);
    FixedValid(content, passphrase, p12);
  }

  // The code as written, on three shapes of body.

  /** Two lines without a line break split back out of their join. */
  lemma TwoLines(x: string, y: string)
    requires '\n' !in x && '\n' !in y
    ensures Split(x + "\n" + y) == [x, y]
  {
    var lines := [x, y];
    assert lines[1..] == [y];
    assert Join(lines) == x + "\n" + y;
    SplitJoin(lines);
  }

  /** A key, a space, '=' and a value: the regular expression matches. */
  lemma KeySpaced(key: string, v: string)
    requires key != []
    ensures KeyAt(key + " = " + v, key)
  {
    var s := key + " = " + v;
    assert s[..|key|] == key;
    var u := s[|key|..];
    assert u == " = " + v;
    assert u[1..] == "= " + v;
    assert LeadingSpaces(u[1..]) == 0;
  }

  /** A key directly followed by '=': the regular expression matches too. */
  lemma KeyUnspaced(key: string, v: string)
    requires key != []
    ensures KeyAt(key + "=" + v, key)
  {
    var s := key + "=" + v;
    assert s[..|key|] == key;
    var u := s[|key|..];
    assert u == "=" + v;
    assert LeadingSpaces(u) == 0;
  }

  /** Both keys are found in a body of a passphrase line and a p12 line. */
  lemma SpacedKeysFound(x: string, y: string)
    requires |x| >= 13 && x[..13] == "passphrase = " && |y| >= 6 && y[..6] == "p12 = "
    ensures HasKey(x + "\n" + y, "passphrase") && HasKey(x + "\n" + y, "p12")
  {
    var c := x + "\n" + y;
    assert x == "passphrase" + " = " + x[13..];
    assert y == "p12" + " = " + y[6..];
    KeySpaced("passphrase", x[13..] + "\n" + y);
    assert c[0..] == c == "passphrase" + " = " + (x[13..] + "\n" + y);
    KeySpaced("p12", y[6..]);
    assert c[|x| + 1..] == y;
    assert c[|x|] == '\n';
  }

  /** A stripped line starting with "passphrase = " and a stripped line
      starting with "p12 = ". */
  lemma CertPair(x: string, y: string)
    requires |x| > 13 && x[..13] == "passphrase = " && !IsSpace(x[|x| - 1])
    requires |y| > 6 && y[..6] == "p12 = " && !IsSpace(y[|y| - 1])
    ensures Strip(x) == x && Strip(y) == y
    ensures IsPassphraseLine(x) && !IsP12Line(x) && IsP12Line(y) && !IsPassphraseLine(y)
  {
    StripOfTrimmed(x);
    StripOfTrimmed(y);
    assert x[..12] == x[..13][..12];
    assert y[..5] == y[..6][..5];
    assert |y| >= 12 ==> y[..12][1] == y[1];
    NotBoth(x);
  }

  /** Two stripped non-empty lines that do not open a section are both collected. */
  lemma PairCollected(a: string, b: string)
    requires Strip(a) == a && Strip(b) == b && a != "" && b != ""
    requires !StartsWith(a, "[") && !StartsWith(b, "[")
    ensures Validator.Collect([a, b]) == [a, b]
  {
    assert "[mitm]"[..1] == "[";
    var w := [a, b];
    assert w[1..] == [b];
    assert w[1..][1..] == [];
    assert Validator.Collect([b]) == [b];
  }

  /** The validator rejects a passphrase value starting with '['. */
  lemma BracketedRejected(pp: string, q: string)
    requires pp != "" && Strip(pp) == pp && StartsWith(pp, "[")
    requires Writable(q) && Strip(q) == q
    ensures !Validator.ValidMitm(Validator.Collect([PassphraseLine(pp), P12Line(q)]))
  {
    var a, b := PassphraseLine(pp), P12Line(q);
    StripEnds(pp);
    assert a[|a| - 1] == pp[|pp| - 1];
    StripOfTrimmed(a);
    P12LineFacts(q);
    PairCollected(a, b);
    var w := [a, b];
    assert w[..1] == [a];
    assert a[..12] == "passphrase =";
    assert a[..14] == "passphrase = " + pp[..1];
    assert Validator.LastWith(w, "passphrase =") == Sections.Some(a);
  }

  /** Both certificate lines are rewritten with whatever the values are,
      and a value starting with '[' is written as it is: the validator then
      rejects the body. The correction leaves the body as it was. */
  lemma BracketedValueWritten(x: string, y: string, passphrase: CertField, p12: CertField)
    requires |x| > 13 && x[..13] == "passphrase = " && !IsSpace(x[|x| - 1]) && '\n' !in x
    requires |y| > 6 && y[..6] == "p12 = " && !IsSpace(y[|y| - 1]) && '\n' !in y
    requires StartsWith(Normalize(passphrase), "[") && '\n' !in Normalize(passphrase)
    requires Writable(Normalize(p12))
    ensures PatchMitm(x + "\n" + y, passphrase, p12) ==
      PassphraseLine(Normalize(passphrase)) + "\n" + P12Line(Normalize(p12))
    ensures !Validator.ValidMitm(Validator.Collect(Split(PatchMitm(x + "\n" + y, passphrase, p12))))
    ensures PatchMitmFixed(x + "\n" + y, passphrase, p12) == x + "\n" + y
  {
    var pp, q := Normalize(passphrase), Normalize(p12);
    var c := x + "\n" + y;
    NormalizeStripped(passphrase);
    NormalizeStripped(p12);
    SpacedKeysFound(x, y);
    TwoLines(x, y);
    CertPair(x, y);
    BracketedRewrite(c, x, y, passphrase, p12);
    var a, b := PassphraseLine(pp), P12Line(q);
    assert '\n' !in a;
    P12LineFacts(q);
    TwoLines(a, b);
    BracketedRejected(pp, q);
  }

  lemma BracketedRewrite(c: string, x: string, y: string, passphrase: CertField, p12: CertField)
    requires Split(c) == [x, y] && HasKey(c, "passphrase") && HasKey(c, "p12")
    requires IsPassphraseLine(x) && IsP12Line(y) && !IsPassphraseLine(y)
    requires Normalize(passphrase) != "" && Normalize(p12) != ""
    ensures PatchMitm(c, passphrase, p12) == PassphraseLine(Normalize(passphrase)) + "\n" + P12Line(Normalize(p12))
  {
    var pp, q := Normalize(passphrase), Normalize(p12);
    var lines := [x, y];
    RewriteAllLines(lines, pp, q);
    var w := [PassphraseLine(pp), P12Line(q)];
    assert RewriteAll(lines, pp, q) == w;
    assert w[1..] == [w[1]];
    assert Join(w) == w[0] + "\n" + w[1];
  }

  /** The two lines of an unspaced body: stripped, and neither a line the
      rewrite replaces nor one the validator reads as a certificate line. */
  lemma UnspacedLines(v: string, w: string)
    requires v != "" && !IsSpace(v[|v| - 1]) && '\n' !in v
    requires w != "" && !IsSpace(w[|w| - 1]) && '\n' !in w
    ensures var x, y := "passphrase=" + v, "p12=" + w;
      && Split(x + "\n" + y) == [x, y]
      && Strip(x) == x && Strip(y) == y && !StartsWith(x, "[") && !StartsWith(y, "[")
      && !IsPassphraseLine(x) && !IsP12Line(x) && !IsPassphraseLine(y) && !IsP12Line(y)
  {
    var x, y := "passphrase=" + v, "p12=" + w;
    TwoLines(x, y);
    StripOfTrimmed(x);
    StripOfTrimmed(y);
    assert |x| >= 12 ==> x[..12][10] == '=';
    assert |y| >= 12 ==> y[..12][1] == '1';
    assert y[..5][3] == '=' && x[..5][1] == 'a';
    assert x[..1] == "p" && y[..1] == "p";
  }

  lemma UnspacedFound(v: string, w: string)
    ensures var c := "passphrase=" + v + "\n" + "p12=" + w;
      HasKey(c, "passphrase") && HasKey(c, "p12")
  {
    var x, y := "passphrase=" + v, "p12=" + w;
    var c := x + "\n" + y;
    assert c == "passphrase=" + v + "\n" + "p12=" + w;
    KeyUnspaced("passphrase", v + "\n" + y);
    assert c[0..] == c == "passphrase" + "=" + (v + "\n" + y);
    KeyUnspaced("p12", w);
    assert c[|x| + 1..] == y;
    assert c[|x|] == '\n';
    assert 0 <= |x| + 1 <= |c| && c[|x| + 1 - 1] == '\n' && KeyAt(c[|x| + 1..], "p12");
  }

  /** The regular expression finds a key written without a space before
      '=', the rewrite does not: both keys count as present, no line is
      rewritten, the new certificate is dropped and the validator rejects
      the body. The correction installs it. */
  lemma UnspacedKeysIgnored(v: string, w: string, passphrase: CertField, p12: CertField)
    requires v != "" && !IsSpace(v[|v| - 1]) && '\n' !in v
    requires w != "" && !IsSpace(w[|w| - 1]) && '\n' !in w
    requires Writable(Normalize(passphrase)) && Writable(Normalize(p12))
    ensures var c := "passphrase=" + v + "\n" + "p12=" + w;
      && PatchMitm(c, passphrase, p12) == c
      && !Validator.ValidMitm(Validator.Collect(Split(c)))
      && Validator.ValidMitm(Validator.Collect(Split(PatchMitmFixed(c, passphrase, p12))))
  {
    var x, y := "passphrase=" + v, "p12=" + w;
    var c := x + "\n" + y;
    assert c == "passphrase=" + v + "\n" + "p12=" + w;
    UnspacedLines(v, w);
    UnspacedFound(v, w);
    UnspacedDropped(c, x, y, passphrase, p12);
    UnspacedRejected(x, y);
    UnspacedInstalled(c, x, y, passphrase, p12);
  }

  lemma UnspacedInstalled(c: string, x: string, y: string, passphrase: CertField, p12: CertField)
    requires Split(c) == [x, y] && !StartsWith(Strip(x), "[") && !StartsWith(Strip(y), "[")
    requires !IsPassphraseLine(x) && !IsP12Line(x) && !IsPassphraseLine(y) && !IsP12Line(y)
    requires Writable(Normalize(passphrase)) && Writable(Normalize(p12))
    ensures Validator.ValidMitm(Validator.Collect(Split(PatchMitmFixed(c, passphrase, p12))))
  {
    assert Unbracketed([x, y]) && CleanCert([x, y]);
    FixedValid(c, passphrase, p12);
  }

  lemma UnspacedDropped(c: string, x: string, y: string, passphrase: CertField, p12: CertField)
    requires Split(c) == [x, y] && HasKey(c, "passphrase") && HasKey(c, "p12")
    requires !IsPassphraseLine(x) && !IsP12Line(x) && !IsPassphraseLine(y) && !IsP12Line(y)
    requires Normalize(passphrase) != "" && Normalize(p12) != ""
    ensures PatchMitm(c, passphrase, p12) == c
  {
    var lines := [x, y];
    RewriteAllLines(lines, Normalize(passphrase), Normalize(p12));
    assert RewriteAll(lines, Normalize(passphrase), Normalize(p12)) == lines;
    JoinSplit(c);
  }

  lemma UnspacedRejected(x: string, y: string)
    requires Strip(x) == x && Strip(y) == y && x != "" && y != ""
    requires !StartsWith(x, "[") && !StartsWith(y, "[")
    requires !IsPassphraseLine(x) && !IsPassphraseLine(y)
    ensures !Validator.ValidMitm(Validator.Collect([x, y]))
  {
    PairCollected(x, y);
    assert [x, y][..1] == [x];
    assert [x][..0] == [];
    assert !StartsWith(y, "passphrase =") && !StartsWith(x, "passphrase =");
    assert Validator.LastWith([x, y], "passphrase =") == Validator.LastWith([x], "passphrase =");
    assert Validator.LastWith([x], "passphrase =") == Validator.LastWith([], "passphrase =");
  }

  /** The line of a commented hostname body: stripped, not opening a
      section, and neither a hostname line nor a certificate line, though
      it mentions "hostname =". */
  lemma CommentLine(v: string)
    requires '\n' !in v && (v != "" ==> !IsSpace(v[|v| - 1]))
    ensures var c := "# hostname =" + v;
      && Split(c) == [c] && Strip(c) == c && !StartsWith(c, "[") && Contains(c, "hostname =")
      && !IsHostnameLine(c) && !IsPassphraseLine(c) && !IsP12Line(c)
  {
    var c := "# hostname =" + v;
    assert '\n' !in c;
    SplitNoNewline(c);
    assert c[|c| - 1] == if v == "" then '=' else v[|v| - 1];
    StripOfTrimmed(c);
    CommentStarts(c);
    CommentMentions(v);
  }

  /** A line opening with '#' starts with none of the keys. */
  lemma CommentStarts(c: string)
    requires c != [] && c[0] == '#' && Strip(c) == c
    ensures !StartsWith(c, "[") && !IsHostnameLine(c) && !IsPassphraseLine(c) && !IsP12Line(c)
    ensures !StartsWith(c, "passphrase") && !StartsWith(c, "p12") && !StartsWith(c, "passphrase =")
  {
    assert |c| >= 1 ==> c[..1][0] == '#';
    assert |c| >= 3 ==> c[..3][0] == '#';
    assert |c| >= 5 ==> c[..5][0] == '#';
    assert |c| >= 10 ==> c[..10][0] == '#';
    assert |c| >= 12 ==> c[..12][0] == '#';
  }

  lemma CommentMentions(v: string)
    ensures Contains("# hostname =" + v, "hostname =")
  {
    var c := "# hostname =" + v;
    assert c[2..][..10] == "hostname =";
    assert c[2..] == c[1..][1..];
  }

  lemma CommentNoKeys(v: string)
    requires '\n' !in v
    ensures var c := "# hostname =" + v;
      !HasKey(c, "passphrase") && !HasKey(c, "p12")
  {
    var c := "# hostname =" + v;
    assert '\n' !in c;
    assert c[0] == '#';
    assert |c| >= 10 ==> c[..10][0] == '#';
    assert |c| >= 3 ==> c[..3][0] == '#';
    forall p | 0 <= p <= |c| && (p == 0 || c[p - 1] == '\n')
      ensures !KeyAt(c[p..], "passphrase") && !KeyAt(c[p..], "p12")
    {
      assert p == 0 && c[0..] == c;
    }
  }

  lemma CommentKept(c: string, passphrase: CertField, p12: CertField)
    requires Split(c) == [c] && Contains(c, "hostname =") && !IsHostnameLine(c)
    requires !HasKey(c, "passphrase") && !HasKey(c, "p12")
    requires Normalize(passphrase) != "" && Normalize(p12) != ""
    ensures PatchMitm(c, passphrase, p12) == c
  {
    var pp, q := Normalize(passphrase), Normalize(p12);
    var extra := Missing(pp, q, false, false);
    ExpandOne(c, extra);
    assert MentionsHostname(Expand([c], extra));
    assert InsertCertificate([c], pp, q, false, false) == [c];
  }

  lemma CommentRejected(c: string)
    requires Strip(c) == c && c != "" && !StartsWith(c, "[") && !IsPassphraseLine(c)
    ensures !Validator.ValidMitm(Validator.Collect([c]))
  {
    PairCollectedOne(c);
    assert [c][..0] == [];
    assert !StartsWith(c, "passphrase =");
    assert Validator.LastWith([c], "passphrase =") == Validator.LastWith([], "passphrase =");
  }

  lemma CommentInstalled(c: string, passphrase: CertField, p12: CertField)
    requires Split(c) == [c] && !StartsWith(Strip(c), "[") && !IsPassphraseLine(c) && !IsP12Line(c)
    requires Writable(Normalize(passphrase)) && Writable(Normalize(p12))
    ensures Validator.ValidMitm(Validator.Collect(Split(PatchMitmFixed(c, passphrase, p12))))
  {
    assert Unbracketed([c]) && CleanCert([c]);
    FixedValid(c, passphrase, p12);
  }

  /** A line that mentions "hostname =" without being a hostname line, such
      as a comment, makes the code skip appending the missing certificate
      lines, though no hostname line received them: the body is returned as
      it was and the validator rejects it. The correction appends them. */
  lemma HostnameMentionSkipsAppend(v: string, passphrase: CertField, p12: CertField)
    requires '\n' !in v && (v != "" ==> !IsSpace(v[|v| - 1]))
    requires Writable(Normalize(passphrase)) && Writable(Normalize(p12))
    ensures var c := "# hostname =" + v;
      && PatchMitm(c, passphrase, p12) == c
      && !Validator.ValidMitm(Validator.Collect(Split(c)))
      && Validator.ValidMitm(Validator.Collect(Split(PatchMitmFixed(c, passphrase, p12))))
  {
    var c := "# hostname =" + v;
    CommentLine(v);
    CommentNoKeys(v);
    CommentKept(c, passphrase, p12);
    CommentRejected(c);
    CommentInstalled(c, passphrase, p12);
  }

  /** A stripped non-empty line that does not open a section is collected. */
  lemma PairCollectedOne(a: string)
    requires Strip(a) == a && a != "" && !StartsWith(a, "[")
    ensures Validator.Collect([a]) == [a]
  {
    assert "[mitm]"[..1] == "[";
    assert [a][1..] == [];
  }
}
