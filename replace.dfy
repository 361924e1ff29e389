/** apply_global_replacements: literal replace-all passes over the
    generated document. */
module Replace {
  import opened Text
  import opened Config

  /** str.count(pat): occurrences that do not overlap, found left to
      right; the empty pattern occurs before every character and at the end. */
  function Count(s: string, pat: string): nat
    decreases |s|
  {
    if pat == [] then |s| + 1
    else if s == [] then 0
    else if StartsWith(s, pat) then 1 + Count(s[|pat|..], pat)
    else Count(s[1..], pat)
  }

  /** rep before every character of s and after the last. */
  function Interleave(s: string, rep: string): string
    decreases |s|
  {
    if s == [] then rep else rep + [s[0]] + Interleave(s[1..], rep)
  }

  /** str.replace(pat, rep): every occurrence counted by Count is replaced. */
  function ReplaceAll(s: string, pat: string, rep: string): string
    decreases |s|
  {
    if pat == [] then Interleave(s, rep)
    else if s == [] then []
    else if StartsWith(s, pat) then rep + ReplaceAll(s[|pat|..], pat, rep)
    else [s[0]] + ReplaceAll(s[1..], pat, rep)
  }

  /** One entry of global_replacements. */
  function ApplyOne(s: string, r: Replacement): string {
    match r
    case Malformed => s
    case Pair(search, replace) => if Count(s, search) > 0 then ReplaceAll(s, search, replace) else s
  }

  /** The entries applied in list order. */
  function ApplyAll(s: string, rs: seq<Replacement>): string
    decreases |rs|
  {
    if rs == [] then s else ApplyOne(ApplyAll(s, rs[..|rs| - 1]), rs[|rs| - 1])
  }

  method ApplyGlobalReplacements(content: string, rs: seq<Replacement>) returns (r: string)
    ensures r == ApplyAll(content, rs)
  {
    if |rs| == 0 {
      return content;
    }
    r := content;
    for i := 0 to |rs|
      invariant r == ApplyAll(content, rs[..i])
    {
      TakeTake(rs, i);
      if rs[i].Pair? {
        var count := Count(r, rs[i].search);
        if count > 0 {
          r := ReplaceAll(r, rs[i].search, rs[i].replace);
        }
      }
    }
    TakeAll(rs);
  }

  /** Where the pattern does not occur, replacing changes nothing. */
  lemma {:induction false} NoOccurrenceUnchanged(s: string, pat: string, rep: string)
    requires Count(s, pat) == 0
    ensures ReplaceAll(s, pat, rep) == s
    decreases |s|
  {
    if s != [] {
      NoOccurrenceUnchanged(s[1..], pat, rep);
      HeadTail(s);
    }
  }

  /** The count test in front of each replacement is immaterial: each
      well-formed entry is a plain replace-all. */
  lemma ApplyOneIsReplaceAll(s: string, search: string, replace: string)
    ensures ApplyOne(s, Pair(search, replace)) == ReplaceAll(s, search, replace)
  {
    if Count(s, search) == 0 {
      NoOccurrenceUnchanged(s, search, replace);
    }
  }

  lemma {:induction false} InterleaveLength(s: string, rep: string)
    ensures |Interleave(s, rep)| == |s| + (|s| + 1) * |rep|
    decreases |s|
  {
    if s != [] {
      InterleaveLength(s[1..], rep);
    }
  }

  /** Each replaced occurrence changes the length by |rep| - |pat|. */
  lemma ReplaceAllLength(s: string, pat: string, rep: string)
    ensures |ReplaceAll(s, pat, rep)| == |s| + Count(s, pat) * (|rep| - |pat|)
  {
    if pat == [] {
      InterleaveLength(s, rep);
    } else {
      ReplaceLength(s, pat, rep);
    }
  }

  lemma {:induction false} ReplaceLength(s: string, pat: string, rep: string)
    requires pat != []
    ensures |ReplaceAll(s, pat, rep)| == |s| + Count(s, pat) * (|rep| - |pat|)
    decreases |s|
  {
    if s != [] {
      var d := |rep| - |pat|;
      if StartsWith(s, pat) {
        var rest := s[|pat|..];
        ReplaceLength(rest, pat, rep);
        var n := Count(rest, pat);
        Distribute(n, d);
      } else {
        ReplaceLength(s[1..], pat, rep);
      }
    }
  }

  lemma Distribute(n: int, d: int)
    ensures (1 + n) * d == d + n * d
  {
  }

  /** Replacing a non-empty pattern by itself is the identity. */
  lemma {:induction false} ReplaceBySelf(s: string, pat: string)
    requires pat != []
    ensures ReplaceAll(s, pat, pat) == s
    decreases |s|
  {
    if s != [] {
      if StartsWith(s, pat) {
        ReplaceBySelf(s[|pat|..], pat);
        assert s == s[..|pat|] + s[|pat|..];
      } else {
        ReplaceBySelf(s[1..], pat);
        HeadTail(s);
      }
    }
  }

  /** The entries are applied one after another: a list split in two is
      the first part applied, then the second. */
  lemma {:induction false} ApplyAllAppend(s: string, a: seq<Replacement>, b: seq<Replacement>)
    ensures ApplyAll(s, a + b) == ApplyAll(ApplyAll(s, a), b)
    decreases |b|
  {
    if b == [] {
      assert a + b == a;
    } else {
      var b' := b[..|b| - 1];
      AppendInit(a, b);
      ApplyAllAppend(s, a, b');
    }
  }

  /** Entries without both keys are skipped. */
  lemma {:induction false} MalformedSkipped(s: string, rs: seq<Replacement>)
    requires forall i :: 0 <= i < |rs| ==> rs[i].Malformed?
    ensures ApplyAll(s, rs) == s
    decreases |rs|
  {
    if rs != [] {
      MalformedSkipped(s, rs[..|rs| - 1]);
    }
  }

  /** Occurrences are taken left to right without overlap. */
  lemma LeftToRight()
    ensures Count("aaa", "aa") == 1
    ensures ReplaceAll("aaa", "aa", "b") == "ba"
  {
    assert StartsWith("aaa", "aa");
    assert "aaa"[2..] == "a";
    assert !StartsWith("a", "aa");
    assert "a"[1..] == [];
  }

  /** The empty pattern occurs around every character. */
  lemma EmptyPattern()
    ensures Count("ab", "") == 3
    ensures ReplaceAll("ab", "", "-") == "-a-b-"
  {
    assert "ab"[1..] == "b";
    assert "b"[1..] == [];
  }
}
