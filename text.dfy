/** Python string primitives the generator relies on: str.isspace, str.strip,
    str.startswith, the `in` substring test, str.split('\n') and '\n'.join. */
module Text {

  /** The characters for which Python's str.isspace() is true; str.strip()
      removes exactly these, and the regular-expression class \s matches them. */
  predicate IsSpace(c: char) {
    || c == ' '
    || ('\t' <= c <= '\r')
    || ('\U{1C}' <= c <= '\U{1F}')
    || c == '\U{85}' || c == '\U{A0}' || c == '\U{1680}'
    || ('\U{2000}' <= c <= '\U{200A}')
    || c == '\U{2028}' || c == '\U{2029}' || c == '\U{202F}' || c == '\U{205F}' || c == '\U{3000}'
  }

  predicate AllSpace(s: string) {
    forall i :: 0 <= i < |s| ==> IsSpace(s[i])
  }

  /** s.startswith(p) */
  predicate StartsWith(s: string, p: string) {
    |p| <= |s| && s[..|p|] == p
  }

  /** sub in s */
  predicate Contains(s: string, sub: string)
    decreases |s|
  {
    StartsWith(s, sub) || (s != [] && Contains(s[1..], sub))
  }

  /** sub occurs in s exactly when s has a suffix that starts with sub. */
  lemma {:induction false} ContainsAt(s: string, sub: string)
    ensures Contains(s, sub) <==> exists k :: 0 <= k <= |s| && StartsWith(s[k..], sub)
    decreases |s|
  {
    assert s[0..] == s;
    if s != [] {
      ContainsAt(s[1..], sub);
      if Contains(s[1..], sub) {
        var k :| 0 <= k <= |s[1..]| && StartsWith(s[1..][k..], sub);
        assert s[1..][k..] == s[k + 1..];
      }
      if !StartsWith(s, sub) && exists k :: 0 <= k <= |s| && StartsWith(s[k..], sub) {
        var k :| 0 <= k <= |s| && StartsWith(s[k..], sub);
        assert k != 0;
        assert s[1..][k - 1..] == s[k..];
      }
    }
  }

  /** What occurs in a slice of s occurs in s. */
  lemma ContainsSlice(s: string, i: nat, j: nat, sub: string)
    requires i <= j <= |s| && Contains(s[i..j], sub)
    ensures Contains(s, sub)
  {
    ContainsAt(s[i..j], sub);
    var k :| 0 <= k <= |s[i..j]| && StartsWith(s[i..j][k..], sub);
    SliceShift(s, i, j, k, |sub|);
    ContainsAt(s, sub);
  }

  lemma SliceShift<T>(s: seq<T>, i: nat, j: nat, k: nat, n: nat)
    requires i <= j <= |s| && k + n <= j - i
    ensures s[i..j][k..][..n] == s[i + k..][..n]
  {
    assert forall m :: 0 <= m < n ==> s[i..j][k..][..n][m] == s[i + k + m];
  }

  /** The number of whitespace characters s starts with. */
  function LeadingSpaces(s: string): (n: nat)
    ensures n <= |s|
    decreases |s|
  {
    if s != [] && IsSpace(s[0]) then 1 + LeadingSpaces(s[1..]) else 0
  }

  /** The number of whitespace characters s ends with. */
  function TrailingSpaces(s: string): (n: nat)
    ensures n <= |s|
    decreases |s|
  {
    if s != [] && IsSpace(s[|s| - 1]) then 1 + TrailingSpaces(s[..|s| - 1]) else 0
  }

  lemma {:induction false} LeadingSpacesFacts(s: string)
    ensures AllSpace(s[..LeadingSpaces(s)])
    ensures LeadingSpaces(s) < |s| ==> !IsSpace(s[LeadingSpaces(s)])
    decreases |s|
  {
    if s != [] && IsSpace(s[0]) {
      LeadingSpacesFacts(s[1..]);
      assert s[..LeadingSpaces(s)] == [s[0]] + s[1..][..LeadingSpaces(s[1..])];
    }
  }

  lemma TrailingSpacesFacts(s: string)
    ensures AllSpace(s[|s| - TrailingSpaces(s)..])
    ensures TrailingSpaces(s) < |s| ==> !IsSpace(s[|s| - 1 - TrailingSpaces(s)])
  {
    TrailingSpacesAll(s);
    TrailingSpacesStop(s);
  }

  lemma TrailingSpacesAll(s: string)
    ensures AllSpace(s[|s| - TrailingSpaces(s)..])
  {
    var k := |s| - TrailingSpaces(s);
    forall i | 0 <= i < |s[k..]|
      ensures IsSpace(s[k..][i])
    {
      TrailingSpaceAt(s, k + i);
    }
  }

  lemma {:induction false} TrailingSpaceAt(s: string, i: nat)
    requires |s| - TrailingSpaces(s) <= i < |s|
    ensures IsSpace(s[i])
    decreases |s|
  {
    var s' := s[..|s| - 1];
    if i < |s'| {
      assert s'[i] == s[i];
      TrailingSpaceAt(s', i);
    }
  }

  lemma {:induction false} TrailingSpacesStop(s: string)
    ensures TrailingSpaces(s) < |s| ==> !IsSpace(s[|s| - 1 - TrailingSpaces(s)])
    decreases |s|
  {
    if s != [] && IsSpace(s[|s| - 1]) {
      var s' := s[..|s| - 1];
      TrailingSpacesStop(s');
      if TrailingSpaces(s) < |s| {
        assert s'[|s'| - 1 - TrailingSpaces(s')] == s[|s| - 1 - TrailingSpaces(s)];
      }
    }
  }

  function TrimStart(s: string): string {
    s[LeadingSpaces(s)..]
  }

  function TrimEnd(s: string): string {
    s[..|s| - TrailingSpaces(s)]
  }

  /** s.strip() */
  function Strip(s: string): string {
    TrimEnd(TrimStart(s))
  }

  /** The strip neither starts nor ends with whitespace. */
  lemma StripEnds(s: string)
    ensures var r := Strip(s); r != [] ==> !IsSpace(r[0]) && !IsSpace(r[|r| - 1])
  {
    LeadingSpacesFacts(s);
    TrailingSpacesFacts(TrimStart(s));
  }

  /** The strip is a slice of s and what is cut off on either side is whitespace. */
  lemma StripSlice(s: string)
    ensures exists i, j :: 0 <= i <= j <= |s| && Strip(s) == s[i..j] && AllSpace(s[..i]) && AllSpace(s[j..])
  {
    var t := TrimStart(s);
    LeadingSpacesFacts(s);
    TrailingSpacesFacts(t);
    var i := LeadingSpaces(s);
    var j := i + |t| - TrailingSpaces(t);
    assert Strip(s) == s[i..j];
    assert s[j..] == t[|t| - TrailingSpaces(t)..];
  }

  /** A character absent from s is absent from its strip. */
  lemma StripKeeps(s: string, c: char)
    requires c !in s
    ensures c !in Strip(s)
  {
    StripSlice(s);
    var i, j :| 0 <= i <= j <= |s| && Strip(s) == s[i..j] && AllSpace(s[..i]) && AllSpace(s[j..]);
  }

  /** What occurs in the strip of s occurs in s. */
  lemma StripContains(s: string, sub: string)
    requires Contains(Strip(s), sub)
    ensures Contains(s, sub)
  {
    StripSlice(s);
    var i, j :| 0 <= i <= j <= |s| && Strip(s) == s[i..j] && AllSpace(s[..i]) && AllSpace(s[j..]);
    ContainsSlice(s, i, j, sub);
  }

  /** A string that neither starts nor ends with whitespace is its own strip. */
  lemma StripOfTrimmed(s: string)
    requires s != [] ==> !IsSpace(s[0]) && !IsSpace(s[|s| - 1])
    ensures Strip(s) == s
  {
  }

  lemma StripIdempotent(s: string)
    ensures Strip(Strip(s)) == Strip(s)
  {
    StripEnds(s);
    StripOfTrimmed(Strip(s));
  }

  lemma {:induction false} TrimStartOfSpaces(s: string)
    requires AllSpace(s)
    ensures TrimStart(s) == []
    decreases |s|
  {
    if s != [] {
      TrimStartOfSpaces(s[1..]);
    }
  }

  /** A leading whitespace character does not change the strip. */
  lemma StripSpaceCons(c: char, s: string)
    requires IsSpace(c)
    ensures Strip([c] + s) == Strip(s)
  {
    assert ([c] + s)[1..] == s;
  }

  lemma {:induction false} TrimStartSnoc(s: string, c: char)
    ensures TrimStart(s + [c]) == if AllSpace(s) then TrimStart([c]) else TrimStart(s) + [c]
    decreases |s|
  {
    if s == [] {
      assert s + [c] == [c];
    } else {
      TailSnoc(s, c);
      if IsSpace(s[0]) {
        TrimStartSnoc(s[1..], c);
      }
    }
  }

  /** A trailing whitespace character does not change the strip. */
  lemma StripSpaceSnoc(s: string, c: char)
    requires IsSpace(c)
    ensures Strip(s + [c]) == Strip(s)
  {
    TrimStartSnoc(s, c);
    if AllSpace(s) {
      TrimStartOfSpaces(s);
      TrimStartOfSpaces([c]);
    } else {
      var t := TrimStart(s);
      assert (t + [c])[..|t + [c]| - 1] == t;
    }
  }

  /** s.split('\n'): the pieces between newline characters; never empty. */
  function Split(s: string): (r: seq<string>)
    ensures |r| >= 1
    ensures forall i :: 0 <= i < |r| ==> '\n' !in r[i]
    decreases |s|
  {
    if s == [] then [""]
    else
      var rest := Split(s[1..]);
      if s[0] == '\n' then [""] + rest
      else [[s[0]] + rest[0]] + rest[1..]
  }

  /** '\n'.join(lines) */
  function Join(lines: seq<string>): string
    decreases |lines|
  {
    if lines == [] then ""
    else if |lines| == 1 then lines[0]
    else lines[0] + "\n" + Join(lines[1..])
  }

  predicate NoNewline(lines: seq<string>) {
    forall i :: 0 <= i < |lines| ==> '\n' !in lines[i]
  }

  lemma NoNewlineAppend(a: seq<string>, b: seq<string>)
    requires NoNewline(a) && NoNewline(b)
    ensures NoNewline(a + b)
  {
    forall i | 0 <= i < |a + b|
      ensures '\n' !in (a + b)[i]
    {
      if i < |a| {
        assert (a + b)[i] == a[i];
      } else {
        assert (a + b)[i] == b[i - |a|];
      }
    }
  }

  /** Joining the pieces of a split gives back the string. */
  lemma {:induction false} JoinSplit(s: string)
    ensures Join(Split(s)) == s
    decreases |s|
  {
    if s != [] {
      JoinSplit(s[1..]);
      var rest := Split(s[1..]);
      if s[0] == '\n' {
        assert Join([""] + rest) == "" + "\n" + Join(rest) by {
          assert ([""] + rest)[1..] == rest;
        }
      } else {
        var first := [s[0]] + rest[0];
        if |rest| == 1 {
        } else {
          assert ([first] + rest[1..])[1..] == rest[1..];
          assert Join(rest) == rest[0] + "\n" + Join(rest[1..]);
        }
      }
    }
  }

  /** Splitting a join of newline-free lines gives back the lines. */
  lemma {:induction false} SplitJoin(lines: seq<string>)
    requires lines != [] && NoNewline(lines)
    ensures Split(Join(lines)) == lines
    decreases |lines|
  {
    if |lines| == 1 {
      SplitNoNewline(lines[0]);
    } else {
      SplitJoin(lines[1..]);
      SplitNewline(lines[0], Join(lines[1..]));
      SplitNoNewline(lines[0]);
      HeadTail(lines);
    }
  }

  lemma {:induction false} SplitNoNewline(s: string)
    requires '\n' !in s
    ensures Split(s) == [s]
    decreases |s|
  {
    if s != [] {
      HeadTail(s);
      SplitNoNewline(s[1..]);
    }
  }

  /** Splitting at a newline splits the two sides independently. */
  lemma {:induction false} SplitNewline(x: string, y: string)
    ensures Split(x + "\n" + y) == Split(x) + Split(y)
    decreases |x|
  {
    if x == [] {
      assert x + "\n" + y == "\n" + y;
      assert ("\n" + y)[1..] == y;
    } else {
      assert (x + "\n" + y)[0] == x[0];
      assert (x + "\n" + y)[1..] == x[1..] + "\n" + y;
      SplitNewline(x[1..], y);
    }
  }

  /** Joining two non-empty runs of lines puts one newline between them. */
  lemma {:induction false} JoinAppend(a: seq<string>, b: seq<string>)
    requires a != [] && b != []
    ensures Join(a + b) == Join(a) + "\n" + Join(b)
    decreases |a|
  {
    if |a| == 1 {
      assert (a + b)[1..] == b;
    } else {
      TailAppend(a, b);
      JoinAppend(a[1..], b);
    }
  }

  /** Joining one more line puts a newline before it. */
  lemma JoinSnoc(a: seq<string>, x: string)
    requires a != []
    ensures Join(a + [x]) == Join(a) + "\n" + x
  {
    JoinAppend(a, [x]);
  }

  /** Appending a character other than a newline extends the last piece. */
  lemma {:induction false} SplitSnoc(y: string, c: char)
    requires c != '\n'
    ensures var r := Split(y); Split(y + [c]) == r[..|r| - 1] + [r[|r| - 1] + [c]]
    decreases |y|
  {
    if y == [] {
      assert y + [c] == [c];
      SplitOne(c);
    } else {
      TailSnoc(y, c);
      SplitSnoc(y[1..], c);
      var r := Split(y[1..]);
      if y[0] == '\n' {
        SnocAfterNewline(r, c);
      } else {
        SnocAfterChar(y[0], r, c);
      }
    }
  }

  lemma SplitOne(c: char)
    requires c != '\n'
    ensures Split([c]) == [[c]]
  {
    var t := [c];
    assert t[1..] == [];
    assert Split(t[1..]) == [""];
    assert [c] + "" == [c];
  }

  lemma SnocAfterNewline(r: seq<string>, c: char)
    requires r != []
    ensures var t := [""] + r;
      t[..|t| - 1] + [t[|t| - 1] + [c]] == [""] + (r[..|r| - 1] + [r[|r| - 1] + [c]])
  {
    var t := [""] + r;
    assert t[..|t| - 1] == [""] + r[..|r| - 1];
  }

  lemma SnocAfterChar(h: char, r: seq<string>, c: char)
    requires r != []
    ensures var t := [[h] + r[0]] + r[1..];
      var r' := r[..|r| - 1] + [r[|r| - 1] + [c]];
      t[..|t| - 1] + [t[|t| - 1] + [c]] == [[h] + r'[0]] + r'[1..]
  {
    var t := [[h] + r[0]] + r[1..];
    var r' := r[..|r| - 1] + [r[|r| - 1] + [c]];
    if |r| == 1 {
      assert r' == [r[0] + [c]];
      assert [h] + (r[0] + [c]) == ([h] + r[0]) + [c];
    } else {
      assert r'[0] == r[0];
      assert r'[1..] == r[1..|r| - 1] + [r[|r| - 1] + [c]];
      assert t[..|t| - 1] == [[h] + r[0]] + r[1..|r| - 1];
    }
  }

  /** The pieces of the lines, each split at its newlines, in order. */
  function SplitEach(lines: seq<string>): seq<string>
    decreases |lines|
  {
    if lines == [] then [] else SplitEach(lines[..|lines| - 1]) + Split(lines[|lines| - 1])
  }

  /** Splitting a join splits every joined line. */
  lemma {:induction false} SplitJoinEach(lines: seq<string>)
    requires lines != []
    ensures Split(Join(lines)) == SplitEach(lines)
    decreases |lines|
  {
    var init := lines[..|lines| - 1];
    var last := lines[|lines| - 1];
    if init == [] {
      assert lines == [last];
    } else {
      SplitJoinEach(init);
      InitLast(lines);
      JoinSnoc(init, last);
      SplitNewline(Join(init), last);
    }
  }

  lemma {:induction false} SplitEachAppend(a: seq<string>, b: seq<string>)
    ensures SplitEach(a + b) == SplitEach(a) + SplitEach(b)
    decreases |b|
  {
    if b == [] {
      assert a + b == a;
    } else {
      var b' := b[..|b| - 1];
      AppendInit(a, b);
      assert (a + b)[|a + b| - 1] == b[|b| - 1];
      SplitEachAppend(a, b');
      AppendAssoc(SplitEach(a), SplitEach(b'), Split(b[|b| - 1]));
    }
  }

  lemma {:induction false} SplitEachNoNewline(lines: seq<string>)
    requires NoNewline(lines)
    ensures SplitEach(lines) == lines
    decreases |lines|
  {
    if lines != [] {
      var init := lines[..|lines| - 1];
      assert NoNewline(init) by {
        assert forall i :: 0 <= i < |init| ==> init[i] == lines[i];
      }
      SplitEachNoNewline(init);
      SplitNoNewline(lines[|lines| - 1]);
      InitLast(lines);
    }
  }

  lemma AppendAssoc<T>(a: seq<T>, b: seq<T>, c: seq<T>)
    ensures (a + b) + c == a + (b + c)
  {
  }

  /** Slicing facts, proved once so that the loops over large specification
      terms do not redo them. */
  lemma TakeTake<T>(s: seq<T>, i: nat)
    requires i < |s|
    ensures s[..i + 1][..i] == s[..i]
  {
  }

  lemma TakeAll<T>(s: seq<T>)
    ensures s[..|s|] == s
  {
  }

  lemma SnocInit<T>(s: seq<T>, x: T)
    ensures (s + [x])[..|s|] == s
  {
  }

  lemma AppendInit<T>(a: seq<T>, b: seq<T>)
    requires b != []
    ensures (a + b)[..|a + b| - 1] == a + b[..|b| - 1]
  {
  }

  lemma TakeSnoc<T>(s: seq<T>, i: nat)
    requires i < |s|
    ensures s[..i + 1] == s[..i] + [s[i]]
  {
  }

  lemma HeadTail<T>(s: seq<T>)
    requires s != []
    ensures [s[0]] + s[1..] == s
  {
  }

  lemma TailAppend<T>(a: seq<T>, b: seq<T>)
    requires a != []
    ensures (a + b)[0] == a[0] && (a + b)[1..] == a[1..] + b
  {
  }

  lemma TailSnoc<T>(s: seq<T>, x: T)
    requires s != []
    ensures (s + [x])[0] == s[0] && (s + [x])[1..] == s[1..] + [x]
  {
  }

  lemma AppendAssoc4<T>(a: seq<T>, b: seq<T>, c: seq<T>, d: seq<T>)
    ensures a + (b + (c + d)) == ((a + b) + c) + d
  {
    AppendAssoc(a, b, c + d);
    AppendAssoc(a + b, c, d);
  }

  lemma InitLast<T>(s: seq<T>)
    requires s != []
    ensures s[..|s| - 1] + [s[|s| - 1]] == s
  {
  }
}
