/** add_config_items: appends candidate lines to a section body, skipping
    those already present. */
module Dedup {
  import opened Text
  import opened Config

  /** A body line that counts as an existing item: non-blank and not a
      comment once stripped. */
  predicate IsItemLine(line: string) {
    var t := Strip(line);
    t != "" && !StartsWith(t, "#")
  }

  /** The set of existing items: the stripped item lines of the body. */
  function Existing(lines: seq<string>): set<string>
    decreases |lines|
  {
    if lines == [] then {}
    else
      var last := lines[|lines| - 1];
      Existing(lines[..|lines| - 1]) + (if IsItemLine(last) then {Strip(last)} else {})
  }

  function Elems(s: seq<string>): set<string> {
    set x | x in s
  }

  /** The candidates appended, in order: each string candidate, stripped,
      that is non-empty and neither an existing item nor added before. */
  function Added(existing: set<string>, items: seq<Item>): seq<string>
    decreases |items|
  {
    if items == [] then []
    else
      var prev := Added(existing, items[..|items| - 1]);
      match items[|items| - 1]
      case NonStr => prev
      case Str(s) =>
        var t := Strip(s);
        if t != "" && t !in existing && t !in prev then prev + [t] else prev
  }

  /** The body add_config_items returns. */
  function AddItems(content: string, items: seq<Item>): string {
    if items == [] then content
    else Join(Split(content) + Added(Existing(Split(content)), items))
  }

  method AddConfigItems(content: string, items: seq<Item>) returns (r: string)
    ensures r == AddItems(content, items)
  {
    if |items| == 0 {
      return content;
    }
    var lines := Split(content);
    ghost var original := lines;
    var existing: set<string> := {};
    for i := 0 to |lines|
      invariant existing == Existing(lines[..i])
    {
      TakeTake(lines, i);
      var t := Strip(lines[i]);
      if t != "" && !StartsWith(t, "#") {
        existing := existing + {t};
      }
    }
    TakeAll(lines);
    ghost var base := existing;
    ghost var added: seq<string> := [];
    for k := 0 to |items|
      invariant added == Added(base, items[..k])
      invariant lines == original + added
      invariant existing == base + Elems(added)
    {
      TakeTake(items, k);
      match items[k] {
        case NonStr =>
        case Str(s) =>
          var t := Strip(s);
          if t != "" && t !in existing {
            lines := lines + [t];
            existing := existing + {t};
            added := added + [t];
          }
      }
    }
    TakeAll(items);
    r := Join(lines);
  }

  /** t is an existing item exactly when some item line strips to it. */
  lemma ExistingMember(lines: seq<string>, t: string)
    ensures t in Existing(lines) <==>
      exists j :: 0 <= j < |lines| && IsItemLine(lines[j]) && Strip(lines[j]) == t
  {
    if t in Existing(lines) {
      var j := ExistingWitness(lines, t);
    }
    if j :| 0 <= j < |lines| && IsItemLine(lines[j]) && Strip(lines[j]) == t {
      ExistingOf(lines, j);
    }
  }

  lemma {:induction false} ExistingWitness(lines: seq<string>, t: string) returns (j: nat)
    requires t in Existing(lines)
    ensures j < |lines| && IsItemLine(lines[j]) && Strip(lines[j]) == t
    decreases |lines|
  {
    var init := lines[..|lines| - 1];
    if t in Existing(init) {
      j := ExistingWitness(init, t);
      assert init[j] == lines[j];
    } else {
      j := |lines| - 1;
    }
  }

  lemma {:induction false} ExistingOf(lines: seq<string>, j: nat)
    requires j < |lines| && IsItemLine(lines[j])
    ensures Strip(lines[j]) in Existing(lines)
    decreases |lines|
  {
    var init := lines[..|lines| - 1];
    if j < |init| {
      assert init[j] == lines[j];
      ExistingOf(init, j);
    }
  }

  predicate Fresh(a: seq<string>, existing: set<string>) {
    forall i :: 0 <= i < |a| ==> a[i] != "" && a[i] !in existing && Strip(a[i]) == a[i]
  }

  predicate NoRepeat(a: seq<string>) {
    forall i, j :: 0 <= i < j < |a| ==> a[i] != a[j]
  }

  /** Every appended line is non-empty, already stripped, not an existing
      item, and appears once. */
  lemma {:induction false} AddedFacts(existing: set<string>, items: seq<Item>)
    ensures Fresh(Added(existing, items), existing)
    ensures NoRepeat(Added(existing, items))
    decreases |items|
  {
    if items != [] {
      var prev := Added(existing, items[..|items| - 1]);
      AddedFacts(existing, items[..|items| - 1]);
      if items[|items| - 1].Str? {
        var t := Strip(items[|items| - 1].s);
        StripIdempotent(items[|items| - 1].s);
        if t != "" && t !in existing && t !in prev {
          var a := prev + [t];
          assert Added(existing, items) == a;
          assert forall i :: 0 <= i < |prev| ==> a[i] == prev[i];
        } else {
          assert Added(existing, items) == prev;
        }
      } else {
        assert Added(existing, items) == prev;
      }
    }
  }

  /** A line is appended exactly when it is the non-empty strip of some string
      candidate and not an existing item. */
  lemma {:induction false} AddedMember(existing: set<string>, items: seq<Item>, t: string)
    ensures t in Added(existing, items) <==>
      t != "" && t !in existing &&
      exists k :: 0 <= k < |items| && items[k].Str? && Strip(items[k].s) == t
    decreases |items|
  {
    if items != [] {
      var init := items[..|items| - 1];
      AddedMember(existing, init, t);
      assert forall k :: 0 <= k < |init| ==> init[k] == items[k];
    }
  }

  /** Candidates are handled one after another: the lines added for a + b are
      those added for a, then those added for b against everything seen so far. */
  lemma {:induction false} AddedAppend(existing: set<string>, a: seq<Item>, b: seq<Item>)
    ensures Added(existing, a + b) ==
      Added(existing, a) + Added(existing + Elems(Added(existing, a)), b)
    decreases |b|
  {
    if b == [] {
      assert a + b == a;
    } else {
      var b' := b[..|b| - 1];
      AppendInit(a, b);
      AddedAppend(existing, a, b');
    }
  }

  /** When every string candidate strips to an empty string or to something
      already known, nothing is added. */
  lemma {:induction false} AddedNothing(existing: set<string>, items: seq<Item>)
    requires forall k :: 0 <= k < |items| && items[k].Str? ==>
      Strip(items[k].s) == "" || Strip(items[k].s) in existing
    ensures Added(existing, items) == []
    decreases |items|
  {
    if items != [] {
      AddedNothing(existing, items[..|items| - 1]);
    }
  }

  /** With no new candidate the body comes back unchanged. */
  lemma NothingNewUnchanged(content: string, items: seq<Item>)
    requires Added(Existing(Split(content)), items) == []
    ensures AddItems(content, items) == content
  {
    JoinSplit(content);
    assert Split(content) + [] == Split(content);
  }

  /** Otherwise the added lines follow the body, one per line. */
  lemma AppendsAfterBody(content: string, items: seq<Item>)
    requires Added(Existing(Split(content)), items) != []
    ensures AddItems(content, items) == content + "\n" + Join(Added(Existing(Split(content)), items))
  {
    JoinSplit(content);
    JoinAppend(Split(content), Added(Existing(Split(content)), items));
  }

  lemma {:induction false} ExistingAppendItems(lines: seq<string>, added: seq<string>)
    requires forall i :: 0 <= i < |added| ==> IsItemLine(added[i]) && Strip(added[i]) == added[i]
    ensures Existing(lines + added) == Existing(lines) + Elems(added)
    decreases |added|
  {
    if added == [] {
      assert lines + added == lines;
    } else {
      var init := added[..|added| - 1];
      AppendInit(lines, added);
      ExistingAppendItems(lines, init);
      ElemsSnoc(added);
    }
  }

  lemma ElemsSnoc(s: seq<string>)
    requires s != []
    ensures Elems(s) == Elems(s[..|s| - 1]) + {s[|s| - 1]}
  {
    InitLast(s);
  }

  /** Merging the same candidates twice adds nothing the second time, as long
      as no candidate spans several lines or reads as a comment (such a
      candidate is not recognised as present and is appended again). */
  lemma AddItemsIdempotent(content: string, items: seq<Item>)
    requires forall k :: 0 <= k < |items| && items[k].Str? ==>
      '\n' !in Strip(items[k].s) && !StartsWith(Strip(items[k].s), "#")
    ensures AddItems(AddItems(content, items), items) == AddItems(content, items)
  {
    if items != [] {
      var lines := Split(content);
      var e := Existing(lines);
      var a := Added(e, items);
      AddedFacts(e, items);
      forall i | 0 <= i < |a|
        ensures IsItemLine(a[i]) && '\n' !in a[i]
      {
        AddedMember(e, items, a[i]);
        var k :| 0 <= k < |items| && items[k].Str? && Strip(items[k].s) == a[i];
      }
      SplitJoin(lines + a);
      ExistingAppendItems(lines, a);
      forall k | 0 <= k < |items| && items[k].Str?
        ensures Strip(items[k].s) == "" || Strip(items[k].s) in e + Elems(a)
      {
        AddedMember(e, items, Strip(items[k].s));
      }
      AddedNothing(e + Elems(a), items);
      assert lines + a + [] == lines + a;
    }
  }

  /** Nothing that reads as a comment is an existing item. */
  lemma CommentNotExisting(lines: seq<string>, t: string)
    requires StartsWith(t, "#")
    ensures t !in Existing(lines)
  {
    ExistingMember(lines, t);
  }

  /** A candidate that reads as a comment is appended on every merge: the
      opposite of the idempotence above. */
  lemma CommentCandidateRepeats(content: string, c: string)
    requires StartsWith(Strip(c), "#") && '\n' !in c
    ensures AddItems(content, [Str(c)]) == content + "\n" + Strip(c)
    ensures AddItems(AddItems(content, [Str(c)]), [Str(c)]) == AddItems(content, [Str(c)]) + "\n" + Strip(c)
  {
    var t := Strip(c);
    var lines := Split(content);
    CommentNotExisting(lines, t);
    assert [Str(c)][..0] == [];
    assert Added(Existing(lines), [Str(c)]) == [t];
    AppendsAfterBody(content, [Str(c)]);
    StripSlice(c);
    assert '\n' !in t;
    SplitJoin(lines + [t]);
    var lines' := lines + [t];
    assert lines'[..|lines'| - 1] == lines;
    assert !IsItemLine(t) by {
      StripIdempotent(c);
    }
    assert Existing(lines') == Existing(lines);
    JoinAppend(lines', [t]);
  }
}
