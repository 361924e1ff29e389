/** The parsed document: a Python dict from section name to body, kept as an
    association list in insertion order. */
module Sections {

  datatype Option<T> = None | Some(value: T)

  datatype Entry = Entry(name: string, body: string)

  function Names(al: seq<Entry>): (r: seq<string>)
    ensures |r| == |al|
    decreases |al|
  {
    if al == [] then [] else [al[0].name] + Names(al[1..])
  }

  predicate Distinct(s: seq<string>) {
    forall i, j :: 0 <= i < j < |s| ==> s[i] != s[j]
  }

  /** sections.get(k): the body of the entry named k, if there is one. */
  function Lookup(al: seq<Entry>, k: string): (r: Option<string>)
    ensures r.None? <==> k !in Names(al)
    decreases |al|
  {
    if al == [] then None
    else if al[0].name == k then Some(al[0].body)
    else Lookup(al[1..], k)
  }

  /** sections.get(k, default) */
  function Get(al: seq<Entry>, k: string, default: string): string {
    match Lookup(al, k)
    case Some(v) => v
    case None => default
  }

  /** sections[k] = v: a new name goes last, an existing name keeps its
      place and gets the new body, and nothing else changes. */
  function Put(al: seq<Entry>, k: string, v: string): (r: seq<Entry>)
    ensures Lookup(r, k) == Some(v)
    ensures forall k' :: k' != k ==> Lookup(r, k') == Lookup(al, k')
    ensures k in Names(al) ==> Names(r) == Names(al)
    ensures k !in Names(al) ==> Names(r) == Names(al) + [k]
    decreases |al|
  {
    if al == [] then [Entry(k, v)]
    else if al[0].name == k then
      ConsEntry(Entry(k, v), al[1..]);
      ConsEntry(al[0], al[1..]);
      assert al == [al[0]] + al[1..];
      [Entry(k, v)] + al[1..]
    else
      PutCons(al, k, v, Put(al[1..], k, v));
      [al[0]] + Put(al[1..], k, v)
  }

  lemma PutCons(al: seq<Entry>, k: string, v: string, t: seq<Entry>)
    requires al != [] && al[0].name != k
    requires Lookup(t, k) == Some(v)
    requires forall k' :: k' != k ==> Lookup(t, k') == Lookup(al[1..], k')
    requires k in Names(al[1..]) ==> Names(t) == Names(al[1..])
    requires k !in Names(al[1..]) ==> Names(t) == Names(al[1..]) + [k]
    ensures Lookup([al[0]] + t, k) == Some(v)
    ensures forall k' :: k' != k ==> Lookup([al[0]] + t, k') == Lookup(al, k')
    ensures k in Names(al) ==> Names([al[0]] + t) == Names(al)
    ensures k !in Names(al) ==> Names([al[0]] + t) == Names(al) + [k]
  {
    ConsEntry(al[0], t);
    ConsEntry(al[0], al[1..]);
    assert al == [al[0]] + al[1..];
    if k !in Names(al) {
      assert Names(al) + [k] == [al[0].name] + (Names(al[1..]) + [k]);
    }
  }

  lemma ConsEntry(e: Entry, t: seq<Entry>)
    ensures Names([e] + t) == [e.name] + Names(t)
    ensures forall k :: Lookup([e] + t, k) == if e.name == k then Some(e.body) else Lookup(t, k)
  {
    assert ([e] + t)[1..] == t;
  }

  lemma PutKeepsDistinct(al: seq<Entry>, k: string, v: string)
    requires Distinct(Names(al))
    ensures Distinct(Names(Put(al, k, v)))
  {
  }
  /** Assigning a new name appends it. */
  lemma {:induction false} PutNew(al: seq<Entry>, k: string, v: string)
    requires k !in Names(al)
    ensures Put(al, k, v) == al + [Entry(k, v)]
    decreases |al|
  {
    if al != [] {
      assert Names(al) == [al[0].name] + Names(al[1..]);
      assert Put(al, k, v) == [al[0]] + Put(al[1..], k, v);
      PutNew(al[1..], k, v);
      assert al == [al[0]] + al[1..];
    }
  }

  /** An entry after an assignment is an earlier entry or the assigned one. */
  lemma {:induction false} PutMember(al: seq<Entry>, k: string, v: string, e: Entry)
    requires e in Put(al, k, v)
    ensures e in al || e == Entry(k, v)
    decreases |al|
  {
    if al != [] {
      assert al == [al[0]] + al[1..];
      if al[0].name != k {
        assert Put(al, k, v) == [al[0]] + Put(al[1..], k, v);
        if e != al[0] {
          PutMember(al[1..], k, v, e);
        }
      } else {
        assert Put(al, k, v) == [Entry(k, v)] + al[1..];
      }
    }
  }

  /** The position of the entry a lookup finds. */
  lemma {:induction false} LookupAt(al: seq<Entry>, k: string) returns (i: nat)
    requires Lookup(al, k).Some?
    ensures i < |al| && al[i] == Entry(k, Lookup(al, k).value)
    decreases |al|
  {
    if al[0].name == k {
      i := 0;
    } else {
      var j := LookupAt(al[1..], k);
      i := j + 1;
    }
  }

  lemma {:induction false} LookupAppend(a: seq<Entry>, b: seq<Entry>, k: string)
    ensures Lookup(a + b, k) == if k in Names(a) then Lookup(a, k) else Lookup(b, k)
    decreases |a|
  {
    if a == [] {
      assert a + b == b;
    } else {
      assert (a + b)[0] == a[0];
      assert (a + b)[1..] == a[1..] + b;
      LookupAppend(a[1..], b, k);
    }
  }

  /** The i-th name is the name of the i-th entry. */
  lemma {:induction false} NamesAt(al: seq<Entry>)
    ensures forall i :: 0 <= i < |al| ==> Names(al)[i] == al[i].name
    decreases |al|
  {
    if al != [] {
      NamesAt(al[1..]);
      assert forall i :: 1 <= i < |al| ==> al[1..][i - 1] == al[i];
    }
  }
}
