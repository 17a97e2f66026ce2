// Siblings arranged by start. The sort is not stable, so that every arrangement of a
// tie is possible.
module Arrangements {
  import opened Model
  import opened Sequences
  import opened TraceTree

  lemma FirstFrom(cs: seq<Span>, t: Time) returns (lo: nat)
    requires SortedByStart(cs)
    ensures lo <= |cs|
    ensures forall k :: 0 <= k < lo ==> cs[k].data.start < t
    ensures forall k :: lo <= k < |cs| ==> t <= cs[k].data.start
  {
    lo := 0;
    while lo < |cs| && cs[lo].data.start < t
      invariant lo <= |cs|
      invariant forall k :: 0 <= k < lo ==> cs[k].data.start < t
    {
      lo := lo + 1;
    }
  }

  lemma PutSorted(cs: seq<Span>, i: nat, x: Span)
    requires SortedByStart(cs) && i <= |cs|
    requires forall k :: 0 <= k < i ==> cs[k].data.start <= x.data.start
    requires forall k :: i <= k < |cs| ==> x.data.start <= cs[k].data.start
    ensures SortedByStart(Put(cs, i, x))
    ensures multiset(Put(cs, i, x)) == multiset(cs) + multiset{x}
  {
    assert cs == cs[..i] + cs[i..];
  }

  lemma ArrangementExists(children: seq<Span>) returns (cs: seq<Span>)
    ensures multiset(cs) == multiset(children) && SortedByStart(cs)
  {
    cs := SortExists(children, (x: Span, y: Span) => x.data.start <= y.data.start);
  }

  lemma CutSorted(cs: seq<Span>, p: nat)
    requires SortedByStart(cs) && p < |cs|
    ensures SortedByStart(Cut(cs, p)) && multiset(cs) == multiset(Cut(cs, p)) + multiset{cs[p]}
  {
    assert cs == cs[..p] + [cs[p]] + cs[p + 1..];
  }

  // z moved to the front of its tie, or to the back.
  lemma MovedInTie(cs: seq<Span>, p: nat, front: bool) returns (moved: seq<Span>, at: nat)
    requires SortedByStart(cs) && p < |cs|
    ensures multiset(moved) == multiset(cs) && SortedByStart(moved)
    ensures at < |moved| && moved[at] == cs[p]
    ensures front ==> forall k :: 0 <= k < at ==> moved[k].data.start < cs[p].data.start
    ensures !front ==> forall k :: at < k < |moved| ==> cs[p].data.start < moved[k].data.start
  {
    var z := cs[p];
    var rest := Cut(cs, p);
    CutSorted(cs, p);
    hide SortedByStart, Cut;
    at := FirstFrom(rest, if front then z.data.start else z.data.start + 1);
    PutSorted(rest, at, z);
    moved := Put(rest, at, z);
  }

  // All children but one, arranged.
  lemma Without(all: seq<Span>, x: Span) returns (rest: seq<Span>)
    requires SortedByStart(all) && x in all
    ensures SortedByStart(rest) && multiset(all) == multiset(rest) + multiset{x}
    ensures forall w :: w in rest ==> w in all
    ensures forall w :: w in all && w != x ==> w in rest
  {
    var p: nat :| p < |all| && all[p] == x;
    rest := Cut(all, p);
    CutSorted(all, p);
    forall w ensures (w in rest ==> w in all) && (w in all && w != x ==> w in rest) {
      assert w in rest <==> multiset(rest)[w] > 0;
      assert w in all <==> multiset(all)[w] > 0;
    }
  }

  // y and z behind all that start no later than y, in an arrangement without them.
  lemma PutTogether(rest: seq<Span>, y: Span, z: Span) returns (cs: seq<Span>, i: nat)
    requires SortedByStart(rest) && y.data.start <= z.data.start
    requires forall w :: w in rest ==> !(y.data.start < w.data.start < z.data.start)
    ensures multiset(cs) == multiset(rest) + multiset{y} + multiset{z} && SortedByStart(cs)
    ensures i + 1 < |cs| && cs[i] == y && cs[i + 1] == z
    ensures forall k :: i + 1 < k < |cs| ==> y.data.start < cs[k].data.start
  {
    hide SortedByStart;
    i := FirstFrom(rest, y.data.start + 1);
    assert forall k :: 0 <= k < |rest| ==> rest[k] in rest;
    PutSorted(rest, i, y);
    PutSorted(Put(rest, i, y), i + 1, z);
    cs := Put(Put(rest, i, y), i + 1, z);
  }

  // Two siblings that no start separates, one after the other, with nothing behind
  // them that starts as early as the first.
  lemma ArrangedTogether(children: seq<Span>, y: Span, z: Span) returns (cs: seq<Span>, i: nat)
    requires y in children && z in children && y != z
    requires y.data.start <= z.data.start
    requires forall w :: w in children ==> !(y.data.start < w.data.start < z.data.start)
    ensures multiset(cs) == multiset(children) && SortedByStart(cs)
    ensures i + 1 < |cs| && cs[i] == y && cs[i + 1] == z
    ensures forall k :: i + 1 < k < |cs| ==> y.data.start < cs[k].data.start
  {
    hide SortedByStart;
    var all := ArrangementExists(children);
    MultisetMembers(all, children);
    var others := Without(all, y);
    var rest := Without(others, z);
    cs, i := PutTogether(rest, y, z);
  }
}
