// The order of spans within a group: by start, end, service, name and identifier.
module SpanOrder {
  import opened Model
  import opened Sequences
  import opened MatchKeys
  import Text

  predicate SpanLess(a: Span, b: Span) {
    if a.data.start != b.data.start then a.data.start < b.data.start
    else if a.data.end != b.data.end then a.data.end < b.data.end
    else if a.data.service != b.data.service then Text.Less(a.data.service, b.data.service)
    else if a.data.name != b.data.name then Text.Less(a.data.name, b.data.name)
    else Text.Less(IdText(a.data.spanId), IdText(b.data.spanId))
  }

  predicate SpanAtMost(a: Span, b: Span) {
    !SpanLess(b, a)
  }

  lemma SpanAtMostTotal(a: Span, b: Span)
    ensures SpanAtMost(a, b) || SpanAtMost(b, a)
  {
    Text.AtMostTotal(a.data.service, b.data.service);
    Text.AtMostTotal(a.data.name, b.data.name);
    Text.AtMostTotal(IdText(a.data.spanId), IdText(b.data.spanId));
  }

  lemma TextBetween(x: string, y: string, z: string)
    ensures Text.AtMost(x, y) && Text.AtMost(y, z) ==> Text.AtMost(x, z) && (x == z ==> y == z)
  {
    if Text.AtMost(x, y) && Text.AtMost(y, z) {
      Text.AtMostTransitive(x, y, z);
      if x == z {
        Text.AtMostAntisymmetric(y, z);
      }
    }
  }

  lemma SpanAtMostTransitive(a: Span, b: Span, c: Span)
    requires SpanAtMost(a, b) && SpanAtMost(b, c)
    ensures SpanAtMost(a, c)
  {
    hide Text.AtMost, IdText;
    TextBetween(a.data.service, b.data.service, c.data.service);
    TextBetween(a.data.name, b.data.name, c.data.name);
    TextBetween(IdText(a.data.spanId), IdText(b.data.spanId), IdText(c.data.spanId));
  }

  // Only spans with the same identifier are equivalent.
  lemma SpanAtMostAntisymmetric(a: Span, b: Span)
    requires SpanAtMost(a, b) && SpanAtMost(b, a)
    ensures a.data.spanId == b.data.spanId
  {
    if a.data.service != b.data.service &&
       Text.AtMost(a.data.service, b.data.service) && Text.AtMost(b.data.service, a.data.service) {
      Text.AtMostAntisymmetric(a.data.service, b.data.service);
    }
    if a.data.name != b.data.name && Text.AtMost(a.data.name, b.data.name) && Text.AtMost(b.data.name, a.data.name) {
      Text.AtMostAntisymmetric(a.data.name, b.data.name);
    }
    if Text.AtMost(IdText(a.data.spanId), IdText(b.data.spanId)) &&
       Text.AtMost(IdText(b.data.spanId), IdText(a.data.spanId)) {
      Text.AtMostAntisymmetric(IdText(a.data.spanId), IdText(b.data.spanId));
      IdTextInjective(a.data.spanId, b.data.spanId);
    }
  }

  // What the order is: by start; of equal starts by end, then by service, by name and
  // by identifier.
  lemma SpanOrderIs(a: Span, b: Span)
    ensures SpanAtMost(a, b) <==>
              var x, y := a.data, b.data;
              || x.start < y.start
              || (x.start == y.start && x.end < y.end)
              || (x.start == y.start && x.end == y.end && x.service != y.service && Text.AtMost(x.service, y.service))
              || (x.start == y.start && x.end == y.end && x.service == y.service && x.name != y.name &&
                  Text.AtMost(x.name, y.name))
              || (x.start == y.start && x.end == y.end && x.service == y.service && x.name == y.name &&
                  x.spanId <= y.spanId)
  {
    IdTextOrder(a.data.spanId, b.data.spanId);
    StrictlyBefore(a.data.service, b.data.service);
    StrictlyBefore(a.data.name, b.data.name);
  }

  lemma StrictlyBefore(x: string, y: string)
    ensures x != y ==> (Text.AtMost(x, y) <==> !Text.AtMost(y, x))
  {
    Text.AtMostTotal(x, y);
    if Text.AtMost(x, y) && Text.AtMost(y, x) {
      Text.AtMostAntisymmetric(x, y);
    }
  }

  lemma SpanOrderSorts(s: seq<Span>)
    ensures TotalOn(s, SpanAtMost) && TransitiveOn(s, SpanAtMost)
  {
    forall x, y | x in s && y in s ensures SpanAtMost(x, y) || SpanAtMost(y, x) {
      SpanAtMostTotal(x, y);
    }
    forall x, y, z | x in s && y in s && z in s && SpanAtMost(x, y) && SpanAtMost(y, z) ensures SpanAtMost(x, z) {
      SpanAtMostTransitive(x, y, z);
    }
  }

  method SortSpans(spans: seq<Span>) returns (sorted: seq<Span>)
    ensures multiset(sorted) == multiset(spans) && Sorted(sorted, SpanAtMost)
  {
    SpanOrderSorts(spans);
    sorted := SortBy(spans, SpanAtMost);
  }

  ghost predicate UniqueSpanIds(spans: seq<Span>) {
    forall a, b :: a in spans && b in spans && a.data.spanId == b.data.spanId ==> a == b
  }

  // With distinct identifiers there is only one way to sort.
  lemma OneSpanOrder(s: seq<Span>, t: seq<Span>)
    requires multiset(s) == multiset(t) && UniqueSpanIds(s)
    requires Sorted(s, SpanAtMost) && Sorted(t, SpanAtMost)
    ensures s == t
  {
    forall a, b | a in s && b in s && SpanAtMost(a, b) && SpanAtMost(b, a) ensures a == b {
      SpanAtMostAntisymmetric(a, b);
    }
    SortedUnique(s, t, SpanAtMost);
  }

  lemma TextOrderSorts(s: seq<string>)
    ensures TotalOn(s, Text.AtMost) && TransitiveOn(s, Text.AtMost)
  {
    forall x, y | x in s && y in s ensures Text.AtMost(x, y) || Text.AtMost(y, x) {
      Text.AtMostTotal(x, y);
    }
    forall x, y, z | x in s && y in s && z in s && Text.AtMost(x, y) && Text.AtMost(y, z) ensures Text.AtMost(x, z) {
      Text.AtMostTransitive(x, y, z);
    }
  }

  method SortTexts(texts: set<string>) returns (sorted: seq<string>)
    ensures IsEnumeration(sorted, texts)
  {
    var found: seq<string>, rest := [], texts;
    while rest != {}
      invariant Distinct(found)
      invariant forall t :: t in found <==> t in texts && t !in rest
    {
      var t :| t in rest;
      found, rest := found + [t], rest - {t};
    }
    TextOrderSorts(found);
    sorted := SortBy(found, Text.AtMost);
    MultisetMembers(sorted, found);
    DistinctReordered(found, sorted);
  }

  // The members of a set of texts, once each and in order.
  ghost predicate IsEnumeration(sorted: seq<string>, texts: set<string>) {
    && Distinct(sorted) && Sorted(sorted, Text.AtMost)
    && forall t :: t in sorted <==> t in texts
  }

  lemma EnumerationExists(texts: set<string>) returns (sorted: seq<string>)
    ensures IsEnumeration(sorted, texts)
  {
    var listed := ListingExists(texts);
    TextOrderSorts(listed);
    sorted := SortExists(listed, Text.AtMost);
    MultisetMembers(sorted, listed);
    DistinctReordered(listed, sorted);
  }

  lemma {:induction false} ListingExists(texts: set<string>) returns (listed: seq<string>)
    ensures Distinct(listed) && forall t :: t in listed <==> t in texts
  {
    if texts == {} {
      listed := [];
    } else {
      var t :| t in texts;
      var rest := ListingExists(texts - {t});
      listed := rest + [t];
    }
  }

  lemma OneEnumeration(s: seq<string>, t: seq<string>, texts: set<string>)
    requires IsEnumeration(s, texts) && IsEnumeration(t, texts)
    ensures s == t
  {
    forall x, y | x in s && y in s && Text.AtMost(x, y) && Text.AtMost(y, x) ensures x == y {
      Text.AtMostAntisymmetric(x, y);
    }
    forall x ensures multiset(s)[x] == multiset(t)[x] {
      DistinctCount(s, x);
      DistinctCount(t, x);
      assert x in multiset(s) <==> x in s;
      assert x in multiset(t) <==> x in t;
    }
    SortedUnique(s, t, Text.AtMost);
  }
}
