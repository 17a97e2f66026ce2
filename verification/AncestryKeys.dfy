// What a key says about the ancestry of a span.
module AncestryKeys {
  import opened Model
  import opened Forest
  import opened MatchKeys
  import Text

  // Service and name of a span and its ancestors, outermost first, below a parent
  // that is missing from the trace or below none.
  datatype Ancestry = Ancestry(missing: Option<SpanID>, path: seq<(string, string)>)

  function SegmentOf(p: (string, string)): string {
    p.0 + "/" + p.1
  }

  function MissingText(id: SpanID): string {
    "missing:" + IdText(id)
  }

  function KeyOf(a: Ancestry): string
    requires |a.path| > 0
    decreases |a.path|
  {
    var last := a.path[|a.path| - 1];
    if |a.path| > 1 then KeyOf(a.(path := a.path[..|a.path| - 1])) + ">" + SegmentOf(last)
    else if a.missing.Some? then MissingText(a.missing.value) + ">" + SegmentOf(last)
    else SegmentOf(last)
  }

  function Names(s: Span): (string, string) {
    (s.data.service, s.data.name)
  }

  // A span that names itself as its parent stands below itself once.
  ghost function AncestryOf(byId: SpanMap, id: SpanID, n: nat): (a: Ancestry)
    requires id in byId && Hops(ParentIds(byId), id, n)
    ensures |a.path| > 0
    decreases n
  {
    var own := Names(byId[id]);
    var parent := byId[id].data.parentId;
    if id in ParentIds(byId) then
      HopsOfParent<SpanID>(ParentIds(byId), id, n - 1);
      var above := AncestryOf(byId, ParentIds(byId)[id], n - 1);
      above.(path := above.path + [own])
    else if parent == 0 then Ancestry(None, [own])
    else if parent == byId[id].data.spanId then Ancestry(None, [own, own])
    else Ancestry(Some(parent), [own])
  }

  lemma {:induction false} AncestryKeyOf(byId: SpanMap, id: SpanID, n: nat)
    requires id in byId && Hops(ParentIds(byId), id, n)
    ensures AncestryKey(byId, id, n) == KeyOf(AncestryOf(byId, id, n))
    decreases n
  {
    if id in ParentIds(byId) {
      var p: SpanID := ParentIds(byId)[id];
      HopsOfParent<SpanID>(ParentIds(byId), id, n - 1);
      AncestryKeyOf(byId, p, n - 1);
      var above := AncestryOf(byId, p, n - 1);
      assert (above.path + [Names(byId[id])])[..|above.path|] == above.path;
    } else {
      var own := Names(byId[id]);
      assert [own, own][..1] == [own];
    }
  }

  ghost predicate Over(a: Ancestry, allowed: set<char>) {
    && |a.path| > 0
    && forall p, c :: p in a.path && (c in p.0 || c in p.1) ==> c in allowed
  }

  // Keys of names without the two separators tell different ancestries apart.
  lemma {:induction false} KeyDetermines(a: Ancestry, b: Ancestry, allowed: set<char>)
    requires Over(a, allowed) && Over(b, allowed) && '/' !in allowed && '>' !in allowed
    requires KeyOf(a) == KeyOf(b)
    ensures a == b
    decreases |a.path|
  {
    var x, y := a.path[|a.path| - 1], b.path[|b.path| - 1];
    LastNames(a, b, allowed);
    AboveText(a, allowed);
    AboveText(b, allowed);
    if |a.path| > 1 {
      var p, q := a.(path := a.path[..|a.path| - 1]), b.(path := b.path[..|b.path| - 1]);
      KeyDetermines(p, q, allowed);
      assert a.path == p.path + [x] && b.path == q.path + [y];
    } else if a.missing.Some? {
      assert IdText(a.missing.value) == MissingText(a.missing.value)[8..];
      assert IdText(b.missing.value) == MissingText(b.missing.value)[8..];
      IdTextInjective(a.missing.value, b.missing.value);
    }
  }

  // Equal keys end in the same names and have the same text above them.
  lemma LastNames(a: Ancestry, b: Ancestry, allowed: set<char>)
    requires Over(a, allowed) && Over(b, allowed) && '/' !in allowed && '>' !in allowed
    requires KeyOf(a) == KeyOf(b)
    ensures a.path[|a.path| - 1] == b.path[|b.path| - 1] && Above(a) == Above(b)
  {
    var x, y := a.path[|a.path| - 1], b.path[|b.path| - 1];
    CleanSegment(x, allowed);
    CleanSegment(y, allowed);
    KeySplits(a);
    KeySplits(b);
    hide KeyOf, Above, Over;
    if Above(a) != "" && Above(b) != "" {
      Text.LastSeparator('>', Above(a), SegmentOf(x), Above(b), SegmentOf(y));
    } else {
      NoArrow(Above(a), SegmentOf(x), SegmentOf(y));
      NoArrow(Above(b), SegmentOf(y), SegmentOf(x));
    }
    Text.OneSeparator('/', x.0, x.1, y.0, y.1);
  }

  lemma NoArrow(above: string, last: string, other: string)
    requires '>' !in other
    ensures above + ['>'] + last != other
  {
    assert (above + ['>'] + last)[|above|] == '>';
  }

  // What stands before the last segment, without the separator.
  function Above(a: Ancestry): string
    requires |a.path| > 0
  {
    if |a.path| > 1 then KeyOf(a.(path := a.path[..|a.path| - 1]))
    else if a.missing.Some? then MissingText(a.missing.value)
    else ""
  }

  lemma KeySplits(a: Ancestry)
    requires |a.path| > 0
    ensures var last := SegmentOf(a.path[|a.path| - 1]);
            KeyOf(a) == if Above(a) == "" then last else Above(a) + ['>'] + last
  {
  }

  lemma CleanSegment(p: (string, string), allowed: set<char>)
    requires '/' !in allowed && '>' !in allowed && forall c :: c in p.0 || c in p.1 ==> c in allowed
    ensures '>' !in SegmentOf(p) && '/' !in p.0 && '/' !in p.1
  {
  }

  // It has a slash if it holds segments, and none if it is a missing parent's.
  lemma AboveText(a: Ancestry, allowed: set<char>)
    requires |a.path| > 0
    ensures |a.path| > 1 ==> '/' in Above(a)
    ensures |a.path| == 1 ==> '/' !in Above(a) && (Above(a) == "" <==> a.missing.None?)
  {
    if |a.path| > 1 {
      var init := a.(path := a.path[..|a.path| - 1]);
      KeySplits(init);
      var last := init.path[|init.path| - 1];
      assert SegmentOf(last)[|last.0|] == '/';
    } else if a.missing.Some? {
      HexDigits(a.missing.value, 16);
    }
  }

  lemma {:induction false} HexDigits(n: nat, width: nat)
    ensures '/' !in Hex(n, width) && '>' !in Hex(n, width)
  {
    if width > 0 {
      HexDigits(n / 16, width - 1);
    }
  }

  // Over an alphabet for names: keys tell all ancestries apart if and only if the
  // alphabet has neither separator.
  lemma KeysDetermineIff(allowed: set<char>)
    ensures '/' !in allowed && '>' !in allowed <==>
              forall a, b :: Over(a, allowed) && Over(b, allowed) && KeyOf(a) == KeyOf(b) ==> a == b
  {
    if '/' in allowed {
      var a, b := SlashCollides(allowed);
    } else if '>' in allowed {
      var a, b := ArrowCollides(allowed);
    } else {
      forall a, b | Over(a, allowed) && Over(b, allowed) && KeyOf(a) == KeyOf(b) ensures a == b {
        KeyDetermines(a, b, allowed);
      }
    }
  }

  lemma SlashCollides(allowed: set<char>) returns (a: Ancestry, b: Ancestry)
    requires '/' in allowed
    ensures Over(a, allowed) && Over(b, allowed) && KeyOf(a) == KeyOf(b) && a != b
  {
    a, b := Ancestry(None, [("", "/")]), Ancestry(None, [("/", "")]);
    assert a.path[0] != b.path[0];
  }

  lemma ArrowCollides(allowed: set<char>) returns (a: Ancestry, b: Ancestry)
    requires '>' in allowed
    ensures Over(a, allowed) && Over(b, allowed) && KeyOf(a) == KeyOf(b) && a != b
  {
    a, b := Ancestry(None, [("", ">"), ("", "")]), Ancestry(None, [("", ""), (">", "")]);
    assert a.path[..1] == [("", ">")] && b.path[..1] == [("", "")];
    assert KeyOf(a) == "/>" + ">" + "/" && KeyOf(b) == "/" + ">" + ">/";
    assert a.path[0] != b.path[0];
  }

  // For names without separators: two spans whose parent chains end have the same
  // key if and only if they have the same ancestry.
  lemma SameKeySameAncestry(byId: SpanMap, id: SpanID, n: nat, byId': SpanMap, id': SpanID, n': nat, allowed: set<char>)
    requires id in byId && Hops<SpanID>(ParentIds(byId), id, n)
    requires id' in byId' && Hops<SpanID>(ParentIds(byId'), id', n')
    requires '/' !in allowed && '>' !in allowed
    requires Over(AncestryOf(byId, id, n), allowed) && Over(AncestryOf(byId', id', n'), allowed)
    ensures AncestryKey(byId, id, n) == AncestryKey(byId', id', n') <==>
            AncestryOf(byId, id, n) == AncestryOf(byId', id', n')
  {
    AncestryKeyOf(byId, id, n);
    AncestryKeyOf(byId', id', n');
    if AncestryKey(byId, id, n) == AncestryKey(byId', id', n') {
      KeyDetermines(AncestryOf(byId, id, n), AncestryOf(byId', id', n'), allowed);
    }
  }
}
