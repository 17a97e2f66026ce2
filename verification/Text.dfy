// Strings ordered as Go orders them: character by character, a prefix first.
module Text {

  predicate AtMost(a: string, b: string) {
    a == [] || (b != [] && (a[0] < b[0] || (a[0] == b[0] && AtMost(a[1..], b[1..]))))
  }

  // At place i the texts differ for the first time, and a has the smaller character.
  ghost predicate SmallerAt(a: string, b: string, i: nat) {
    i < |a| && i < |b| && a[..i] == b[..i] && a[i] < b[i]
  }

  lemma SmallerLater(a: string, b: string, i: nat)
    requires a != [] && b != [] && a[0] == b[0]
    ensures SmallerAt(a, b, i + 1) <==> SmallerAt(a[1..], b[1..], i)
    ensures !SmallerAt(a, b, 0)
  {
    if i < |a| - 1 && i < |b| - 1 {
      assert a[..i + 1] == [a[0]] + a[1..][..i] && b[..i + 1] == [b[0]] + b[1..][..i];
      assert a[1..][..i] == a[..i + 1][1..] && b[1..][..i] == b[..i + 1][1..];
    }
  }

  // What the order is: a prefix comes first, and otherwise the text with the smaller
  // character where they first differ.
  lemma {:induction false} AtMostIff(a: string, b: string)
    ensures AtMost(a, b) <==> a <= b || exists i: nat :: SmallerAt(a, b, i)
  {
    if a != [] && b != [] && a[0] == b[0] {
      AtMostIff(a[1..], b[1..]);
      assert a == [a[0]] + a[1..] && b == [b[0]] + b[1..];
      forall i: nat ensures SmallerAt(a, b, i + 1) <==> SmallerAt(a[1..], b[1..], i) {
        SmallerLater(a, b, i);
      }
      SmallerLater(a, b, 0);
      assert a <= b <==> a[1..] <= b[1..];
      hide SmallerAt;
      if i: nat :| SmallerAt(a, b, i) {
        assert SmallerAt(a, b, i - 1 + 1);
        assert SmallerAt(a[1..], b[1..], i - 1);
      }
      if i: nat :| SmallerAt(a[1..], b[1..], i) {
        assert SmallerAt(a, b, i + 1);
      }
    } else if a != [] && b != [] && a[0] < b[0] {
      assert SmallerAt(a, b, 0);
    }
  }

  predicate Less(a: string, b: string) {
    !AtMost(b, a)
  }

  lemma {:induction false} AtMostTotal(a: string, b: string)
    ensures AtMost(a, b) || AtMost(b, a)
  {
    if a != [] && b != [] {
      AtMostTotal(a[1..], b[1..]);
    }
  }

  lemma {:induction false} AtMostTransitive(a: string, b: string, c: string)
    requires AtMost(a, b) && AtMost(b, c)
    ensures AtMost(a, c)
  {
    if a != [] && b != [] && c != [] && a[0] == b[0] == c[0] {
      AtMostTransitive(a[1..], b[1..], c[1..]);
    }
  }

  lemma {:induction false} AtMostAntisymmetric(a: string, b: string)
    requires AtMost(a, b) && AtMost(b, a)
    ensures a == b
  {
    if a != [] && b != [] {
      AtMostAntisymmetric(a[1..], b[1..]);
      assert a == [a[0]] + a[1..] && b == [b[0]] + b[1..];
    }
  }

  // A text with one separator splits at it in one way only.
  lemma OneSeparator(sep: char, a: string, b: string, a': string, b': string)
    requires sep !in a && sep !in b
    requires a' + [sep] + b' == a + [sep] + b
    ensures a' == a && b' == b
  {
    var whole := a + [sep] + b;
    var n := |a'|;
    assert whole[n] == sep by {
      assert whole == a' + [sep] + b';
    }
    assert n == |a|;
    assert a' == whole[..n] == a;
    assert b' == whole[n + 1..] == b;
  }

  // Split behind the last separator, a text falls apart in one way only.
  lemma LastSeparator(sep: char, a: string, b: string, a': string, b': string)
    requires sep !in b && sep !in b'
    requires a' + [sep] + b' == a + [sep] + b
    ensures a' == a && b' == b
  {
    var whole := a + [sep] + b;
    assert whole == a' + [sep] + b';
    assert whole[|a|] == sep && whole[|a'|] == sep;
    assert forall i :: |a| < i < |whole| ==> whole[i] == b[i - |a| - 1];
    assert forall i :: |a'| < i < |whole| ==> whole[i] == b'[i - |a'| - 1];
    assert |a'| == |a|;
    assert a' == whole[..|a|] == a;
    assert b' == whole[|a| + 1..] == b;
  }
}
