// A list of records with distinct keys, kept together with a map by key.
module KeyedLog {
  import opened Sequences

  ghost predicate UniqueBy<K, V>(log: seq<V>, key: V -> K) {
    forall i, j :: 0 <= i < j < |log| ==> key(log[i]) != key(log[j])
  }

  ghost predicate AscendingBy<V>(log: seq<V>, at: V -> int) {
    forall i, j :: 0 <= i < j < |log| ==> at(log[i]) <= at(log[j])
  }

  // m maps the keys of the members of log to those members, and no other keys.
  ghost predicate MapsLog<K, V>(m: map<K, V>, log: seq<V>, key: V -> K) {
    && (forall t :: t in log ==> key(t) in m && m[key(t)] == t)
    && (forall id :: id in m ==> key(m[id]) == id && m[id] in log)
    && |m| == |log|
  }

  lemma CutMembers<K, V>(log: seq<V>, i: nat, key: V -> K)
    requires UniqueBy(log, key) && i < |log|
    ensures forall t :: t in Cut(log, i) <==> t in log && key(t) != key(log[i])
  {
    forall t | t in log && key(t) != key(log[i]) ensures t in Cut(log, i) {
      var j :| 0 <= j < |log| && log[j] == t;
      assert Cut(log, i)[if j < i then j else j - 1] == t;
    }
  }

  lemma CutMapsLog<K, V>(log: seq<V>, m: map<K, V>, i: nat, key: V -> K)
    requires MapsLog(m, log, key) && UniqueBy(log, key) && i < |log|
    ensures MapsLog(m - {key(log[i])}, Cut(log, i), key)
  {
    var id := key(log[i]);
    var n, r := m - {id}, Cut(log, i);
    assert log[i] in log;
    assert |n| == |r| by {
      assert m.Keys == n.Keys + {id};
    }
    CutMembers(log, i, key);
    hide UniqueBy, Cut, MapsLog;
    MapsMembers(m, log, key);
    MembersMap(n, r, key);
  }

  lemma MapsMembers<K, V>(m: map<K, V>, log: seq<V>, key: V -> K)
    requires MapsLog(m, log, key)
    ensures forall t :: t in log <==> key(t) in m && m[key(t)] == t
    ensures forall id :: id in m ==> key(m[id]) == id
  {
  }

  lemma MembersMap<K, V>(m: map<K, V>, log: seq<V>, key: V -> K)
    requires |m| == |log|
    requires forall t :: t in log <==> key(t) in m && m[key(t)] == t
    requires forall id :: id in m ==> key(m[id]) == id
    ensures MapsLog(m, log, key)
  {
  }

  lemma PutMembers<V>(log: seq<V>, i: nat, t: V)
    requires i <= |log|
    ensures forall x :: x in Put(log, i, t) <==> x in log || x == t
  {
    assert log == log[..i] + log[i..];
  }

  lemma PutMapsLog<K, V>(log: seq<V>, m: map<K, V>, t: V, i: nat, key: V -> K)
    requires MapsLog(m, log, key) && key(t) !in m && i <= |log|
    ensures MapsLog(m[key(t) := t], Put(log, i, t), key)
  {
    var n, r := m[key(t) := t], Put(log, i, t);
    assert |n| == |r| by {
      assert n.Keys == m.Keys + {key(t)};
    }
    PutMembers(log, i, t);
    hide Put, MapsLog;
    MapsMembers(m, log, key);
    MembersMap(n, r, key);
  }

  lemma CutOrder<K, V>(log: seq<V>, i: nat, key: V -> K, at: V -> int)
    requires UniqueBy(log, key) && AscendingBy(log, at) && i < |log|
    ensures UniqueBy(Cut(log, i), key) && AscendingBy(Cut(log, i), at)
  {
    hide Cut;
  }

  lemma PutOrder<K, V>(log: seq<V>, t: V, i: nat, key: V -> K, at: V -> int)
    requires UniqueBy(log, key) && AscendingBy(log, at) && i <= |log|
    requires forall j :: 0 <= j < |log| ==> key(log[j]) != key(t)
    requires forall j :: 0 <= j < i ==> at(log[j]) <= at(t)
    requires forall j :: i <= j < |log| ==> at(t) < at(log[j])
    ensures UniqueBy(Put(log, i, t), key) && AscendingBy(Put(log, i, t), at)
  {
    var r := Put(log, i, t);
    forall j, k | 0 <= j < k < |r| ensures key(r[j]) != key(r[k]) && at(r[j]) <= at(r[k]) {
      PutAt(log, i, t, j);
      PutAt(log, i, t, k);
    }
  }

  function Mapped<V, E>(log: seq<V>, f: V -> E): (r: seq<E>)
    ensures |r| == |log|
    ensures forall i :: 0 <= i < |r| ==> r[i] == f(log[i])
  {
    seq(|log|, i requires 0 <= i < |log| => f(log[i]))
  }

  lemma MappedConcat<V, E>(a: seq<V>, b: seq<V>, f: V -> E)
    ensures Mapped(a + b, f) == Mapped(a, f) + Mapped(b, f)
  {
  }

  // Taking one member out of a list takes its image out of the mapped list.
  lemma MappedApart<V, E>(log: seq<V>, f: V -> E, i: nat)
    requires i < |log|
    ensures multiset(Cut(log, i)) == multiset(log) - multiset{log[i]}
    ensures multiset(Mapped(log, f)) == multiset(Mapped(Cut(log, i), f)) + multiset{f(log[i])}
  {
    var mapped := Mapped(log, f);
    assert log == log[..i] + [log[i]] + log[i + 1..];
    assert mapped == mapped[..i] + [mapped[i]] + mapped[i + 1..];
    MappedCut(log, f, i);
  }

  // Rearranging what is mapped rearranges what it is mapped to.
  lemma {:induction false} MappedRearranged<V, E>(a: seq<V>, b: seq<V>, f: V -> E)
    requires multiset(a) == multiset(b)
    ensures multiset(Mapped(a, f)) == multiset(Mapped(b, f))
    decreases |a|
  {
    MultisetMembers(a, b);
    if a != [] {
      assert a[0] in b;
      var i :| 0 <= i < |b| && b[i] == a[0];
      hide Mapped, Cut;
      MappedApart(a, f, 0);
      MappedApart(b, f, i);
      MappedRearranged(Cut(a, 0), Cut(b, i), f);
    }
  }

  lemma MappedCut<V, E>(log: seq<V>, f: V -> E, i: nat)
    requires i < |log|
    ensures Mapped(Cut(log, i), f) == Cut(Mapped(log, f), i)
  {
    hide Cut;
  }

  lemma MappedPut<V, E>(log: seq<V>, f: V -> E, i: nat, t: V)
    requires i <= |log|
    ensures Mapped(Put(log, i, t), f) == Put(Mapped(log, f), i, f(t))
  {
  }

  // The members that satisfy a condition, in order.
  function Keep<V>(log: seq<V>, keep: V -> bool): seq<V> {
    if log == [] then []
    else
      var last := log[|log| - 1];
      Keep(log[..|log| - 1], keep) + if keep(last) then [last] else []
  }

  // sub is part of log, in the same order.
  ghost predicate Thinned<V>(sub: seq<V>, log: seq<V>, at: seq<nat>) {
    && |at| == |sub|
    && (forall i :: 0 <= i < |sub| ==> at[i] < |log| && sub[i] == log[at[i]])
    && (forall i, j :: 0 <= i < j < |at| ==> at[i] < at[j])
  }

  lemma KeepThins<V>(log: seq<V>, keep: V -> bool) returns (at: seq<nat>)
    ensures Thinned(Keep(log, keep), log, at)
    ensures forall x :: x in Keep(log, keep) <==> x in log && keep(x)
    ensures |Keep(log, keep)| <= |log|
  {
    KeepMembers(log, keep);
    at := KeepPositions(log, keep);
  }

  lemma {:induction false} KeepPositions<V>(log: seq<V>, keep: V -> bool) returns (at: seq<nat>)
    ensures Thinned(Keep(log, keep), log, at)
  {
    if log == [] {
      at := [];
    } else {
      var init, last := log[..|log| - 1], log[|log| - 1];
      at := KeepPositions(init, keep);
      ThinnedMore(Keep(init, keep), init, at, last);
      assert init + [last] == log;
      if keep(last) {
        at := at + [|init|];
      }
    }
  }

  lemma ThinnedMore<V>(sub: seq<V>, log: seq<V>, at: seq<nat>, x: V)
    requires Thinned(sub, log, at)
    ensures Thinned(sub, log + [x], at)
    ensures Thinned(sub + [x], log + [x], at + [|log|])
  {
  }

  lemma {:induction false} KeepMembers<V>(log: seq<V>, keep: V -> bool)
    ensures forall x :: x in Keep(log, keep) <==> x in log && keep(x)
    ensures |Keep(log, keep)| <= |log|
  {
    if log != [] {
      KeepMembers(log[..|log| - 1], keep);
      assert log == log[..|log| - 1] + [log[|log| - 1]];
    }
  }

  lemma {:induction false} KeepAll<V>(log: seq<V>, keep: V -> bool)
    requires forall i :: 0 <= i < |log| ==> keep(log[i])
    ensures Keep(log, keep) == log
  {
    if log != [] {
      KeepAll(log[..|log| - 1], keep);
    }
  }

  lemma {:induction false} KeepAllButOne<V>(log: seq<V>, keep: V -> bool, i: nat)
    requires i < |log| && !keep(log[i])
    requires forall j :: 0 <= j < |log| && j != i ==> keep(log[j])
    ensures Keep(log, keep) == Cut(log, i)
  {
    var init := log[..|log| - 1];
    if i == |log| - 1 {
      KeepAll(init, keep);
    } else {
      KeepAllButOne(init, keep, i);
      assert init[..i] == log[..i] && log[i + 1..] == init[i + 1..] + [log[|log| - 1]];
    }
  }

  lemma {:induction false} KeepWithoutHead<V>(log: seq<V>, keep: V -> bool)
    requires |log| > 0 && !keep(log[0])
    ensures Keep(log, keep) == Keep(log[1..], keep)
  {
    if |log| > 1 {
      KeepWithoutHead(log[..|log| - 1], keep);
      assert log[..|log| - 1][1..] == log[1..][..|log| - 2];
    }
  }

  // Keeping commutes with rearranging.
  lemma {:induction false} KeepCount<V>(log: seq<V>, keep: V -> bool, x: V)
    ensures multiset(Keep(log, keep))[x] == if keep(x) then multiset(log)[x] else 0
  {
    if log != [] {
      KeepCount(log[..|log| - 1], keep, x);
      assert log == log[..|log| - 1] + [log[|log| - 1]];
    }
  }

  lemma KeepRearranged<V>(s: seq<V>, t: seq<V>, keep: V -> bool)
    requires multiset(s) == multiset(t)
    ensures multiset(Keep(s, keep)) == multiset(Keep(t, keep))
  {
    var a, b := multiset(Keep(s, keep)), multiset(Keep(t, keep));
    forall x | x in a + b ensures a[x] == b[x] {
      KeepCount(s, keep, x);
      KeepCount(t, keep, x);
    }
    assert a - b == multiset{} && b - a == multiset{};
  }
}
