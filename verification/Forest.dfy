// Parent chains. A parent relation is a finite map from a node to its parent;
// nodes outside the map have no parent. Nothing forbids cycles.
module Forest {
  import opened Model
  import opened Sequences

  // The n-th node on the parent chain of s, if the chain is that long.
  ghost function Up<T>(parents: map<T, T>, s: T, n: nat): Option<T> {
    if n == 0 then Some(s)
    else
      match Up(parents, s, n - 1)
      case None => None
      case Some(p) => if p in parents then Some(parents[p]) else None
  }

  // The parent chain of s ends after n hops.
  ghost predicate Hops<T>(parents: map<T, T>, s: T, n: nat) {
    Up(parents, s, n).Some? && Up(parents, s, n).value !in parents
  }

  ghost predicate Grounded<T>(parents: map<T, T>, s: T) {
    exists n: nat :: Hops(parents, s, n)
  }

  // d is s or a descendant of s.
  ghost predicate Below<T>(parents: map<T, T>, d: T, s: T) {
    exists n: nat :: Up(parents, d, n) == Some(s)
  }

  // s lies on a cycle of parents or hangs below one.
  ghost predicate MeetsCycle<T>(parents: map<T, T>, s: T) {
    exists k: nat, m: nat :: k < m && Up(parents, s, k).Some? && Up(parents, s, k) == Up(parents, s, m)
  }

  lemma {:induction false} UpCompose<T>(parents: map<T, T>, s: T, k: nat, j: nat)
    requires Up(parents, s, k).Some?
    ensures Up(parents, s, k + j) == Up(parents, Up(parents, s, k).value, j)
  {
    if j > 0 {
      UpCompose(parents, s, k, j - 1);
    }
  }

  lemma UpOne<T>(parents: map<T, T>, s: T)
    ensures Up(parents, s, 0) == Some(s)
    ensures Up(parents, s, 1) == if s in parents then Some(parents[s]) else None
  {
    assert Up(parents, s, 0) == Some(s);
  }

  lemma {:induction false} UpBeyond<T>(parents: map<T, T>, s: T, k: nat, j: nat)
    requires Hops(parents, s, k) && k < j
    ensures Up(parents, s, j).None?
  {
    if k + 1 < j {
      UpBeyond(parents, s, k, j - 1);
    }
  }

  lemma HopsUnique<T>(parents: map<T, T>, s: T, n: nat, m: nat)
    requires Hops(parents, s, n) && Hops(parents, s, m)
    ensures n == m
  {
    if n < m {
      UpBeyond(parents, s, n, m);
    } else if m < n {
      UpBeyond(parents, s, m, n);
    }
  }

  lemma RootHops<T>(parents: map<T, T>, s: T)
    requires s !in parents
    ensures Hops(parents, s, 0)
  {
    UpOne(parents, s);
  }

  // One hop up takes one hop off.
  lemma HopsOfParent<T>(parents: map<T, T>, s: T, n: nat)
    requires s in parents
    ensures Hops(parents, parents[s], n) <==> Hops(parents, s, n + 1)
    ensures !Hops(parents, s, 0)
  {
    UpOne(parents, s);
    UpCompose(parents, s, 1, n);
  }

  // A chain that never ends, as a list of its first n nodes.
  lemma {:induction false} EndlessChain<T>(parents: map<T, T>, s: T, n: nat) returns (chain: seq<T>)
    requires !Grounded(parents, s)
    ensures |chain| == n && Up(parents, s, n).Some?
    ensures forall k: nat :: k < n ==> Up(parents, s, k) == Some(chain[k]) && chain[k] in parents
  {
    if n == 0 {
      chain := [];
    } else {
      chain := EndlessChain(parents, s, n - 1);
      assert !Hops(parents, s, n - 1);
      chain := chain + [Up(parents, s, n - 1).value];
    }
  }

  // A chain ends exactly when it does not run into a cycle.
  lemma GroundedIffNoCycle<T>(parents: map<T, T>, s: T)
    ensures Grounded(parents, s) <==> !MeetsCycle(parents, s)
  {
    if Grounded(parents, s) && MeetsCycle(parents, s) {
      var n: nat :| Hops(parents, s, n);
      var k: nat, m: nat :| k < m && Up(parents, s, k).Some? && Up(parents, s, k) == Up(parents, s, m);
      if n < m {
        UpBeyond(parents, s, n, m);
      }
      UpCompose(parents, s, k, n - m);
      UpCompose(parents, s, m, n - m);
      HopsUnique(parents, s, n, n - m + k);
    }
    if !Grounded(parents, s) {
      var chain := EndlessChain(parents, s, |parents.Keys| + 1);
      Pigeonhole(chain, parents.Keys);
      var i, j :| 0 <= i < j < |chain| && chain[i] == chain[j];
      assert Up(parents, s, i) == Up(parents, s, j);
    }
  }

  // The descendants of s are s itself and the descendants of its children.
  lemma BelowChildren<T>(parents: map<T, T>, d: T, s: T)
    ensures Below(parents, d, s) <==>
            d == s || exists c :: c in parents && parents[c] == s && Below(parents, d, c)
  {
    if Below(parents, d, s) && d != s {
      var n: nat :| Up(parents, d, n) == Some(s);
      assert n > 0;
      assert Up(parents, d, n - 1) == Some(Up(parents, d, n - 1).value);
    }
    if d == s {
      UpOne(parents, d);
    }
    if c :| c in parents && parents[c] == s && Below(parents, d, c) {
      var n: nat :| Up(parents, d, n) == Some(c);
      assert Up(parents, d, n + 1) == Some(s);
    }
  }

  ghost predicate OnCycle<T>(parents: map<T, T>, s: T) {
    exists n: nat :: n > 0 && Up(parents, s, n) == Some(s)
  }

  // A chain that repeats a node has a node on a cycle.
  lemma CycleAbove<T>(parents: map<T, T>, s: T) returns (k: nat)
    requires MeetsCycle(parents, s)
    ensures Up(parents, s, k).Some? && OnCycle(parents, Up(parents, s, k).value)
  {
    var m: nat;
    k, m :| k < m && Up(parents, s, k).Some? && Up(parents, s, k) == Up(parents, s, m);
    UpCompose(parents, s, k, m - k);
  }

  lemma {:induction false} FirstReturn<T>(parents: map<T, T>, s: T, n: nat) returns (first: nat)
    requires n > 0 && Up(parents, s, n) == Some(s)
    ensures 0 < first <= n && Up(parents, s, first) == Some(s)
    ensures forall m: nat :: 0 < m < first ==> Up(parents, s, m) != Some(s)
  {
    if m: nat :| 0 < m < n && Up(parents, s, m) == Some(s) {
      first := FirstReturn(parents, s, m);
    } else {
      first := n;
    }
  }

  ghost predicate IsPath<T>(parents: map<T, T>, path: seq<T>) {
    forall i :: 0 <= i < |path| - 1 ==> path[i] in parents && parents[path[i]] == path[i + 1]
  }

  // Once round the cycle, from the parent of s back to s.
  lemma CyclePath<T>(parents: map<T, T>, s: T) returns (path: seq<T>)
    requires OnCycle(parents, s)
    ensures |path| > 0 && s in parents && path[0] == parents[s] && path[|path| - 1] == s
    ensures IsPath(parents, path) && Distinct(path)
  {
    var n: nat :| n > 0 && Up(parents, s, n) == Some(s);
    n := FirstReturn(parents, s, n);
    forall j: nat | j <= n ensures Up(parents, s, j).Some? {
      UpPrefix(parents, s, j, n);
    }
    UpOne(parents, s);
    path := seq(n, (j: nat) requires j < n => Up(parents, s, j + 1).value);
    forall i | 0 <= i < n - 1 ensures path[i] in parents && parents[path[i]] == path[i + 1] {
      assert Up(parents, s, i + 2).Some?;
    }
    forall i, j | 0 <= i < j < n ensures path[i] != path[j] {
      if path[i] == path[j] {
        UpCompose(parents, s, i + 1, n - j - 1);
        UpCompose(parents, s, j + 1, n - j - 1);
      }
    }
  }

  lemma {:induction false} UpPrefix<T>(parents: map<T, T>, s: T, k: nat, n: nat)
    requires k <= n && Up(parents, s, n).Some?
    ensures Up(parents, s, k).Some?
  {
    if k < n {
      UpPrefix(parents, s, k, n - 1);
    }
  }
}
