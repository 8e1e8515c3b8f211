/** Parent chains in an arbitrary finite object graph, cycles included. */
module ParentGraph {
  import opened Wrappers

  type Graph<T(==)> = map<T, Option<T>>

  ghost predicate Closed<T>(g: Graph<T>) {
    forall x :: x in g && g[x].Some? ==> g[x].value in g
  }

  /** The n-th ancestor of x. */
  ghost function Up<T>(g: Graph<T>, x: T, n: nat): Option<T>
    requires Closed(g) && x in g
    decreases n
  {
    if n == 0 then Some(x) else if g[x].None? then None else Up(g, g[x].value, n - 1)
  }

  /** p climbs from x through distinct nodes until the next step is missing or would revisit p. */
  ghost predicate IsClimb<T>(g: Graph<T>, x: T, p: seq<T>) {
    && p != [] && p[0] == x
    && (forall i :: 0 <= i < |p| ==> p[i] in g)
    && (forall i :: 0 <= i < |p| - 1 ==> g[p[i]] == Some(p[i + 1]))
    && (forall i, j :: 0 <= i < j < |p| ==> p[i] != p[j])
    && (g[p[|p| - 1]].None? || g[p[|p| - 1]].value in p)
  }

  /** get_root's answer: where a climb ends. */
  function Last<T>(p: seq<T>): T
    requires p != []
  {
    p[|p| - 1]
  }

  lemma {:induction false} ClimbPrefix<T>(g: Graph<T>, x: T, p: seq<T>, q: seq<T>, n: nat)
    requires IsClimb(g, x, p) && IsClimb(g, x, q) && n <= |p| && n <= |q|
    ensures p[..n] == q[..n]
    ensures n > 0 ==> p[n - 1] == q[n - 1]
  {
    if n > 1 {
      ClimbPrefix(g, x, p, q, n - 1);
      assert p[n - 2] == p[..n - 1][n - 2] == q[..n - 1][n - 2] == q[n - 2];
      assert g[p[n - 2]] == Some(p[n - 2 + 1]) && g[q[n - 2]] == Some(q[n - 2 + 1]);
      assert p[..n] == p[..n - 1] + [p[n - 1]] && q[..n] == q[..n - 1] + [q[n - 1]];
    }
  }

  lemma ClimbNotShorter<T>(g: Graph<T>, x: T, p: seq<T>, q: seq<T>)
    requires IsClimb(g, x, p) && IsClimb(g, x, q)
    ensures |q| <= |p|
  {
    if |p| < |q| {
      var n := |p|;
      assert g[q[n - 1]] == Some(q[n - 1 + 1]);
      assert forall i :: 0 <= i < n ==> q[..n][i] != q[n];
      ClimbPrefix(g, x, p, q, n);
    }
  }

  /** A node has at most one climb, hence at most one root. */
  lemma ClimbIsUnique<T>(g: Graph<T>, x: T, p: seq<T>, q: seq<T>)
    requires IsClimb(g, x, p) && IsClimb(g, x, q)
    ensures p == q
  {
    ClimbNotShorter(g, x, p, q);
    ClimbNotShorter(g, x, q, p);
    ClimbPrefix(g, x, p, q, |p|);
    assert p == p[..|p|] && q == q[..|p|];
  }

  lemma {:induction false} AcyclicClimb<T>(g: Graph<T>, x: T, n: nat, r: T) returns (p: seq<T>)
    requires Closed(g) && x in g && Up(g, x, n) == Some(r) && r in g && g[r].None?
    ensures IsClimb(g, x, p) && p[|p| - 1] == r
    decreases n
  {
    if n == 0 {
      p := [x];
    } else {
      var q := AcyclicClimb(g, g[x].value, n - 1, r);
      forall j | 0 <= j < |q| ensures q[j] != x {
        assert j < |q| - 1 ==> g[q[j]] == Some(q[j + 1]);
      }
      p := [x] + q;
      forall i | 0 <= i < |p| - 1 ensures g[p[i]] == Some(p[i + 1]) {
        if i > 0 {
          assert g[q[i - 1]] == Some(q[i - 1 + 1]);
        }
      }
    }
  }

  /** On an acyclic chain the root is the ancestor without a parent, so all nodes of one tree share it. */
  lemma TreeHasOneRoot<T>(g: Graph<T>, x: T, n: nat, r: T, p: seq<T>)
    requires Closed(g) && x in g && Up(g, x, n) == Some(r) && r in g && g[r].None?
    requires IsClimb(g, x, p)
    ensures Last(p) == r
  {
    var q := AcyclicClimb(g, x, n, r);
    ClimbIsUnique(g, x, p, q);
  }

  ghost predicate OnCycle<T>(g: Graph<T>, x: T)
    requires Closed(g) && x in g
  {
    exists n :: n > 0 && Up(g, x, n) == Some(x)
  }

  lemma {:induction false} UpAlongClimb<T>(g: Graph<T>, x: T, p: seq<T>, n: nat)
    requires Closed(g) && IsClimb(g, x, p) && n < |p|
    ensures Up(g, x, n) == Some(p[n])
  {
    if n > 0 {
      UpAlongClimb(g, x, p, n - 1);
      UpStep(g, x, n - 1);
      assert g[p[n - 1]] == Some(p[n - 1 + 1]);
    }
  }

  lemma {:induction false} UpStep<T>(g: Graph<T>, x: T, n: nat)
    requires Closed(g) && x in g
    ensures Up(g, x, n).Some? ==> Up(g, x, n).value in g && Up(g, x, n + 1) == g[Up(g, x, n).value]
    ensures Up(g, x, n).None? ==> Up(g, x, n + 1).None?
    decreases n
  {
    if n > 0 && g[x].Some? {
      UpStep(g, g[x].value, n - 1);
    } else if n == 0 && g[x].Some? {
      assert Up(g, g[x].value, 0) == Some(g[x].value);
    }
  }

  /** Once a climb stops inside itself at position j > 0, its first node is never reached again. */
  lemma {:induction false} StaysInTail<T>(g: Graph<T>, x: T, p: seq<T>, n: nat)
    requires Closed(g) && IsClimb(g, x, p) && n > 0
    requires g[p[|p| - 1]] != Some(x)
    ensures Up(g, x, n).Some? ==> Up(g, x, n).value in p[1..]
    decreases n
  {
    UpStep(g, x, n - 1);
    if Up(g, x, n).Some? {
      var y := Up(g, x, n - 1).value;
      if n == 1 {
        assert y == x == p[0];
      } else {
        StaysInTail(g, x, p, n - 1);
      }
      var i :| 0 <= i < |p| && p[i] == y;
      if i < |p| - 1 {
        assert g[p[i]] == Some(p[i + 1]) && p[i + 1] == p[1..][i];
      } else {
        var z := g[y].value;
        var j :| 0 <= j < |p| && p[j] == z;
        assert z == p[1..][j - 1];
      }
    }
  }

  lemma OnCycleIff<T>(g: Graph<T>, x: T, p: seq<T>)
    requires Closed(g) && IsClimb(g, x, p)
    ensures OnCycle(g, x) <==> g[p[|p| - 1]] == Some(x)
  {
    var n := |p|;
    if g[p[n - 1]] == Some(x) {
      UpAlongClimb(g, x, p, n - 1);
      UpStep(g, x, n - 1);
      assert Up(g, x, n) == Some(x);
    } else if OnCycle(g, x) {
      var m :| m > 0 && Up(g, x, m) == Some(x);
      StaysInTail(g, x, p, m);
    }
  }

  /** Exactly when a node and its parent are given the same root: not on a cycle, or its own parent. */
  lemma ParentAgreesIff<T>(g: Graph<T>, x: T, p: seq<T>, q: seq<T>)
    requires Closed(g) && x in g && g[x].Some?
    requires IsClimb(g, x, p) && IsClimb(g, g[x].value, q)
    ensures Last(p) == Last(q) <==> (!OnCycle(g, x) || g[x].value == x)
  {
    var y, r := g[x].value, Last(p);
    OnCycleIff(g, x, p);
    if y == x {
      ClimbIsUnique(g, x, p, q);
    } else {
      assert |p| > 1;
      assert g[p[0]] == Some(p[0 + 1]);
      var tail := p[1..];
      forall i | 0 <= i < |tail| - 1 ensures g[tail[i]] == Some(tail[i + 1]) {
        assert g[p[i + 1]] == Some(p[i + 1 + 1]);
      }
      if g[r] == Some(x) {
        var around := tail + [x];
        assert forall i :: 0 <= i < |tail| ==> around[i] == p[i + 1];
        assert g[Last(around)].value == around[0];
        ClimbIsUnique(g, y, q, around);
        assert p[0] != Last(p);
      } else {
        if g[r].Some? {
          var j :| 0 <= j < |p| && p[j] == g[r].value;
          assert tail[j - 1] == g[r].value;
        }
        ClimbIsUnique(g, y, q, tail);
      }
    }
  }

  // ---------------------------------------------------------------- chains that end

  /** Going up from x ends. */
  ghost predicate Stops<T>(g: Graph<T>, x: T)
    requires Closed(g) && x in g
  {
    exists n :: Up(g, x, n).None?
  }

  /** Going up from x never comes to a node again. */
  ghost predicate NeverRepeats<T>(g: Graph<T>, x: T)
    requires Closed(g) && x in g
  {
    forall m, n :: m < n && Up(g, x, n).Some? ==> Up(g, x, m) != Up(g, x, n)
  }

  /** p goes up from its first node to a node without a parent. */
  ghost predicate IsTrail<T>(g: Graph<T>, p: seq<T>) {
    && p != [] && p[0] in g
    && if |p| == 1 then g[p[0]].None? else g[p[0]] == Some(p[1]) && IsTrail(g, p[1..])
  }

  lemma {:induction false} TrailOf<T>(g: Graph<T>, x: T, n: nat) returns (p: seq<T>)
    requires Closed(g) && x in g && Up(g, x, n).None?
    ensures IsTrail(g, p) && p[0] == x
    decreases n
  {
    p := [x];
    if g[x].Some? {
      var rest := TrailOf(g, g[x].value, n - 1);
      p := [x] + rest;
      assert p[1..] == rest;
    }
  }

  lemma {:induction false} TrailStops<T>(g: Graph<T>, p: seq<T>)
    requires Closed(g) && IsTrail(g, p)
    ensures Up(g, p[0], |p|).None?
  {
    if |p| > 1 {
      TrailStops(g, p[1..]);
    }
  }

  lemma {:induction false} ClimbFrom<T>(g: Graph<T>, x: T, p: seq<T>) returns (q: seq<T>)
    requires Closed(g) && p != [] && p[0] == x
    requires forall i :: 0 <= i < |p| ==> p[i] in g
    requires forall i :: 0 <= i < |p| - 1 ==> g[p[i]] == Some(p[i + 1])
    requires forall i, j :: 0 <= i < j < |p| ==> p[i] != p[j]
    ensures IsClimb(g, x, q)
    decreases g.Keys - (set y | y in p)
  {
    var last := p[|p| - 1];
    if g[last].None? || g[last].value in p {
      q := p;
    } else {
      var next := p + [g[last].value];
      assert forall y :: y in p ==> y in next;
      assert g[last].value in g.Keys - (set y | y in p) && g[last].value in next;
      q := ClimbFrom(g, x, next);
    }
  }

  lemma {:induction false} CycleGoesOn<T>(g: Graph<T>, x: T, p: seq<T>, n: nat)
    requires Closed(g) && IsClimb(g, x, p) && g[p[|p| - 1]].Some?
    ensures Up(g, x, n).Some? && Up(g, x, n).value in p
  {
    if n > 0 {
      CycleGoesOn(g, x, p, n - 1);
      UpStep(g, x, n - 1);
      var i :| 0 <= i < |p| && p[i] == Up(g, x, n - 1).value;
      if i < |p| - 1 {
        assert g[p[i]] == Some(p[i + 1]);
      }
    }
  }

  lemma {:induction false} StopsForGood<T>(g: Graph<T>, x: T, n: nat, m: nat)
    requires Closed(g) && x in g && n <= m && Up(g, x, n).None?
    ensures Up(g, x, m).None?
    decreases m - n
  {
    if n < m {
      StopsForGood(g, x, n, m - 1);
      UpStep(g, x, m - 1);
    }
  }

  /** In a finite graph a chain ends if and only if it never comes to a node again. */
  lemma StopsIff<T>(g: Graph<T>, x: T)
    requires Closed(g) && x in g
    ensures Stops(g, x) <==> NeverRepeats(g, x)
  {
    var p := ClimbFrom(g, x, [x]);
    var last := |p| - 1;
    UpAlongClimb(g, x, p, last);
    UpStep(g, x, last);
    if g[p[last]].None? {
      assert Up(g, x, |p|).None?;
      forall m, n | m < n && Up(g, x, n).Some? ensures Up(g, x, m) != Up(g, x, n) {
        if |p| <= n {
          StopsForGood(g, x, |p|, n);
        } else {
          UpAlongClimb(g, x, p, m);
          UpAlongClimb(g, x, p, n);
        }
      }
    } else {
      forall n: nat ensures Up(g, x, n).Some? {
        CycleGoesOn(g, x, p, n);
      }
      var m :| 0 <= m < |p| && p[m] == g[p[last]].value;
      UpAlongClimb(g, x, p, m);
      assert m < |p| && Up(g, x, m) == Up(g, x, |p|);
    }
  }
}
