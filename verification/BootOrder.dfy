/** Which namespaces a service needs, and in which order they are started. */
module BootOrder {
  import opened Bytes

  type Ns = string

  /** The namespaces that are registered, each with the ones it depends on. */
  type Registry = map<Ns, seq<Ns>>

  // ---- the dependency closure ----

  function DepsOf(t: Registry, s: set<Ns>): set<Ns> {
    set n, d | n in t && n in s && d in t[n] :: d
  }

  function Without(t: Registry, s: set<Ns>): (r: Registry)
    ensures r.Keys == t.Keys - s
  {
    map n | n in t && n !in s :: t[n]
  }

  lemma FewerLeft(t: Registry, s: set<Ns>)
    ensures DepsOf(t, s) != {} ==> |Without(t, s)| < |t|
  {
    if DepsOf(t, s) != {} {
      var d :| d in DepsOf(t, s);
      var n :| n in t && n in s && d in t[n];
      Smaller(t.Keys - s, t.Keys, n);
    }
  }

  lemma Smaller<T>(a: set<T>, b: set<T>, x: T)
    requires a <= b && x in b && x !in a
    ensures |a| < |b|
  {
    Subset(a, b - {x});
  }

  lemma Subset<T>(a: set<T>, b: set<T>)
    requires a <= b
    ensures |a| <= |b|
  {
    if a != {} {
      var x :| x in a;
      Subset(a - {x}, b - {x});
    }
  }

  /** What the namespaces of `s` depend on, and what those depend on once `s` has been taken out, and so on. */
  function Plot(t: Registry, s: set<Ns>): set<Ns>
    decreases |t|
  {
    FewerLeft(t, s);
    var deps := DepsOf(t, s);
    deps + if deps == {} then {} else Plot(Without(t, s), deps)
  }

  /** Every step of `p` leads from a namespace to one it depends on. */
  predicate Path(t: Registry, p: seq<Ns>) {
    forall i :: 0 <= i < |p| - 1 ==> p[i] in t && p[i + 1] in t[p[i]]
  }

  ghost predicate Reaches(t: Registry, s: set<Ns>, x: Ns) {
    exists p :: |p| >= 2 && p[0] in s && p[|p| - 1] == x && Path(t, p)
  }

  /** The closure is exactly what can be reached. */
  lemma PlotIsClosure(t: Registry, s: set<Ns>, x: Ns)
    ensures x in Plot(t, s) <==> Reaches(t, s, x)
  {
    if x in Plot(t, s) {
      PlotReached(t, s, x);
    }
    if Reaches(t, s, x) {
      var p :| |p| >= 2 && p[0] in s && p[|p| - 1] == x && Path(t, p);
      ReachedPlot(t, s, p, 0);
    }
  }

  lemma {:induction false} PlotReached(t: Registry, s: set<Ns>, x: Ns)
    requires x in Plot(t, s)
    ensures Reaches(t, s, x)
    decreases |t|
  {
    var deps := DepsOf(t, s);
    if x in deps {
      var n :| n in t && n in s && x in t[n];
      assert Path(t, [n, x]);
    } else {
      FewerLeft(t, s);
      PlotReached(Without(t, s), deps, x);
      var q :| |q| >= 2 && q[0] in deps && q[|q| - 1] == x && Path(Without(t, s), q);
      var n :| n in t && n in s && q[0] in t[n];
      var p := [n] + q;
      assert Path(t, p) by {
        forall i | 0 <= i < |p| - 1
          ensures p[i] in t && p[i + 1] in t[p[i]]
        {
          assert i > 0 ==> q[i - 1] in Without(t, s) && q[i] in Without(t, s)[q[i - 1]];
        }
      }
      assert p[|p| - 1] == x;
    }
  }

  /** The rest of a path after it has left `s` for the last time goes on among the rows that are left. */
  lemma {:induction false} ReachedPlot(t: Registry, s: set<Ns>, p: seq<Ns>, from: nat)
    requires from + 1 < |p| && p[from] in s && Path(t, p)
    ensures p[|p| - 1] in Plot(t, s)
    decreases |t|, |p| - from
  {
    assert p[from + 1] in t[p[from]];
    assert p[from + 1] in DepsOf(t, s);
    if k :| from < k < |p| - 1 && p[k] in s {
      ReachedPlot(t, s, p, k);
    } else if from + 2 < |p| {
      FewerLeft(t, s);
      var q, u := p[from + 1..], Without(t, s);
      assert Path(u, q) by {
        forall i | 0 <= i < |q| - 1
          ensures q[i] in u && q[i + 1] in u[q[i]]
        {
          assert p[from + 1 + i] in t && p[from + 1 + i + 1] in t[p[from + 1 + i]];
        }
      }
      ReachedPlot(u, DepsOf(t, s), q, 0);
    }
  }

  // ---- the start order ----

  /** A namespace and one of its dependencies; every namespace also has a row without one. */
  datatype Row = Row(ns: Ns, dep: Option<Ns>)

  /** The rows that are left when the namespaces of `done` have been started. */
  function Rows(t: Registry, done: set<Ns>): set<Row> {
    (set n | n in t && n !in done :: Row(n, None))
    + (set n, d | n in t && n !in done && d in t[n] && d !in done :: Row(n, Some(d)))
  }

  /** Namespaces all of whose rows have no dependency. */
  function Leaves(tbl: set<Row>): set<Ns> {
    set r | r in tbl && (forall q | q in tbl && q.ns == r.ns :: q.dep == None) :: r.ns
  }

  /** The rows of the leaves go, and those that depend on one. */
  function Step(tbl: set<Row>): set<Row> {
    var nsp := Leaves(tbl);
    set r | r in tbl && r.ns !in nsp && (r.dep.Some? ==> r.dep.value !in nsp)
  }

  lemma LeavesReady(t: Registry, done: set<Ns>, n: Ns)
    ensures n in Leaves(Rows(t, done)) <==> n in t && n !in done && forall d | d in t[n] :: d in done
  {
    var tbl := Rows(t, done);
    if n in t && n !in done {
      assert Row(n, None) in tbl;
      forall d | d in t[n] && d !in done
        ensures Row(n, Some(d)) in tbl
      {
      }
    }
    if n in Leaves(tbl) {
      var r :| r in tbl && r.ns == n && forall q | q in tbl && q.ns == r.ns :: q.dep == None;
    }
  }

  lemma StepRows(t: Registry, done: set<Ns>)
    ensures Step(Rows(t, done)) == Rows(t, done + Leaves(Rows(t, done)))
  {
  }

  /** All that has been started. */
  function Started(rounds: seq<set<Ns>>): set<Ns> {
    if rounds == [] then {} else Started(rounds[..|rounds| - 1]) + rounds[|rounds| - 1]
  }

  /** `n`, started in round `i`, was not started before, and all it depends on was. */
  predicate InPlace(t: Registry, rounds: seq<set<Ns>>, i: nat, n: Ns)
    requires i < |rounds|
  {
    n in t && n !in Started(rounds[..i]) && forall d | d in t[n] :: d in Started(rounds[..i])
  }

  /** Nothing is started twice, and nothing before what it depends on. */
  ghost predicate InOrder(t: Registry, rounds: seq<set<Ns>>) {
    forall i, n :: 0 <= i < |rounds| && n in rounds[i] ==> InPlace(t, rounds, i, n)
  }

  /** Everything registered depends only on what is registered. */
  predicate Complete(t: Registry) {
    forall n, d | n in t && d in t[n] :: d in t
  }

  ghost predicate Acyclic(t: Registry) {
    forall p :: Path(t, p) && |p| >= 2 ==> p[0] != p[|p| - 1]
  }

  predicate Unique(p: seq<Ns>) {
    forall i, j :: 0 <= i < j < |p| ==> p[i] != p[j]
  }

  /** Whatever `n` leads to is registered, and nothing it leads to goes round. */
  ghost predicate Grounded(t: Registry, n: Ns) {
    forall p :: |p| > 0 && p[0] == n && Path(t, p) ==> p[|p| - 1] in t && Unique(p)
  }

  /** Starts leaves over and over until that changes nothing. */
  method StartAll(t: Registry) returns (rounds: seq<set<Ns>>, left: set<Row>)
    ensures InOrder(t, rounds) && left == Rows(t, Started(rounds))
    ensures left == {} <==> Started(rounds) == t.Keys
    ensures left == {} <==> Complete(t) && Acyclic(t)
    ensures forall n :: n in Started(rounds) <==> Grounded(t, n)
  {
    rounds, left := [], Rows(t, {});
    while true
      invariant InOrder(t, rounds) && Started(rounds) <= t.Keys && left == Rows(t, Started(rounds))
      decreases |t.Keys - Started(rounds)|
    {
      var nsp := Leaves(left);
      StepRows(t, Started(rounds));
      if Step(left) == left {
        break;
      }
      NextRound(t, rounds, nsp);
      rounds := rounds + [nsp];
      left := Step(left);
    }
    Settled(t, rounds);
    forall n
      ensures n in Started(rounds) <==> Grounded(t, n)
    {
      StartedIffGrounded(t, rounds, n);
    }
  }

  /** When no leaf is left, what has been started is all that could be. */
  lemma StartedIffGrounded(t: Registry, rounds: seq<set<Ns>>, n: Ns)
    requires InOrder(t, rounds) && Started(rounds) <= t.Keys && Leaves(Rows(t, Started(rounds))) == {}
    ensures n in Started(rounds) <==> Grounded(t, n)
  {
    hide InOrder, Started, Rows, Leaves, Path, Unique, Grounded;
    if n in Started(rounds) {
      StartedGrounded(t, rounds, n);
    } else if Grounded(t, n) {
      GroundedIs(t, n);
      var left := t.Keys - Started(rounds);
      var p := WalkGrounded(t, Started(rounds), n, |left|);
      var i, j := Repeats(p, left);
      NotUnique(p, i, j);
      PathGrounded(t, n, p);
    }
  }

  lemma NotUnique(p: seq<Ns>, i: nat, j: nat)
    requires i < j < |p| && p[i] == p[j]
    ensures !Unique(p)
  {
  }

  lemma PathGrounded(t: Registry, n: Ns, p: seq<Ns>)
    requires Grounded(t, n) && |p| > 0 && p[0] == n && Path(t, p)
    ensures p[|p| - 1] in t && Unique(p)
  {
    hide Path, Unique;
  }

  lemma GroundedIs(t: Registry, n: Ns)
    requires Grounded(t, n)
    ensures n in t && forall d | d in t[n] :: Grounded(t, d)
  {
    assert Path(t, [n]);
    forall d | d in t[n]
      ensures Grounded(t, d)
    {
      forall p | |p| > 0 && p[0] == d && Path(t, p)
        ensures p[|p| - 1] in t && Unique(p)
      {
        var q := [n] + p;
        assert Path(t, q) by {
          forall i | 0 <= i < |q| - 1
            ensures q[i] in t && q[i + 1] in t[q[i]]
          {
            assert i > 0 ==> p[i - 1] in t && p[i] in t[p[i - 1]];
          }
        }
        assert q[|q| - 1] == p[|p| - 1];
        assert forall i :: 0 <= i < |p| ==> p[i] == q[i + 1];
      }
    }
  }

  lemma {:induction false} WalkGrounded(t: Registry, done: set<Ns>, n: Ns, k: nat) returns (p: seq<Ns>)
    requires Grounded(t, n) && n !in done && Leaves(Rows(t, done)) == {}
    ensures |p| == k + 1 && p[0] == n && Path(t, p) && forall i :: 0 <= i < |p| ==> p[i] in t.Keys - done
    decreases k
  {
    hide Grounded, Rows, Leaves;
    GroundedIs(t, n);
    if k == 0 {
      p := [n];
    } else {
      LeavesReady(t, done, n);
      var d :| d in t[n] && d !in done;
      var q := WalkGrounded(t, done, d, k - 1);
      p := [n] + q;
      forall i | 0 <= i < |p| - 1
        ensures p[i] in t && p[i + 1] in t[p[i]]
      {
        assert i > 0 ==> q[i - 1] in t && q[i] in t[q[i - 1]];
      }
    }
  }

  lemma StartedGrounded(t: Registry, rounds: seq<set<Ns>>, n: Ns)
    requires InOrder(t, rounds) && n in Started(rounds)
    ensures Grounded(t, n)
  {
    hide InOrder, Started, Path;
    forall p | |p| > 0 && p[0] == n && Path(t, p)
      ensures p[|p| - 1] in t && Unique(p)
    {
      AllStarted(t, rounds, p, |p| - 1);
      StartedIsRegistered(t, rounds, p[|p| - 1]);
      forall i, j | 0 <= i < j < |p|
        ensures p[i] != p[j]
      {
        AllStarted(t, rounds, p, i);
        PartOfPath(t, p, i, j + 1);
        var r := StartedAt(rounds, p[i]);
        EndsBefore(t, rounds, p[i..j + 1], r);
        NotBefore(t, rounds, r, p[i]);
      }
    }
  }

  lemma NotBefore(t: Registry, rounds: seq<set<Ns>>, i: nat, n: Ns)
    requires InOrder(t, rounds) && i < |rounds| && n in rounds[i]
    ensures n !in Started(rounds[..i]) && n in t
  {
    assert InPlace(t, rounds, i, n);
  }

  lemma StartedIsRegistered(t: Registry, rounds: seq<set<Ns>>, n: Ns)
    requires InOrder(t, rounds) && n in Started(rounds)
    ensures n in t
  {
    hide InOrder, Started;
    var i := StartedAt(rounds, n);
    NotBefore(t, rounds, i, n);
  }

  lemma AllStarted(t: Registry, rounds: seq<set<Ns>>, p: seq<Ns>, k: nat)
    requires InOrder(t, rounds) && Path(t, p) && k < |p| && p[0] in Started(rounds)
    ensures p[k] in Started(rounds)
  {
    hide InOrder, Started, Path;
    if k > 0 {
      var i := StartedAt(rounds, p[0]);
      PartOfPath(t, p, 0, k + 1);
      EndsBefore(t, rounds, p[0..k + 1], i);
      StartedGrows(rounds, i, |rounds|, p[k]);
      assert rounds[..|rounds|] == rounds;
    }
  }

  lemma NextRound(t: Registry, rounds: seq<set<Ns>>, nsp: set<Ns>)
    requires InOrder(t, rounds) && Started(rounds) <= t.Keys && nsp == Leaves(Rows(t, Started(rounds)))
    ensures InOrder(t, rounds + [nsp]) && Started(rounds + [nsp]) == Started(rounds) + nsp <= t.Keys
    ensures nsp != {} ==> |t.Keys - Started(rounds + [nsp])| < |t.Keys - Started(rounds)|
  {
    hide Rows, Leaves, InOrder, Started;
    var done := Started(rounds);
    forall n | n in nsp
      ensures n in t && n !in done && forall d | d in t[n] :: d in done
    {
      LeavesReady(t, done, n);
    }
    RoundAdded(t, rounds, nsp);
    if nsp != {} {
      var n :| n in nsp;
      Smaller(t.Keys - (done + nsp), t.Keys - done, n);
    }
  }

  lemma RoundAdded(t: Registry, rounds: seq<set<Ns>>, nsp: set<Ns>)
    requires InOrder(t, rounds)
    requires forall n | n in nsp :: n in t && n !in Started(rounds) && forall d | d in t[n] :: d in Started(rounds)
    ensures InOrder(t, rounds + [nsp]) && Started(rounds + [nsp]) == Started(rounds) + nsp
  {
    var next := rounds + [nsp];
    assert next[..|rounds|] == rounds;
    forall i, n | 0 <= i < |next| && n in next[i]
      ensures InPlace(t, next, i, n)
    {
      if i < |rounds| {
        assert next[..i] == rounds[..i];
        assert n in rounds[i] && InPlace(t, rounds, i, n);
      } else {
        assert next[..i] == rounds;
      }
    }
  }

  /** When no leaf is left, either all has been started, or something is missing or goes round. */
  lemma Settled(t: Registry, rounds: seq<set<Ns>>)
    requires InOrder(t, rounds) && Started(rounds) <= t.Keys && Leaves(Rows(t, Started(rounds))) == {}
    ensures Rows(t, Started(rounds)) == {} <==> Started(rounds) == t.Keys
    ensures Started(rounds) == t.Keys <==> Complete(t) && Acyclic(t)
  {
    hide Rows, Leaves, InOrder, Started, Complete, Acyclic;
    NoRows(t, Started(rounds));
    if Started(rounds) == t.Keys {
      AllRegistered(t, rounds);
      NothingGoesRound(t, rounds);
    } else if Complete(t) {
      SomethingGoesRound(t, Started(rounds));
    }
  }

  lemma NoRows(t: Registry, done: set<Ns>)
    requires done <= t.Keys
    ensures Rows(t, done) == {} <==> done == t.Keys
  {
    if done != t.Keys {
      var n :| n in t && n !in done;
      assert Row(n, None) in Rows(t, done);
    }
  }

  lemma NothingGoesRound(t: Registry, rounds: seq<set<Ns>>)
    requires InOrder(t, rounds) && Started(rounds) == t.Keys
    ensures Acyclic(t)
  {
    hide InOrder, Started, Path;
    forall p | Path(t, p) && |p| >= 2
      ensures p[0] != p[|p| - 1]
    {
      PathGoesBack(t, rounds, p);
    }
  }

  lemma SomethingGoesRound(t: Registry, done: set<Ns>)
    requires Complete(t) && done <= t.Keys && done != t.Keys && Leaves(Rows(t, done)) == {}
    ensures !Acyclic(t)
  {
    hide Rows, Leaves, Complete, Path;
    var n :| n in t && n !in done;
    var p := Walk(t, done, n, |t.Keys - done|);
    var i, j := Repeats(p, t.Keys - done);
    PartOfPath(t, p, i, j + 1);
    var q := p[i..j + 1];
    assert q[0] == q[|q| - 1];
  }

  lemma PartOfPath(t: Registry, p: seq<Ns>, i: nat, j: nat)
    requires Path(t, p) && i <= j <= |p|
    ensures Path(t, p[i..j])
  {
    var q := p[i..j];
    forall k | 0 <= k < |q| - 1
      ensures q[k] in t && q[k + 1] in t[q[k]]
    {
      assert p[i + k] in t && p[i + k + 1] in t[p[i + k]];
    }
  }

  lemma {:induction false} StartedAt(rounds: seq<set<Ns>>, n: Ns) returns (i: nat)
    requires n in Started(rounds)
    ensures i < |rounds| && n in rounds[i]
  {
    var last := |rounds| - 1;
    if n in rounds[last] {
      i := last;
    } else {
      i := StartedAt(rounds[..last], n);
    }
  }

  lemma AllRegistered(t: Registry, rounds: seq<set<Ns>>)
    requires InOrder(t, rounds) && Started(rounds) == t.Keys
    ensures Complete(t)
  {
    forall n, d | n in t && d in t[n]
      ensures d in t
    {
      var i := StartedAt(rounds, n);
      assert InPlace(t, rounds, i, n);
      StartedGrows(rounds, i, |rounds|, d);
      assert rounds[..|rounds|] == rounds;
    }
  }

  lemma {:induction false} StartedGrows(rounds: seq<set<Ns>>, i: nat, j: nat, n: Ns)
    requires i <= j <= |rounds| && n in Started(rounds[..i])
    ensures n in Started(rounds[..j])
    decreases j
  {
    if i < j {
      StartedGrows(rounds, i, j - 1, n);
      assert rounds[..j][..j - 1] == rounds[..j - 1];
    }
  }

  /** A path leads to what was started earlier, so it cannot come back. */
  lemma {:induction false} PathGoesBack(t: Registry, rounds: seq<set<Ns>>, p: seq<Ns>)
    requires InOrder(t, rounds) && Started(rounds) == t.Keys && Path(t, p) && |p| >= 2
    ensures p[0] != p[|p| - 1]
  {
    assert p[0] in t && p[1] in t[p[0]];
    var i := StartedAt(rounds, p[0]);
    EndsBefore(t, rounds, p, i);
  }

  lemma {:induction false} EndsBefore(t: Registry, rounds: seq<set<Ns>>, p: seq<Ns>, i: nat)
    requires InOrder(t, rounds) && Path(t, p) && |p| >= 2 && i < |rounds| && p[0] in rounds[i]
    ensures p[|p| - 1] in Started(rounds[..i])
    decreases |p|
  {
    assert p[0] in t && p[1] in t[p[0]];
    assert InPlace(t, rounds, i, p[0]);
    if |p| > 2 {
      var j := StartedAt(rounds[..i], p[1]);
      PartOfPath(t, p, 1, |p|);
      EndsBefore(t, rounds, p[1..|p|], j);
      StartedGrows(rounds, j, i, p[|p| - 1]);
    }
  }

  /** Where nothing is a leaf one can go on for as long as one likes. */
  lemma {:induction false} Walk(t: Registry, done: set<Ns>, n: Ns, k: nat) returns (p: seq<Ns>)
    requires Complete(t) && n in t && n !in done && Leaves(Rows(t, done)) == {}
    ensures |p| == k + 1 && p[0] == n && Path(t, p) && forall i :: 0 <= i < |p| ==> p[i] in t.Keys - done
    decreases k
  {
    if k == 0 {
      p := [n];
    } else {
      LeavesReady(t, done, n);
      var d :| d in t[n] && d !in done;
      var q := Walk(t, done, d, k - 1);
      p := [n] + q;
      forall i | 0 <= i < |p| - 1
        ensures p[i] in t && p[i + 1] in t[p[i]]
      {
        assert i > 0 ==> q[i - 1] in t && q[i] in t[q[i - 1]];
      }
    }
  }

  /** More namespaces than there are different ones. */
  lemma {:induction false} Repeats(p: seq<Ns>, s: set<Ns>) returns (i: nat, j: nat)
    requires |p| > |s| && forall k :: 0 <= k < |p| ==> p[k] in s
    ensures i < j < |p| && p[i] == p[j]
    decreases |p|
  {
    var last := |p| - 1;
    if k :| 0 <= k < last && p[k] == p[last] {
      i, j := k, last;
    } else {
      i, j := Repeats(p[..last], s - {p[last]});
    }
  }

  // ---- the cycle check ----

  /** The walks of one step.  The null symbol that stands in for no dependency ends a walk and is left out here. */
  function Edges(t: Registry): set<seq<Ns>> {
    set n, d | n in t && d in t[n] :: [n, d]
  }

  /** Every walk is joined to every one that begins where it ends; those that none can be joined to are dropped. */
  function Joined(walks: set<seq<Ns>>): set<seq<Ns>> {
    set p, q | p in walks && q in walks && |p| > 0 && |q| > 0 && p[|p| - 1] == q[0] :: p + q[1..]
  }

  /** These are all the walks of `n` steps. */
  ghost predicate AllWalks(t: Registry, walks: set<seq<Ns>>, n: nat) {
    forall p :: p in walks <==> |p| == n + 1 && Path(t, p)
  }

  /** Doubles the length of the walks until there are none, or one comes to a namespace twice. */
  method CycleChk(t: Registry) returns (ok: bool)
    ensures ok <==> Acyclic(t)
  {
    hide Edges, Joined, Acyclic, Path, AllWalks, Unique;
    var walks := Edges(t);
    ghost var n := 1;
    EdgesAreWalks(t);
    while true
      invariant n > 0 && AllWalks(t, walks, n)
      invariant walks != {} ==> n <= |t|
      decreases if walks == {} then 0 else |t| + 1 - n
    {
      var longer := Joined(walks);
      WalksJoin(t, walks, n);
      NothingJoins();
      if p :| p in longer && !Unique(p) {
        RepeatGoesRound(t, longer, 2 * n, p);
        return false;
      }
      if longer != {} {
        var p :| p in longer;
        UniqueIsShort(t, longer, 2 * n, p);
      }
      if longer == walks {
        break;
      }
      walks, n := longer, 2 * n;
    }
    LengthsDiffer(t, walks, n);
    NoWalksNoCycle(t, n);
    ok := true;
  }

  lemma EdgesAreWalks(t: Registry)
    ensures AllWalks(t, Edges(t), 1)
    ensures Edges(t) != {} ==> |t| >= 1
  {
    forall p
      ensures p in Edges(t) <==> |p| == 2 && Path(t, p)
    {
      if |p| == 2 && Path(t, p) {
        assert p[0] in t && p[0 + 1] in t[p[0]];
        assert p == [p[0], p[1]];
      }
    }
  }

  lemma NothingJoins()
    ensures Joined({}) == {}
  {
  }

  lemma WalksJoin(t: Registry, walks: set<seq<Ns>>, n: nat)
    requires n > 0 && AllWalks(t, walks, n)
    ensures AllWalks(t, Joined(walks), 2 * n)
  {
    hide Path;
    forall w
      ensures w in Joined(walks) <==> |w| == 2 * n + 1 && Path(t, w)
    {
      if w in Joined(walks) {
        var p, q :| p in walks && q in walks && |p| > 0 && |q| > 0 && p[|p| - 1] == q[0] && w == p + q[1..];
        PathsJoin(t, p, q);
      }
      if |w| == 2 * n + 1 && Path(t, w) {
        var p, q := w[..n + 1], w[n..];
        PartOfPath(t, w, 0, n + 1);
        PartOfPath(t, w, n, |w|);
        assert w[0..n + 1] == p && w[n..|w|] == q && w == p + q[1..];
        assert p in walks && q in walks && p[|p| - 1] == q[0];
      }
    }
  }

  lemma PathsJoin(t: Registry, p: seq<Ns>, q: seq<Ns>)
    requires |p| > 0 && |q| > 0 && p[|p| - 1] == q[0] && Path(t, p) && Path(t, q)
    ensures Path(t, p + q[1..])
  {
    var w := p + q[1..];
    forall i | 0 <= i < |w| - 1
      ensures w[i] in t && w[i + 1] in t[w[i]]
    {
      if i < |p| - 1 {
        assert p[i] in t && p[i + 1] in t[p[i]];
      } else {
        var k := i - (|p| - 1);
        assert q[k] in t && q[k + 1] in t[q[k]];
      }
    }
  }

  lemma RepeatGoesRound(t: Registry, walks: set<seq<Ns>>, n: nat, p: seq<Ns>)
    requires AllWalks(t, walks, n) && p in walks && !Unique(p)
    ensures !Acyclic(t)
  {
    hide Path;
    var i, j :| 0 <= i < j < |p| && p[i] == p[j];
    PartOfPath(t, p, i, j + 1);
    var q := p[i..j + 1];
    assert q[0] == q[|q| - 1];
  }

  /** A walk of different namespaces takes no more steps than there are. */
  lemma UniqueIsShort(t: Registry, walks: set<seq<Ns>>, n: nat, p: seq<Ns>)
    requires AllWalks(t, walks, n) && p in walks && Unique(p)
    ensures n <= |t|
  {
    var q := p[..n];
    if n > |t| {
      forall k | 0 <= k < |q|
        ensures q[k] in t.Keys
      {
        assert p[k] in t && p[k + 1] in t[p[k]];
      }
      assert |t| == |t.Keys|;
      var i, j := Repeats(q, t.Keys);
    }
  }

  lemma LengthsDiffer(t: Registry, walks: set<seq<Ns>>, n: nat)
    requires n > 0 && AllWalks(t, walks, n) && AllWalks(t, walks, 2 * n)
    ensures forall p :: |p| == n + 1 ==> !Path(t, p)
  {
    hide Path;
  }

  /** Who goes round can do so for as long as he likes. */
  lemma NoWalksNoCycle(t: Registry, n: nat)
    requires forall p :: |p| == n + 1 ==> !Path(t, p)
    ensures Acyclic(t)
  {
    if p :| Path(t, p) && |p| >= 2 && p[0] == p[|p| - 1] {
      var c := |p| - 1;
      var w := seq(n + 1, i requires i >= 0 => p[i % c]);
      forall i | 0 <= i < n
        ensures w[i] in t && w[i + 1] in t[w[i]]
      {
        RoundStep(i, c);
        assert p[i % c] in t && p[i % c + 1] in t[p[i % c]];
      }
      assert Path(t, w);
    }
  }

  lemma RoundStep(i: nat, c: nat)
    requires c > 0
    ensures (i + 1) % c == if i % c + 1 == c then 0 else i % c + 1
  {
    var q, r := i / c, i % c;
    assert i + 1 == q * c + (r + 1);
    if r + 1 == c {
      assert i + 1 == (q + 1) * c;
      ModIs(i + 1, c, q + 1, 0);
    } else {
      ModIs(i + 1, c, q, r + 1);
    }
  }

  lemma ModIs(x: int, n: int, q: int, r: int)
    requires n > 0 && x == q * n + r && 0 <= r < n
    ensures x % n == r
  {
    var d := x / n - q;
    assert x == (x / n) * n + x % n;
    assert d * n == r - x % n;
    assert d >= 1 ==> d * n >= n;
    assert d <= -1 ==> d * n <= -n;
  }

  // ---- all together ----

  /** The rows of the services that are needed. */
  function Needed(t: Registry, root: Ns): (r: Registry) {
    var rqd := {root} + Plot(t, {root});
    map n | n in t && n in rqd :: t[n]
  }

  datatype BootResult = Booted(left: set<Row>) | CycleFound

  /** A root whose dependencies go round is refused before anything has been started.  Otherwise, if they are all
      registered, exactly what it needs is started, each namespace once and after all it depends on. */
  method Boot(t: Registry, root: Ns) returns (rounds: seq<set<Ns>>, r: BootResult)
    requires root in t
    ensures r.CycleFound? <==> !Acyclic(Needed(t, root))
    ensures r.CycleFound? ==> rounds == []
    ensures InOrder(t, rounds)
    ensures forall n :: n in Started(rounds) ==> n == root || Reaches(t, {root}, n)
    ensures r.Booted? ==> (r.left == {} <==> Complete(Needed(t, root)))
    ensures r.Booted? ==> forall n :: n in Started(rounds) <==> Grounded(Needed(t, root), n)
    ensures r.Booted? && r.left == {} ==> forall n :: n in Started(rounds) <==> n == root || Reaches(t, {root}, n)
  {
    hide Rows, InOrder, Complete, Acyclic, Path, Reaches, Plot, Grounded;
    rounds := [];
    var ok := CycleChk(Needed(t, root));
    if !ok {
      NothingStarted(t);
      return [], CycleFound;
    }
    var left;
    rounds, left := StartAll(Needed(t, root));
    r := Booted(left);
    InOrderWithin(t, root, rounds);
    forall n
      ensures n in Plot(t, {root}) <==> Reaches(t, {root}, n)
    {
      PlotIsClosure(t, {root}, n);
    }
    forall n | n in Started(rounds)
      ensures n in Needed(t, root)
    {
      StartedNeeded(t, root, rounds, n);
    }
    if left == {} {
      forall n | n == root || Reaches(t, {root}, n)
        ensures n in Needed(t, root)
      {
        ReachedIsNeeded(t, root, n);
      }
    }
  }

  lemma NothingStarted(t: Registry)
    ensures InOrder(t, [])
  {
  }

  lemma StartedNeeded(t: Registry, root: Ns, rounds: seq<set<Ns>>, n: Ns)
    requires InOrder(Needed(t, root), rounds) && n in Started(rounds)
    ensures n in Needed(t, root)
  {
    hide Started, Plot;
    var i := StartedAt(rounds, n);
    assert InPlace(Needed(t, root), rounds, i, n);
  }

  lemma InOrderWithin(t: Registry, root: Ns, rounds: seq<set<Ns>>)
    requires InOrder(Needed(t, root), rounds)
    ensures InOrder(t, rounds)
  {
    forall i, n | 0 <= i < |rounds| && n in rounds[i]
      ensures InPlace(t, rounds, i, n)
    {
      assert InPlace(Needed(t, root), rounds, i, n);
    }
  }

  lemma ReachedIsNeeded(t: Registry, root: Ns, n: Ns)
    requires root in t && Complete(Needed(t, root)) && (n == root || Reaches(t, {root}, n))
    ensures n in Needed(t, root)
  {
    if n != root {
      var p :| |p| >= 2 && p[0] in {root} && p[|p| - 1] == n && Path(t, p);
      var from := p[..|p| - 1];
      assert p[|p| - 2] in t && p[|p| - 2 + 1] in t[p[|p| - 2]];
      if |from| >= 2 {
        PartOfPath(t, p, 0, |p| - 1);
        assert from == p[0..|p| - 1];
        PlotIsClosure(t, {root}, p[|p| - 2]);
      }
      assert p[|p| - 2] in Needed(t, root);
    }
  }
}
