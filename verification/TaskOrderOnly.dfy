/** Command lines whose order-only dependencies lead to tasks that were added, not requested: what then
    happens depends on which tasks happen to be listed. */
module TaskOrderOnly {
  import opened TaskOrder
  import opened TaskRepeats
  import opened TaskPulls

  /** Takes off a task whose order-only dependencies are done or not listed. */
  lemma PopListed(cli: Cli, t: Task, rest: seq<Task>, run: seq<Task>, id: nat, n: nat, end: Work) returns (k: nat)
    requires cli.deps(t.name) == [] && t.name !in Names(run)
    requires forall d :: d in cli.order(t.name) && d in Names([t] + rest) ==> d in Names(run)
    requires Rounds(cli, Work(rest, run + [t], id), n) == end
    ensures Rounds(cli, Work([t] + rest, run, id), k) == end
  {
    var w := Work([t] + rest, run, id);
    RoundCases(cli, w);
    assert w.todo[1..] == rest;
    k := PullNext(cli, w, n, end);
  }

  lemma MissesNotReady(cli: Cli, v: Visit, c: Name)
    requires v.todo != [] && Misses(cli, v, c)
    ensures !Ready(cli, v)
  {}

  lemma RoundAdds(cli: Cli, ts: seq<Task>, c: Name, run: seq<Task>, id: nat)
    requires ts != [] && c !in Names(run) && c !in Names(ts)
    requires cli.deps(ts[0].name) == [c] && cli.order(ts[0].name) == []
    ensures Round(cli, Work(ts, run, id)) == Work([Task(c, id)] + ts, run, id + 1)
  {
    var w := Work(ts, run, id);
    var known, p0, deps := Dict(w.todo), Pull(w.todo, id, true), [c];
    DictIs(ts);
    assert deps[..|deps| - 1] == [];
    assert PullDeps(p0, deps, Names(run), known) == PullDep(p0, c, Names(run), known);
  }

  /** `a c`, where `a` brings in `x` and `c` brings in `y`, and each of `x` and `y` is to run after the
      other when that is listed: they never are listed together, and the loop ends. */
  lemma OrderCycleEnds(cli: Cli, a: Name, c: Name, x: Name, y: Name) returns (n: nat)
    requires a !in {c, x, y} && c !in {x, y} && x != y
    requires cli.deps(a) == [x] && cli.deps(c) == [y] && cli.deps(x) == [] && cli.deps(y) == []
    requires cli.order(a) == [] && cli.order(c) == [] && cli.order(x) == [y] && cli.order(y) == [x]
    ensures Rounds(cli, Start([Task(a, 0), Task(c, 1)]), n) == Work([], [Task(x, 2), Task(a, 0), Task(y, 3), Task(c, 1)], 4)
    ensures forall names: set<Name>, rank: Name -> nat :: {a, c} <= names ==> !Acyclic(cli, names, rank, names)
  {
    forall names: set<Name>, rank: Name -> nat ensures !({a, c} <= names && Acyclic(cli, names, rank, names)) {
      NotAcyclic(cli, names, rank, a, c, x, y);
    }
    var ta, tc, tx, ty := Task(a, 0), Task(c, 1), Task(x, 2), Task(y, 3);
    n := SecondHalf(cli, ta, tc, tx, ty);
    assert [ta] + [tc] == [ta, tc] && [tx] + [ta] == [tx, ta] && [] + [tx] == [tx];
    n := PopNext(cli, ta, [tc], [tx], 3, n, Work([], [tx, ta, ty, tc], 4));
    n := PopListed(cli, tx, [ta, tc], [], 3, n, Work([], [tx, ta, ty, tc], 4));
    RoundAdds(cli, [ta, tc], x, [], 2);
    n := PullNext(cli, Work([ta, tc], [], 2), n, Work([], [tx, ta, ty, tc], 4));
  }

  lemma NotAcyclic(cli: Cli, names: set<Name>, rank: Name -> nat, a: Name, c: Name, x: Name, y: Name)
    requires x in cli.deps(a) && y in cli.deps(c) && y in cli.order(x) && x in cli.order(y)
    ensures !({a, c} <= names && Acyclic(cli, names, rank, names))
  {
    assert Acyclic(cli, names, rank, names) && a in names && c in names ==>
             x in names && y in names && rank(x) < rank(y) && rank(y) < rank(x);
  }

  lemma SecondHalf(cli: Cli, ta: Task, tc: Task, tx: Task, ty: Task) returns (n: nat)
    requires ty.id == 3 && ty.name !in {ta.name, tc.name, tx.name} && tc.name !in {ta.name, tx.name}
    requires cli.deps(tc.name) == [ty.name] && cli.deps(ty.name) == []
    requires cli.order(tc.name) == [] && cli.order(ty.name) == [tx.name]
    ensures Rounds(cli, Work([tc], [tx, ta], 3), n) == Work([], [tx, ta, ty, tc], 4)
  {
    n :| 0 <= n;   // the list is empty from here on
    assert [tc] + [] == [tc] && [ty] + [tc] == [ty, tc];
    assert [tx, ta] + [ty] == [tx, ta, ty] && [tx, ta, ty] + [tc] == [tx, ta, ty, tc];
    n := PopNext(cli, tc, [], [tx, ta, ty], 4, n, Work([], [tx, ta, ty, tc], 4));
    assert tx in [tx, ta];
    n := PopListed(cli, ty, [tc], [tx, ta], 4, n, Work([], [tx, ta, ty, tc], 4));
    RoundAdds(cli, [tc], ty.name, [tx, ta], 3);
    n := PullNext(cli, Work([tc], [tx, ta], 3), n, Work([], [tx, ta, ty, tc], 4));
  }

  // ------------------------------------------------------------------ a loop that never ends

  /** A listed name with one order-only dependency, listed and not done, is passed by it. */
  lemma StepTurns(cli: Cli, x: Name, y: Name, a: Name)
    requires x != y && x != a && y != a && cli.deps(x) == [] && cli.order(x) == [y]
    ensures Step(cli, Visit([x, y, a], {})) == Visit([y, x, a], {})
  {
    var v := Visit([x, y, a], {});
    MissesNotReady(cli, v, y);
    var order := [y];
    assert order[..|order| - 1] == [];
    assert FrontListed(v.todo, order, {}, v.todo) == Front(v.todo, y);
    assert v.todo == [x] + [y, a] && [y, a] == [y] + [a];
    WithoutCons(x, [y, a], y);
    WithoutCons(y, [a], y);
    WithoutCons(a, [], y);
    assert [a] + [] == [a] && [x] + [a] == [x, a] && [y] + [x, a] == [y, x, a];
  }

  lemma {:induction false} TurnsForever(cli: Cli, x: Name, y: Name, a: Name, m: nat)
    requires x != y && x != a && y != a && cli.deps(x) == [] && cli.deps(y) == []
    requires cli.order(x) == [y] && cli.order(y) == [x]
    ensures Steps(cli, Visit([x, y, a], {}), m).todo != []
    decreases m
  {
    if m > 0 {
      StepTurns(cli, x, y, a);
      TurnsForever(cli, y, x, a, m - 1);
    }
  }

  lemma FirstStep(cli: Cli, a: Name, x: Name, y: Name)
    requires x != y && x != a && y != a && cli.deps(a) == [x, y] && cli.order(a) == []
    ensures Step(cli, Visit([a], {})) == Visit([y, x, a], {})
  {
    var v, one, two := Visit([a], {}), [x], [x, y];
    assert x in [x, y];
    MissesNotReady(cli, v, x);
    assert two[..|two| - 1] == one && one[..|one| - 1] == [];
    assert FrontDeps(v.todo, one, {}) == Front(v.todo, x);
    assert FrontDeps(v.todo, two, {}) == Front(Front(v.todo, x), y);
    WithoutCons(a, [], x);
    WithoutCons(x, [a], y);
    WithoutCons(a, [], y);
    assert [a] + [] == [a] && [x] + [a] == [x, a] && [y] + [x, a] == [y, x, a];
  }

  lemma GivenOne(a: Name, requested: seq<Task>)
    requires requested == [Task(a, 0)]
    ensures Given(requested) == Visit([a], {})
  {
    assert Fresh(requested[1..], {}) == [] && Without([], a) == [] && [a] + [] == [a];
  }

  lemma RankedByRequested(cli: Cli, a: Name, x: Name, y: Name, requested: set<Name>)
    requires x != a && y != a && cli.deps(a) == [x, y] && cli.deps(x) == [] && cli.deps(y) == [] && cli.order(a) == []
    requires requested == {a} && cli.order(x) == [y] && cli.order(y) == [x]
    ensures exists names: set<Name>, rank: Name -> nat :: requested <= names && Acyclic(cli, names, rank, requested)
  {
    var rank: Name -> nat := n => if n == a then 1 else 0;
    assert Acyclic(cli, {a, x, y}, rank, requested);
  }

  /** `a` alone, which brings in `x` and `y` at once: the loop never ends, although no dependency and no
      order-only dependency on a requested name is on a cycle. */
  lemma OrderCycleNeverEnds(cli: Cli, a: Name, x: Name, y: Name)
    requires x != y && x != a && y != a && cli.deps(a) == [x, y] && cli.deps(x) == [] && cli.deps(y) == []
    requires cli.order(a) == [] && cli.order(x) == [y] && cli.order(y) == [x]
    ensures !Ends(cli, [Task(a, 0)])
    ensures exists names: set<Name>, rank: Name -> nat :: {a} <= names && Acyclic(cli, names, rank, {a})
  {
    var requested := [Task(a, 0)];
    RankedByRequested(cli, a, x, y, {a});
    if n: nat :| EndsAfter(cli, requested, n) {
      var m := MachineEnds(cli, requested, n);
      GivenOne(a, requested);
      FirstStep(cli, a, x, y);
      if m > 0 { TurnsForever(cli, y, x, a, m - 1); }
    }
  }

  // ------------------------------------------------------------------ an added task that is listed

  lemma {:induction false} WithoutAbsent(ns: seq<Name>, n: Name)
    requires n !in ns
    ensures Without(ns, n) == ns
  {
    if ns != [] { WithoutAbsent(ns[1..], n); }
  }

  lemma {:induction false} WithoutMiddle(p: seq<Name>, n: Name, q: seq<Name>)
    requires n !in p && n !in q
    ensures Without(p + [n] + q, n) == p + q
  {
    var all := p + [n] + q;
    if p == [] {
      assert all[1..] == q;
      WithoutAbsent(q, n);
    } else {
      assert all[1..] == p[1..] + [n] + q;
      WithoutMiddle(p[1..], n, q);
    }
  }

  lemma FrontMiddle(ns: seq<Name>, p: seq<Name>, n: Name, q: seq<Name>)
    requires ns == p + [n] + q && n !in p && n !in q
    ensures Front(ns, n) == [n] + (p + q)
  {
    WithoutMiddle(p, n, q);
  }

  lemma FrontNew(ns: seq<Name>, n: Name)
    requires n !in ns
    ensures Front(ns, n) == [n] + ns
  {
    WithoutAbsent(ns, n);
  }

  lemma PullsThree(cli: Cli, a: Name, b: Name, d: Name, x: Name)
    requires a !in {b, d, x} && b !in {d, x} && d != x && cli.deps(a) == [d, b, x] && cli.order(a) == []
    ensures var v := Visit([a, b], {}); Misses(cli, v, b) && Step(cli, v) == Visit([x, b, d, a], {})
  {
    var v, one, two, three := Visit([a, b], {}), [d], [d, b], [d, b, x];
    assert b in [d, b, x];
    MissesNotReady(cli, v, b);
    assert three[..|three| - 1] == two && two[..|two| - 1] == one && one[..|one| - 1] == [];
    FrontNew([a, b], d);
    assert [d] + [a, b] == [d, a, b] == [d, a] + [b] + [];
    FrontMiddle([d, a, b], [d, a], b, []);
    assert [b] + ([d, a] + []) == [b, d, a];
    FrontNew([b, d, a], x);
    assert [x] + [b, d, a] == [x, b, d, a];
    assert FrontDeps(v.todo, one, {}) == [d, a, b];
    assert FrontDeps(v.todo, two, {}) == [b, d, a];
  }

  lemma TurnsOne(cli: Cli, a: Name, b: Name, d: Name, x: Name)
    requires a !in {b, d, x} && b !in {d, x} && d != x && cli.deps(x) == [] && cli.order(x) == [d]
    ensures var v := Visit([x, b, d, a], {}); !Misses(cli, v, b) && Step(cli, v) == Visit([d, x, b, a], {})
  {
    var v, order := Visit([x, b, d, a], {}), [d];
    assert d in v.todo && d in [d];
    MissesNotReady(cli, v, d);
    assert order[..|order| - 1] == [];
    assert v.todo == [x, b] + [d] + [a];
    FrontMiddle(v.todo, [x, b], d, [a]);
    assert [d] + ([x, b] + [a]) == [d, x, b, a];
    assert FrontDeps(v.todo, cli.deps(x), {}) == v.todo;
    assert FrontListed(v.todo, order, {}, v.todo) == Front(v.todo, d);
  }

  lemma PullsOne(cli: Cli, a: Name, b: Name, d: Name, x: Name)
    requires a !in {b, d, x} && b !in {d, x} && d != x && cli.deps(d) == [b] && cli.order(d) == []
    ensures var v := Visit([d, x, b, a], {}); Misses(cli, v, b) && Step(cli, v) == Visit([b, d, x, a], {})
  {
    var v, deps := Visit([d, x, b, a], {}), [b];
    assert b in [b];
    MissesNotReady(cli, v, b);
    assert deps[..|deps| - 1] == [];
    assert v.todo == [d, x] + [b] + [a];
    FrontMiddle(v.todo, [d, x], b, [a]);
    assert [b] + ([d, x] + [a]) == [b, d, x, a];
    assert FrontDeps(v.todo, deps, {}) == Front(v.todo, b);
    assert FrontListed(Front(v.todo, b), cli.order(d), {}, v.todo) == Front(v.todo, b);
  }

  /** The commands of the example: `x` is to run after `d` when that is listed. */
  ghost predicate Example(cli: Cli, a: Name, b: Name, d: Name, x: Name) {
    && a !in {b, d, x} && b !in {d, x} && d != x
    && cli.deps(a) == [d, b, x] && cli.deps(d) == [b] && cli.deps(b) == [] && cli.deps(x) == []
    && cli.order(a) == [] && cli.order(d) == [] && cli.order(b) == [] && cli.order(x) == [d]
  }

  lemma ExamplePulls(cli: Cli, a: Name, b: Name, d: Name, x: Name, m: nat)
    requires Example(cli, a, b, d, x) && Steps(cli, Visit([a, b], {}), m).todo == []
    ensures Pulls(cli, Visit([a, b], {}), b, m) == 2
  {
    PullsThree(cli, a, b, d, x);
    TurnsOne(cli, a, b, d, x);
    PullsOne(cli, a, b, d, x);
    var v1, v2, v3 := Visit([x, b, d, a], {}), Visit([d, x, b, a], {}), Visit([b, d, x, a], {});
    assert m > 0 && Steps(cli, v1, m - 1).todo == [];
    assert m > 1 && Steps(cli, v2, m - 2).todo == [];
    assert m > 2 && Steps(cli, v3, m - 3).todo == [];
    assert Ready(cli, v3) && !Misses(cli, v3, b);
    if m > 3 { NoMorePulls(cli, Step(cli, v3), b, m - 4); }
    assert Pulls(cli, v3, b, m - 3) == 0;
    assert Pulls(cli, v2, b, m - 2) == 1;
    assert Pulls(cli, v1, b, m - 1) == 1;
  }

  lemma ExampleTrail(cli: Cli, a: Name, b: Name, d: Name, x: Name, req: set<Name>)
    requires Example(cli, a, b, d, x) && req == {a, b}
    ensures Trail(cli, req, [a, b], b) && Parents(cli, req, [a, b], b) == 1 && FirstIn([a, b], Needing(cli, req, b)) == [a]
  {
    var s := Needing(cli, req, b);
    if Reaches(cli, req, x, b) { var c := ReachesVia(cli, req, x, b); }
    assert x !in s && b in s;
    ReachesEdge(cli, req, a, b, b);
    assert cli.deps(a)[..2] == [d, b];
    assert LastIn(cli.deps(a), s) == LastIn([d, b], s) == [b];
    assert [a, b][1..] == [b];
  }

  /** `a b b`: the static trail is `a`, `b` with one parent, but `b` is pulled twice, since `x` pulls the
      added `d` to the front; so the first `b` runs, and not the second. */
  lemma AddedOrderPulls(cli: Cli, a: Name, b: Name, d: Name, x: Name) returns (n: nat, m: nat)
    requires Example(cli, a, b, d, x)
    ensures var requested := [Task(a, 0), Task(b, 1), Task(b, 2)];
            && EndsAfter(cli, requested, n) && Steps(cli, Given(requested), m).todo == []
            && FirstTrail(cli, requested, b, [a, b]) && Parents(cli, Names(requested), [a, b], b) == 1
            && Pulls(cli, Given(requested), b, m) == 2
            && Chosen(cli, Start(requested), n, b) == [Task(b, 1)]
  {
    var requested := [Task(a, 0), Task(b, 1), Task(b, 2)];
    var rank: Name -> nat := n => if n == a then 3 else if n == x then 2 else if n == d then 1 else 0;
    n := RunsOut(cli, requested, {a, b, d, x}, rank);
    m := MachineEnds(cli, requested, n);
    ExampleNames(a, b, requested);
    ExamplePulls(cli, a, b, d, x, m);
    ExampleTrail(cli, a, b, d, x, Names(requested));
    WhichRuns(cli, requested, b, n, m);
  }

  lemma ExampleNames(a: Name, b: Name, requested: seq<Task>)
    requires a != b && requested == [Task(a, 0), Task(b, 1), Task(b, 2)]
    ensures Names(requested) == {a, b} && FirstNames(requested) == [a, b]
    ensures Objects(requested, b) == [Task(b, 1), Task(b, 2)]
  {
    var two, one := [Task(b, 1), Task(b, 2)], [Task(b, 2)];
    assert requested[1..] == two && two[1..] == one && one[1..] == [];
    assert Fresh(one, {}) == [b] by { WithoutAbsent([], b); }
    assert Fresh(two, {}) == [b] by { WithoutMiddle([], b, []); assert [] + [b] + [] == [b]; }
    WithoutAbsent([b], a);
    assert [a] + [b] == [a, b];
    assert Objects(one, b) == [Task(b, 2)] && Objects(two, b) == [Task(b, 1)] + [Task(b, 2)];
    NamesOfTail(requested);
    NamesOfTail(two);
    NamesOfTail(one);
  }
}
