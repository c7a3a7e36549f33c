/** The dependency loop of idf.py: tasks given on the command line are run once each, after their
    dependencies, which are added when they were not given. */
module TaskOrder {

  /** The canonical name of a command. */
  datatype Name = Name(text: string)

  /** A task object: `id` tells objects of the same name apart. */
  datatype Task = Task(name: Name, id: nat)

  /** The commands: dependencies and order-only dependencies per canonical name. */
  datatype Cli = Cli(deps: Name -> seq<Name>, order: Name -> seq<Name>)

  function Names(ts: seq<Task>): set<Name> { set t | t in ts :: t.name }

  lemma NamesOfTail(ts: seq<Task>)
    requires ts != []
    ensures Names(ts) == {ts[0].name} + Names(ts[1..])
  {
    assert ts == [ts[0]] + ts[1..];
  }

  lemma NamesOfAppend(run: seq<Task>, t: Task)
    ensures Names(run + [t]) == Names(run) + {t.name}
  {}

  // ------------------------------------------------------------------ one round, as a function

  /** The dictionary from names to tasks that a round builds: later tasks replace earlier ones. */
  function Dict(ts: seq<Task>): map<Name, Task> {
    if ts == [] then map[] else Dict(ts[..|ts| - 1])[ts[|ts| - 1].name := ts[|ts| - 1]]
  }

  lemma {:induction false} DictIs(ts: seq<Task>)
    ensures Dict(ts).Keys == Names(ts) && forall n :: n in Dict(ts) ==> Dict(ts)[n] in ts && Dict(ts)[n].name == n
  {
    if ts != [] {
      var n := |ts| - 1;
      DictIs(ts[..n]);
      NamesOfAppend(ts[..n], ts[n]);
      assert ts == ts[..n] + [ts[n]];
    }
  }

  function IndexOf(ts: seq<Task>, t: Task): (i: nat)
    requires t in ts
    ensures i < |ts| && ts[i] == t && t !in ts[..i]
  {
    if ts[0] == t then 0 else 1 + IndexOf(ts[1..], t)
  }

  function MoveToFront(ts: seq<Task>, t: Task): seq<Task> {
    if t in ts then var i := IndexOf(ts, t); [t] + (ts[..i] + ts[i + 1..]) else ts
  }

  lemma MoveKeeps(ts: seq<Task>, t: Task)
    requires t in ts
    ensures var r := MoveToFront(ts, t); |r| == |ts| && r[0] == t && forall x :: x in r <==> x in ts
  {
    var i := IndexOf(ts, t);
    assert ts == ts[..i] + [t] + ts[i + 1..];
  }

  /** The list while a round pulls dependencies to its front. */
  datatype Pull = Pull(todo: seq<Task>, next: nat, ready: bool)

  function PullDep(p: Pull, dep: Name, done: set<Name>, known: map<Name, Task>): Pull {
    if dep in done then p
    else if dep in known then Pull(MoveToFront(p.todo, known[dep]), p.next, false)
    else Pull([Task(dep, p.next)] + p.todo, p.next + 1, false)
  }

  function PullDeps(p: Pull, deps: seq<Name>, done: set<Name>, known: map<Name, Task>): Pull {
    if deps == [] then p else PullDep(PullDeps(p, deps[..|deps| - 1], done, known), deps[|deps| - 1], done, known)
  }

  function PullListed(p: Pull, dep: Name, done: set<Name>, known: map<Name, Task>): Pull {
    if dep in known && dep !in done then Pull(MoveToFront(p.todo, known[dep]), p.next, false) else p
  }

  function PullOrder(p: Pull, order: seq<Name>, done: set<Name>, known: map<Name, Task>): Pull {
    if order == [] then p else PullListed(PullOrder(p, order[..|order| - 1], done, known), order[|order| - 1], done, known)
  }

  /** The worklist, the tasks to run so far, and the number of the next task object. */
  datatype Work = Work(todo: seq<Task>, run: seq<Task>, next: nat)

  function Pulled(cli: Cli, w: Work): Pull
    requires w.todo != []
  {
    var done, known, name := Names(w.run), Dict(w.todo), w.todo[0].name;
    PullOrder(PullDeps(Pull(w.todo, w.next, true), cli.deps(name), done, known), cli.order(name), done, known)
  }

  function Round(cli: Cli, w: Work): Work
    requires w.todo != []
  {
    var p, t := Pulled(cli, w), w.todo[0];
    if p.ready then Work(w.todo[1..], if t.name in Names(w.run) then w.run else w.run + [t], p.next)
    else Work(p.todo, w.run, p.next)
  }

  function Rounds(cli: Cli, w: Work, n: nat): Work
    decreases n
  {
    if n == 0 || w.todo == [] then w else Rounds(cli, Round(cli, w), n - 1)
  }

  lemma {:induction false} RoundsNext(cli: Cli, w: Work, n: nat)
    ensures var v := Rounds(cli, w, n); Rounds(cli, w, n + 1) == if v.todo == [] then v else Round(cli, v)
    decreases n
  {
    if n > 0 && w.todo != [] { RoundsNext(cli, Round(cli, w), n - 1); }
  }

  function Start(requested: seq<Task>): Work { Work(requested, [], |requested|) }

  /** The loop ends. */
  ghost predicate Ends(cli: Cli, requested: seq<Task>) { exists n: nat :: EndsAfter(cli, requested, n) }

  predicate EndsAfter(cli: Cli, requested: seq<Task>, n: nat) { Rounds(cli, Start(requested), n).todo == [] }

  // ------------------------------------------------------------------ what pulling does

  /** What moving and adding dependencies keeps: tasks of the list stay, and a new one is a wanted
      name that was neither in the list nor done. */
  ghost predicate Extends(ts: seq<Task>, ts0: seq<Task>, done: set<Name>, wanted: seq<Name>) {
    && (forall t :: t in ts0 ==> t in ts)
    && (forall t :: t in ts && t !in ts0 ==> t.name in wanted && t.name !in Names(ts0) && t.name !in done)
    && |ts| >= |ts0| && (|ts| > |ts0| ==> exists t :: t in ts && t !in ts0)
  }

  /** A list that is not ready has a wanted name in front that is not done. */
  ghost predicate Waiting(ts: seq<Task>, done: set<Name>, wanted: seq<Name>) {
    ts != [] && ts[0].name in wanted && ts[0].name !in done
  }

  ghost predicate KnownIs(known: map<Name, Task>, ts: seq<Task>) {
    known.Keys == Names(ts) && forall n :: n in known ==> known[n] in ts && known[n].name == n
  }

  lemma {:induction false} PullDepsOk(p0: Pull, deps: seq<Name>, done: set<Name>, known: map<Name, Task>)
    requires p0.ready && KnownIs(known, p0.todo)
    ensures var p := PullDeps(p0, deps, done, known);
            && Extends(p.todo, p0.todo, done, deps)
            && if p.ready then p.todo == p0.todo && p.next == p0.next && (forall d :: d in deps ==> d in done)
               else Waiting(p.todo, done, deps)
  {
    if deps != [] {
      var rest, dep := deps[..|deps| - 1], deps[|deps| - 1];
      PullDepsOk(p0, rest, done, known);
      var q := PullDeps(p0, rest, done, known);
      assert deps == rest + [dep];
      if dep !in done {
        if dep in known {
          MoveKeeps(q.todo, known[dep]);
        } else {
          assert Task(dep, q.next) !in p0.todo;
        }
      }
    }
  }

  lemma {:induction false} PullOrderOk(p0: Pull, order: seq<Name>, done: set<Name>, known: map<Name, Task>)
    requires forall n :: n in known ==> known[n] in p0.todo && known[n].name == n
    ensures var p := PullOrder(p0, order, done, known);
            && |p.todo| == |p0.todo| && (forall t :: t in p.todo <==> t in p0.todo)
            && if p.ready then p == p0 && (forall d :: d in order && d in known ==> d in done)
               else (p == p0 && !p0.ready) || (Waiting(p.todo, done, order) && p.todo[0].name in known)
  {
    if order != [] {
      var rest, dep := order[..|order| - 1], order[|order| - 1];
      PullOrderOk(p0, rest, done, known);
      var q := PullOrder(p0, rest, done, known);
      assert order == rest + [dep];
      if dep in known && dep !in done { MoveKeeps(q.todo, known[dep]); }
    }
  }

  /** A round whose first task is ready takes it off the list; any other round leaves a list with a
      missing dependency, or a missing listed order dependency, of its first task in front. */
  lemma RoundCases(cli: Cli, w: Work)
    requires w.todo != []
    ensures var p, done, name := Pulled(cli, w), Names(w.run), w.todo[0].name;
            if p.ready then
              && p.todo == w.todo && p.next == w.next
              && (forall d :: d in cli.deps(name) ==> d in done)
              && (forall d :: d in cli.order(name) && d in Names(w.todo) ==> d in done)
            else
              && Extends(p.todo, w.todo, done, cli.deps(name))
              && (Waiting(p.todo, done, cli.deps(name))
                  || (Waiting(p.todo, done, cli.order(name)) && p.todo[0].name in Names(w.todo)))
  {
    var done, known, name := Names(w.run), Dict(w.todo), w.todo[0].name;
    var p0 := Pull(w.todo, w.next, true);
    DictIs(w.todo);
    PullDepsOk(p0, cli.deps(name), done, known);
    PullOrderOk(PullDeps(p0, cli.deps(name), done, known), cli.order(name), done, known);
  }

  // ------------------------------------------------------------------ the result

  ghost predicate Before(run: seq<Task>, i: int, n: Name) {
    exists j :: 0 <= j < i < |run| && run[j].name == n
  }

  /** Once each, after every dependency, and after every order-only dependency that was requested. */
  ghost predicate Ordered(cli: Cli, run: seq<Task>, requested: set<Name>) {
    && (forall i, j :: 0 <= i < j < |run| ==> run[i].name != run[j].name)
    && (forall i, d :: 0 <= i < |run| && d in cli.deps(run[i].name) ==> Before(run, i, d))
    && (forall i, d :: 0 <= i < |run| && d in cli.order(run[i].name) && d in requested ==> Before(run, i, d))
  }

  ghost predicate Closed(cli: Cli, s: set<Name>) {
    forall n, d :: n in s && d in cli.deps(n) ==> d in s
  }

  /** In every dependency-closed set that holds the requested names. */
  ghost predicate InClosure(cli: Cli, requested: set<Name>, n: Name) {
    forall s: set<Name> :: requested <= s && Closed(cli, s) ==> n in s
  }

  /** What the list and the tasks done so far amount to. */
  ghost predicate Covered(cli: Cli, w: Work, requested: seq<Task>) {
    && Names(requested) <= Names(w.todo) + Names(w.run)
    && (forall n :: n in Names(w.todo) + Names(w.run) ==> InClosure(cli, Names(requested), n))
    && (forall t :: t in w.todo || t in w.run ==> t.name in Names(requested) ==> t in requested)
    && Ordered(cli, w.run, Names(requested))
  }

  lemma StartCovered(cli: Cli, requested: seq<Task>)
    ensures Covered(cli, Start(requested), requested)
  {
    assert Names([]) == {};
  }

  lemma OrderedNext(cli: Cli, run: seq<Task>, requested: set<Name>, t: Task)
    requires Ordered(cli, run, requested) && t.name !in Names(run)
    requires forall d :: d in cli.deps(t.name) ==> d in Names(run)
    requires forall d :: d in cli.order(t.name) && d in requested ==> d in Names(run)
    ensures Ordered(cli, run + [t], requested)
  {
    var r := run + [t];
    forall i, d | 0 <= i < |r| && (d in cli.deps(r[i].name) || (d in cli.order(r[i].name) && d in requested))
      ensures Before(r, i, d)
    {
      if i < |run| {
        assert Before(run, i, d);
        var j :| 0 <= j < i && run[j].name == d;
        assert r[j].name == d;
      } else {
        var u :| u in run && u.name == d;
        var j :| 0 <= j < |run| && run[j] == u;
        assert r[j].name == d;
      }
    }
  }

  lemma PopCovered(cli: Cli, w: Work, requested: seq<Task>)
    requires w.todo != [] && Pulled(cli, w).ready && Covered(cli, w, requested)
    ensures Covered(cli, Round(cli, w), requested)
    ensures Names(Round(cli, w).todo) + Names(Round(cli, w).run) == Names(w.todo) + Names(w.run)
  {
    var t := w.todo[0];
    RoundCases(cli, w);
    NamesOfTail(w.todo);
    NamesOfAppend(w.run, t);
    assert t in w.todo && forall x :: x in w.todo[1..] ==> x in w.todo;
    if t.name !in Names(w.run) { OrderedNext(cli, w.run, Names(requested), t); }
  }

  lemma PullCovered(cli: Cli, w: Work, requested: seq<Task>)
    requires w.todo != [] && !Pulled(cli, w).ready && Covered(cli, w, requested)
    ensures Covered(cli, Round(cli, w), requested) && Names(w.todo) <= Names(Round(cli, w).todo)
  {
    RoundCases(cli, w);
    var head, ts := w.todo[0].name, Pulled(cli, w).todo;
    assert w.todo[0] in w.todo && head in Names(w.todo);
    forall n | n in Names(ts) ensures InClosure(cli, Names(requested), n) {
      var t :| t in ts && t.name == n;
      if t !in w.todo {
        forall s: set<Name> | Names(requested) <= s && Closed(cli, s) ensures n in s {
          assert InClosure(cli, Names(requested), head);
        }
      } else {
        assert n in Names(w.todo);
      }
    }
    forall n | n in Names(w.todo) ensures n in Names(ts) {
      var t :| t in w.todo && t.name == n;
      assert t in ts;
    }
    forall t | t in ts && t.name in Names(requested) ensures t in requested {
      assert t !in w.todo ==> t.name !in Names(w.todo) && t.name !in Names(w.run);
    }
  }

  /** Every round keeps the order of the tasks to run, the closure, and the objects of requested names. */
  lemma RoundCovered(cli: Cli, w: Work, requested: seq<Task>)
    requires w.todo != [] && Covered(cli, w, requested)
    ensures Covered(cli, Round(cli, w), requested)
  {
    if Pulled(cli, w).ready { PopCovered(cli, w, requested); } else { PullCovered(cli, w, requested); }
  }

  lemma RoundsCovered(cli: Cli, requested: seq<Task>, n: nat)
    ensures Covered(cli, Rounds(cli, Start(requested), n), requested)
  {
    var w := Start(requested);
    StartCovered(cli, requested);
    for i := 0 to n
      invariant w == Rounds(cli, Start(requested), i) && Covered(cli, w, requested)
    {
      RoundsNext(cli, Start(requested), i);
      if w.todo != [] {
        RoundCovered(cli, w, requested);
        w := Round(cli, w);
      }
    }
  }

  lemma ClosedRun(cli: Cli, run: seq<Task>, requested: set<Name>)
    requires Ordered(cli, run, requested)
    ensures Closed(cli, Names(run))
    ensures forall n, d :: n in Names(run) && d in cli.order(n) && d in requested ==> d in Names(run)
  {
    forall n, d | n in Names(run) && (d in cli.deps(n) || (d in cli.order(n) && d in requested)) ensures d in Names(run) {
      var t :| t in run && t.name == n;
      var i :| 0 <= i < |run| && run[i] == t;
      assert Before(run, i, d);
      var j :| 0 <= j < i && run[j].name == d;
      assert run[j] in run;
    }
  }

  /** When the list is empty, the tasks to run are exactly the dependency closure of the requested. */
  lemma RunIsClosure(cli: Cli, w: Work, requested: seq<Task>)
    requires Covered(cli, w, requested) && w.todo == []
    ensures forall n :: n in Names(w.run) <==> InClosure(cli, Names(requested), n)
  {
    assert Names([]) == {};
    ClosedRun(cli, w.run, Names(requested));
  }

  // ------------------------------------------------------------------ termination

  /** The names are closed under dependencies, and `rank` witnesses that dependencies among them, and
      order-only dependencies on the names in `listed`, have no cycle. */
  ghost predicate Acyclic(cli: Cli, names: set<Name>, rank: Name -> nat, listed: set<Name>) {
    forall n :: n in names ==>
      && (forall d :: d in cli.deps(n) ==> d in names && rank(d) < rank(n))
      && (forall d :: d in cli.order(n) && d in names && d in listed ==> rank(d) < rank(n))
  }

  /** Names that are neither listed nor done. */
  ghost function Unseen(names: set<Name>, w: Work): set<Name> {
    names - Names(w.todo) - Names(w.run)
  }

  lemma SmallerSet(a: set<Name>, b: set<Name>)
    requires a <= b
    ensures |a| <= |b| && (a < b ==> |a| < |b|)
  {
    assert b == a + (b - a);
    if a < b { var x :| x in b - a; assert |b - a| == |b - a - {x}| + 1; }
  }

  lemma CoveredWithin(cli: Cli, w: Work, requested: seq<Task>, names: set<Name>, rank: Name -> nat)
    requires Covered(cli, w, requested) && Acyclic(cli, names, rank, names) && Names(requested) <= names
    ensures Names(w.todo) + Names(w.run) <= names
  {
    assert Closed(cli, names);
  }

  /** The termination measure of the worklist: names never seen, length, rank of the first task. */
  ghost function Measure(names: set<Name>, rank: Name -> nat, w: Work): (nat, nat, nat) {
    (|Unseen(names, w)|, |w.todo|, if w.todo == [] then 0 else rank(w.todo[0].name))
  }

  ghost predicate Less(m: (nat, nat, nat), m0: (nat, nat, nat)) {
    m.0 < m0.0 || (m.0 == m0.0 && (m.1 < m0.1 || (m.1 == m0.1 && m.2 < m0.2)))
  }

  lemma PullProgress(cli: Cli, w: Work, requested: seq<Task>, names: set<Name>, rank: Name -> nat)
    requires w.todo != [] && !Pulled(cli, w).ready && Covered(cli, w, requested)
    requires Acyclic(cli, names, rank, names) && Names(requested) <= names
    ensures Less(Measure(names, rank, Round(cli, w)), Measure(names, rank, w))
  {
    var v := Round(cli, w);
    RoundCases(cli, w);
    PullCovered(cli, w, requested);
    CoveredWithin(cli, w, requested, names, rank);
    CoveredWithin(cli, v, requested, names, rank);
    SmallerSet(Unseen(names, v), Unseen(names, w));
    assert w.todo[0].name in Names(w.todo);
    if |v.todo| > |w.todo| {
      var t :| t in v.todo && t !in w.todo;
      assert t.name in Unseen(names, w) && t.name in Names(v.todo);
    }
  }

  /** Every round lowers the measure. */
  lemma RoundProgress(cli: Cli, w: Work, requested: seq<Task>, names: set<Name>, rank: Name -> nat)
    requires w.todo != [] && Covered(cli, w, requested)
    requires Acyclic(cli, names, rank, names) && Names(requested) <= names
    ensures Less(Measure(names, rank, Round(cli, w)), Measure(names, rank, w))
  {
    if Pulled(cli, w).ready {
      PopCovered(cli, w, requested);
      assert Unseen(names, Round(cli, w)) == Unseen(names, w);
    } else {
      PullProgress(cli, w, requested, names, rank);
    }
  }

  /** Without dependency cycles the loop ends. */
  lemma RunsOut(cli: Cli, requested: seq<Task>, names: set<Name>, rank: Name -> nat) returns (n: nat)
    requires Acyclic(cli, names, rank, names) && Names(requested) <= names
    ensures EndsAfter(cli, requested, n)
  {
    var w := Start(requested);
    StartCovered(cli, requested);
    n := 0;
    while w.todo != []
      invariant Covered(cli, w, requested) && w == Rounds(cli, Start(requested), n)
      decreases Measure(names, rank, w).0, Measure(names, rank, w).1, Measure(names, rank, w).2
    {
      RoundCovered(cli, w, requested);
      RoundProgress(cli, w, requested, names, rank);
      RoundsNext(cli, Start(requested), n);
      w := Round(cli, w);
      n := n + 1;
    }
  }

  function Position(run: seq<Task>, n: Name): nat {
    if run == [] || run[0].name == n then 0 else 1 + Position(run[1..], n)
  }

  lemma {:induction false} PositionIs(run: seq<Task>, i: nat)
    requires i < |run| && forall j :: 0 <= j < i ==> run[j].name != run[i].name
    ensures Position(run, run[i].name) == i
  {
    if i > 0 {
      assert run[0].name != run[i].name;
      forall j | 0 <= j < i - 1 ensures run[1..][j].name != run[1..][i - 1].name {
        assert run[1..][j] == run[j + 1];
      }
      PositionIs(run[1..], i - 1);
    }
  }

  /** A rank can be read off any sound order: the positions in it. */
  lemma OrderedIsAcyclic(cli: Cli, run: seq<Task>, requested: set<Name>) returns (rank: Name -> nat)
    requires Ordered(cli, run, requested)
    ensures Acyclic(cli, Names(run), rank, requested)
  {
    rank := n => Position(run, n);
    ClosedRun(cli, run, requested);
    forall n, d | n in Names(run) && (d in cli.deps(n) || (d in cli.order(n) && d in requested))
      ensures rank(d) < rank(n)
    {
      var t :| t in run && t.name == n;
      var i :| 0 <= i < |run| && run[i] == t;
      assert Before(run, i, d);
      var j :| 0 <= j < i && run[j].name == d;
      PositionIs(run, i);
      PositionIs(run, j);
    }
  }

  /** Conversely, the loop ends only when the dependencies, and the order-only dependencies on
      requested names, have no cycle. */
  lemma EndsOnlyIfAcyclic(cli: Cli, requested: seq<Task>)
    requires Ends(cli, requested)
    ensures exists names: set<Name>, rank: Name -> nat ::
              Names(requested) <= names && Acyclic(cli, names, rank, Names(requested))
  {
    var n: nat :| EndsAfter(cli, requested, n);
    var w := Rounds(cli, Start(requested), n);
    RoundsCovered(cli, requested, n);
    RunIsClosure(cli, w, requested);
    var rank := OrderedIsAcyclic(cli, w.run, Names(requested));
  }

  lemma NotMutual(cli: Cli, names: set<Name>, rank: Name -> nat, listed: set<Name>, a: Name, b: Name)
    requires b in cli.deps(a) && a in cli.deps(b)
    ensures !(a in names && Acyclic(cli, names, rank, listed))
  {
    assert Acyclic(cli, names, rank, listed) && a in names ==> rank(b) < rank(a) && rank(a) < rank(b);
  }

  /** Two commands that depend on each other: the loop never ends. */
  lemma CycleNeverEnds(cli: Cli, requested: seq<Task>, a: Name, b: Name)
    requires a in Names(requested) && b in cli.deps(a) && a in cli.deps(b)
    ensures !Ends(cli, requested)
  {
    forall names: set<Name>, rank: Name -> nat
      ensures !(a in names && Acyclic(cli, names, rank, Names(requested)))
    {
      NotMutual(cli, names, rank, Names(requested), a, b);
    }
    if Ends(cli, requested) { EndsOnlyIfAcyclic(cli, requested); }
  }

  /** Order-only dependencies inside the closure are on requested names. */
  ghost predicate OrderRequested(cli: Cli, requested: set<Name>) {
    forall n, d :: InClosure(cli, requested, n) && d in cli.order(n) && InClosure(cli, requested, d) ==> d in requested
  }

  /** When order-only dependencies inside the closure are on requested names, the loop ends exactly
      when dependencies and those order-only dependencies have no cycle. */
  lemma EndsIff(cli: Cli, requested: seq<Task>)
    requires OrderRequested(cli, Names(requested))
    ensures Ends(cli, requested) <==>
              exists names: set<Name>, rank: Name -> nat ::
                Names(requested) <= names && Acyclic(cli, names, rank, Names(requested))
  {
    if Ends(cli, requested) { EndsOnlyIfAcyclic(cli, requested); }
    if names: set<Name>, rank: Name -> nat :| Names(requested) <= names && Acyclic(cli, names, rank, Names(requested)) {
      var inside := set n | n in names && InClosure(cli, Names(requested), n);
      assert Acyclic(cli, inside, rank, inside) by {
        forall n, d | n in inside && d in cli.deps(n) ensures d in inside {
          forall s: set<Name> | Names(requested) <= s && Closed(cli, s) ensures d in s {}
        }
      }
      var n := RunsOut(cli, requested, inside, rank);
    }
  }

  // ------------------------------------------------------------------ the loop

  /** The dictionary of one round. */
  method ByName(ts: seq<Task>) returns (m: map<Name, Task>)
    ensures m == Dict(ts) && KnownIs(m, ts)
  {
    m := map[];
    var i := 0;
    while i < |ts|
      invariant 0 <= i <= |ts| && m == Dict(ts[..i])
    {
      assert ts[..i + 1][..i] == ts[..i];
      m := m[ts[i].name := ts[i]];
      i := i + 1;
    }
    assert ts[..i] == ts;
    DictIs(ts);
  }

  /** The loop over the dependencies of the first task. */
  method PullDependencies(deps: seq<Name>, w: Work, known: map<Name, Task>)
    returns (ts: seq<Task>, id: nat, ready: bool)
    requires KnownIs(known, w.todo)
    ensures Extends(ts, w.todo, Names(w.run), deps)
    ensures if ready then ts == w.todo && (forall d :: d in deps ==> d in Names(w.run)) else Waiting(ts, Names(w.run), deps)
    ensures Pull(ts, id, ready) == PullDeps(Pull(w.todo, w.next, true), deps, Names(w.run), known)
  {
    ts, id, ready := w.todo, w.next, true;
    var i := 0;
    while i < |deps|
      invariant 0 <= i <= |deps|
      invariant Pull(ts, id, ready) == PullDeps(Pull(w.todo, w.next, true), deps[..i], Names(w.run), known)
    {
      var dep := deps[i];
      assert deps[..i + 1][..i] == deps[..i];
      if dep !in Names(w.run) {
        if dep in known {
          ts := MoveToFront(ts, known[dep]);
        } else {
          ts := [Task(dep, id)] + ts;
          id := id + 1;
        }
        ready := false;
      }
      i := i + 1;
    }
    assert deps[..i] == deps;
    PullDepsOk(Pull(w.todo, w.next, true), deps, Names(w.run), known);
  }

  /** The loop over its order-only dependencies, on the same dictionary. */
  method PullOrderDependencies(order: seq<Name>, p: Pull, done: set<Name>, known: map<Name, Task>)
    returns (ts: seq<Task>, ready: bool)
    requires forall n :: n in known ==> known[n] in p.todo && known[n].name == n
    ensures |ts| == |p.todo| && forall t :: t in ts <==> t in p.todo
    ensures if ready then ts == p.todo && p.ready && (forall d :: d in order && d in known ==> d in done)
            else (ts == p.todo && !p.ready) || (Waiting(ts, done, order) && ts[0].name in known)
    ensures Pull(ts, p.next, ready) == PullOrder(p, order, done, known)
  {
    ts, ready := p.todo, p.ready;
    var i := 0;
    while i < |order|
      invariant 0 <= i <= |order| && Pull(ts, p.next, ready) == PullOrder(p, order[..i], done, known)
    {
      var dep := order[i];
      assert order[..i + 1][..i] == order[..i];
      if dep in known && dep !in done {
        ts := MoveToFront(ts, known[dep]);
        ready := false;
      }
      i := i + 1;
    }
    assert order[..i] == order;
    PullOrderOk(p, order, done, known);
  }

  /** One round of the worklist loop. */
  method DoRound(cli: Cli, w: Work, ghost requested: seq<Task>) returns (v: Work)
    requires w.todo != [] && Covered(cli, w, requested)
    ensures v == Round(cli, w) && Covered(cli, v, requested)
  {
    var task := w.todo[0];
    var known := ByName(w.todo);
    var tasks, id, ready := PullDependencies(cli.deps(task.name), w, known);
    tasks, ready := PullOrderDependencies(cli.order(task.name), Pull(tasks, id, ready), Names(w.run), known);
    RoundCases(cli, w);
    var run := w.run;
    if ready {
      tasks := tasks[1..];
      if task.name !in Names(run) { run := run + [task]; }
    }
    RoundCovered(cli, w, requested);
    v := Work(tasks, run, id);
  }

  /** The worklist loop.  For commands without dependency cycles it ends, and runs the dependency
      closure of the requested names once each, in a sound order; a requested name runs one of the
      task objects given for it, never one with default options. */
  method ExecuteTasks(cli: Cli, requested: seq<Task>, ghost names: set<Name>, ghost rank: Name -> nat)
    returns (run: seq<Task>, ghost n: nat)
    requires Acyclic(cli, names, rank, names) && Names(requested) <= names
    ensures EndsAfter(cli, requested, n) && run == Rounds(cli, Start(requested), n).run
    ensures Ordered(cli, run, Names(requested))
    ensures forall n :: n in Names(run) <==> InClosure(cli, Names(requested), n)
    ensures forall t :: t in run && t.name in Names(requested) ==> t in requested
  {
    var w := Start(requested);
    StartCovered(cli, requested);
    n := 0;
    while w.todo != []
      invariant Covered(cli, w, requested) && w == Rounds(cli, Start(requested), n)
      decreases Measure(names, rank, w).0, Measure(names, rank, w).1, Measure(names, rank, w).2
    {
      RoundProgress(cli, w, requested, names, rank);
      RoundsNext(cli, Start(requested), n);
      w := DoRound(cli, w, requested);
      n := n + 1;
    }
    RunIsClosure(cli, w, requested);
    run := w.run;
  }
}
