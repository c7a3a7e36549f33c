/** Which task object runs when a command is given several times.  The worklist of task objects
    follows a simpler machine over distinct names: it tells how often a name is pulled to the front,
    and each pull rotates the objects of that name. */
module TaskRepeats {
  import opened Arithmetic
  import opened TaskOrder

  // ------------------------------------------------------------------ the machine over names

  /** Distinct names still to visit, and names done. */
  datatype Visit = Visit(todo: seq<Name>, done: set<Name>)

  function Without(ns: seq<Name>, n: Name): seq<Name> {
    if ns == [] then []
    else if ns[0] == n then Without(ns[1..], n)
    else [ns[0]] + Without(ns[1..], n)
  }

  function Front(ns: seq<Name>, n: Name): seq<Name> { [n] + Without(ns, n) }

  function FrontDeps(ns: seq<Name>, deps: seq<Name>, done: set<Name>): seq<Name> {
    if deps == [] then ns
    else
      var r, d := FrontDeps(ns, deps[..|deps| - 1], done), deps[|deps| - 1];
      if d in done then r else Front(r, d)
  }

  function FrontListed(ns: seq<Name>, order: seq<Name>, done: set<Name>, listed: seq<Name>): seq<Name> {
    if order == [] then ns
    else
      var r, d := FrontListed(ns, order[..|order| - 1], done, listed), order[|order| - 1];
      if d in listed && d !in done then Front(r, d) else r
  }

  /** The first name waits for `c`. */
  predicate Misses(cli: Cli, v: Visit, c: Name)
    requires v.todo != []
  {
    c !in v.done && (c in cli.deps(v.todo[0]) || (c in cli.order(v.todo[0]) && c in v.todo))
  }

  predicate Ready(cli: Cli, v: Visit)
    requires v.todo != []
  {
    && (forall d :: d in cli.deps(v.todo[0]) ==> d in v.done)
    && (forall d :: d in cli.order(v.todo[0]) && d in v.todo ==> d in v.done)
  }

  function Step(cli: Cli, v: Visit): Visit
    requires v.todo != []
  {
    var x := v.todo[0];
    if Ready(cli, v) then Visit(v.todo[1..], v.done + {x})
    else Visit(FrontListed(FrontDeps(v.todo, cli.deps(x), v.done), cli.order(x), v.done, v.todo), v.done)
  }

  function Steps(cli: Cli, v: Visit, n: nat): Visit
    decreases n
  {
    if n == 0 || v.todo == [] then v else Steps(cli, Step(cli, v), n - 1)
  }

  /** How often `b` is pulled to the front in `n` steps. */
  function Pulls(cli: Cli, v: Visit, b: Name, n: nat): nat
    decreases n
  {
    if n == 0 || v.todo == [] then 0 else (if Misses(cli, v, b) then 1 else 0) + Pulls(cli, Step(cli, v), b, n - 1)
  }

  // ------------------------------------------------------------------ names of a worklist

  /** The names of a list that are not done, at their first places. */
  function Fresh(ts: seq<Task>, done: set<Name>): seq<Name> {
    if ts == [] then []
    else if ts[0].name in done then Fresh(ts[1..], done)
    else Front(Fresh(ts[1..], done), ts[0].name)
  }

  function Abs(w: Work): Visit { Visit(Fresh(w.todo, Names(w.run)), Names(w.run)) }

  lemma {:induction false} WithoutIn(ns: seq<Name>, n: Name, x: Name)
    ensures x in Without(ns, n) <==> x in ns && x != n
  {
    if ns != [] { WithoutIn(ns[1..], n, x); }
  }

  lemma {:induction false} WithoutSwap(ns: seq<Name>, x: Name, y: Name)
    ensures Without(Without(ns, x), y) == Without(Without(ns, y), x)
  {
    if ns != [] {
      WithoutSwap(ns[1..], x, y);
      WithoutCons(ns[0], Without(ns[1..], x), y);
      WithoutCons(ns[0], Without(ns[1..], y), x);
    }
  }

  lemma WithoutCons(a: Name, ns: seq<Name>, n: Name)
    ensures Without([a] + ns, n) == if a == n then Without(ns, n) else [a] + Without(ns, n)
  {
    assert ([a] + ns)[1..] == ns;
  }

  lemma {:induction false} WithoutTwice(ns: seq<Name>, x: Name)
    ensures Without(Without(ns, x), x) == Without(ns, x)
  {
    if ns != [] {
      WithoutTwice(ns[1..], x);
      WithoutCons(ns[0], Without(ns[1..], x), x);
    }
  }

  lemma WithoutFront(ns: seq<Name>, y: Name, x: Name)
    ensures Without(Front(ns, y), x) == if x == y then Without(ns, x) else Front(Without(ns, x), y)
  {
    WithoutCons(y, Without(ns, y), x);
    WithoutTwice(ns, x);
    WithoutSwap(ns, y, x);
  }

  lemma {:induction false} FreshIn(ts: seq<Task>, done: set<Name>, n: Name)
    ensures n in Fresh(ts, done) <==> n in Names(ts) && n !in done
  {
    if ts != [] {
      FreshIn(ts[1..], done, n);
      NamesOfTail(ts);
      WithoutIn(Fresh(ts[1..], done), ts[0].name, n);
    }
  }

  /** A list without the first place of an object. */
  function Removed(s: seq<Task>, u: Task): seq<Task> {
    if s == [] then [] else if s[0] == u then s[1..] else [s[0]] + Removed(s[1..], u)
  }

  lemma {:induction false} MoveIsRemoved(ts: seq<Task>, u: Task)
    requires u in ts
    ensures MoveToFront(ts, u) == [u] + Removed(ts, u)
  {
    var i := IndexOf(ts, u);
    if i == 0 {
      assert ts[..0] + ts[1..] == ts[1..];
    } else {
      MoveIsRemoved(ts[1..], u);
      var j := IndexOf(ts[1..], u);
      assert ts[..i] + ts[i + 1..] == [ts[0]] + (ts[1..][..j] + ts[1..][j + 1..]);
      assert ([u] + Removed(ts[1..], u))[1..] == Removed(ts[1..], u);
      assert ([u] + (ts[1..][..j] + ts[1..][j + 1..]))[1..] == ts[1..][..j] + ts[1..][j + 1..];
    }
  }

  lemma {:induction false} FreshRemoved(ts: seq<Task>, u: Task, done: set<Name>)
    ensures Without(Fresh(Removed(ts, u), done), u.name) == Without(Fresh(ts, done), u.name)
  {
    if ts != [] {
      var x := ts[0].name;
      if x !in done { WithoutFront(Fresh(ts[1..], done), x, u.name); }
      if ts[0] != u {
        FreshRemoved(ts[1..], u, done);
        assert ([ts[0]] + Removed(ts[1..], u))[1..] == Removed(ts[1..], u);
        if x !in done { WithoutFront(Fresh(Removed(ts[1..], u), done), x, u.name); }
      }
    }
  }

  lemma FreshMove(ts: seq<Task>, u: Task, done: set<Name>)
    requires u in ts && u.name !in done
    ensures Fresh(MoveToFront(ts, u), done) == Front(Fresh(ts, done), u.name)
  {
    MoveIsRemoved(ts, u);
    FreshRemoved(ts, u, done);
    assert ([u] + Removed(ts, u))[1..] == Removed(ts, u);
  }

  lemma {:induction false} FreshDone(ts: seq<Task>, done: set<Name>, x: Name)
    ensures Fresh(ts, done + {x}) == Without(Fresh(ts, done), x)
  {
    if ts != [] {
      FreshDone(ts[1..], done, x);
      if ts[0].name !in done { WithoutFront(Fresh(ts[1..], done), ts[0].name, x); }
    }
  }

  // ------------------------------------------------------------------ the worklist follows the names

  lemma {:induction false} DepsFollow(p0: Pull, deps: seq<Name>, done: set<Name>, known: map<Name, Task>)
    requires p0.ready && KnownIs(known, p0.todo)
    ensures Fresh(PullDeps(p0, deps, done, known).todo, done) == FrontDeps(Fresh(p0.todo, done), deps, done)
  {
    if deps != [] {
      var rest, d := deps[..|deps| - 1], deps[|deps| - 1];
      DepsFollow(p0, rest, done, known);
      PullDepsOk(p0, rest, done, known);
      var q := PullDeps(p0, rest, done, known);
      if d !in done {
        if d in known {
          FreshMove(q.todo, known[d], done);
        } else {
          assert ([Task(d, q.next)] + q.todo)[1..] == q.todo;
        }
      }
    }
  }

  lemma {:induction false} OrderFollows(p0: Pull, order: seq<Name>, done: set<Name>, known: map<Name, Task>, listed: seq<Name>)
    requires forall n :: n in known ==> known[n] in p0.todo && known[n].name == n
    requires forall n :: n !in done ==> (n in known <==> n in listed)
    ensures Fresh(PullOrder(p0, order, done, known).todo, done) == FrontListed(Fresh(p0.todo, done), order, done, listed)
  {
    if order != [] {
      var rest, d := order[..|order| - 1], order[|order| - 1];
      OrderFollows(p0, rest, done, known, listed);
      PullOrderOk(p0, rest, done, known);
      var q := PullOrder(p0, rest, done, known);
      if d in known && d !in done { FreshMove(q.todo, known[d], done); }
    }
  }

  /** A round whose first task is not done is one step of the machine over names. */
  lemma RoundIsStep(cli: Cli, w: Work)
    requires w.todo != [] && w.todo[0].name !in Names(w.run)
    ensures Abs(w).todo != [] && Abs(w).todo[0] == w.todo[0].name
    ensures Pulled(cli, w).ready <==> Ready(cli, Abs(w))
    ensures Abs(Round(cli, w)) == Step(cli, Abs(w))
  {
    var done, known, x := Names(w.run), Dict(w.todo), w.todo[0].name;
    var p0, v := Pull(w.todo, w.next, true), Abs(w);
    DictIs(w.todo);
    RoundCases(cli, w);
    forall n ensures n in v.todo <==> n in Names(w.todo) && n !in done { FreshIn(w.todo, done, n); }
    if Pulled(cli, w).ready {
      FreshDone(w.todo[1..], done, x);
      NamesOfAppend(w.run, w.todo[0]);
    } else {
      PullDepsOk(p0, cli.deps(x), done, known);
      DepsFollow(p0, cli.deps(x), done, known);
      OrderFollows(PullDeps(p0, cli.deps(x), done, known), cli.order(x), done, known, v.todo);
    }
  }

  // ------------------------------------------------------------------ later objects of a done name

  /** Behind a task whose name is done there is no listed order dependency of it that is not done. */
  ghost predicate DupsOk(cli: Cli, ts: seq<Task>, done: set<Name>) {
    ts != [] ==>
      && DupsOk(cli, ts[1..], done)
      && (ts[0].name in done ==> forall d :: d in cli.order(ts[0].name) && d in Names(ts) ==> d in done)
  }

  lemma {:induction false} RemovedSub(ts: seq<Task>, u: Task)
    ensures Names(Removed(ts, u)) <= Names(ts)
  {
    if ts != [] {
      NamesOfTail(ts);
      if ts[0] != u {
        RemovedSub(ts[1..], u);
        NamesOfTail(Removed(ts, u));
        assert Removed(ts, u)[1..] == Removed(ts[1..], u);
      }
    }
  }

  lemma {:induction false} DupsRemoved(cli: Cli, ts: seq<Task>, u: Task, done: set<Name>)
    requires DupsOk(cli, ts, done)
    ensures DupsOk(cli, Removed(ts, u), done)
  {
    if ts != [] && ts[0] != u {
      DupsRemoved(cli, ts[1..], u, done);
      RemovedSub(ts, u);
      assert Removed(ts, u)[1..] == Removed(ts[1..], u);
    }
  }

  lemma DupsMove(cli: Cli, ts: seq<Task>, u: Task, done: set<Name>)
    requires u in ts && u.name !in done && DupsOk(cli, ts, done)
    ensures DupsOk(cli, MoveToFront(ts, u), done)
  {
    MoveIsRemoved(ts, u);
    DupsRemoved(cli, ts, u, done);
    assert ([u] + Removed(ts, u))[1..] == Removed(ts, u);
  }

  lemma {:induction false} DupsDone(cli: Cli, ts: seq<Task>, done: set<Name>, x: Name)
    requires DupsOk(cli, ts, done)
    requires forall d :: d in cli.order(x) && d in Names(ts) ==> d in done
    ensures DupsOk(cli, ts, done + {x})
  {
    if ts != [] {
      NamesOfTail(ts);
      DupsDone(cli, ts[1..], done, x);
    }
  }

  lemma {:induction false} DupsPullDeps(cli: Cli, p0: Pull, deps: seq<Name>, done: set<Name>, known: map<Name, Task>)
    requires p0.ready && KnownIs(known, p0.todo) && DupsOk(cli, p0.todo, done)
    ensures DupsOk(cli, PullDeps(p0, deps, done, known).todo, done)
  {
    if deps != [] {
      var rest, d := deps[..|deps| - 1], deps[|deps| - 1];
      DupsPullDeps(cli, p0, rest, done, known);
      PullDepsOk(p0, rest, done, known);
      var q := PullDeps(p0, rest, done, known);
      if d !in done {
        if d in known {
          DupsMove(cli, q.todo, known[d], done);
        } else {
          assert ([Task(d, q.next)] + q.todo)[1..] == q.todo;
        }
      }
    }
  }

  lemma {:induction false} DupsPullOrder(cli: Cli, p0: Pull, order: seq<Name>, done: set<Name>, known: map<Name, Task>)
    requires forall n :: n in known ==> known[n] in p0.todo && known[n].name == n
    requires DupsOk(cli, p0.todo, done)
    ensures DupsOk(cli, PullOrder(p0, order, done, known).todo, done)
  {
    if order != [] {
      var rest, d := order[..|order| - 1], order[|order| - 1];
      DupsPullOrder(cli, p0, rest, done, known);
      PullOrderOk(p0, rest, done, known);
      if d in known && d !in done { DupsMove(cli, PullOrder(p0, rest, done, known).todo, known[d], done); }
    }
  }

  lemma RoundDups(cli: Cli, w: Work)
    requires w.todo != [] && DupsOk(cli, w.todo, Names(w.run))
    ensures DupsOk(cli, Round(cli, w).todo, Names(Round(cli, w).run))
  {
    var done, known, x := Names(w.run), Dict(w.todo), w.todo[0].name;
    var p0 := Pull(w.todo, w.next, true);
    DictIs(w.todo);
    RoundCases(cli, w);
    if Pulled(cli, w).ready {
      NamesOfAppend(w.run, w.todo[0]);
      NamesOfTail(w.todo);
      if x !in done { DupsDone(cli, w.todo[1..], done, x); }
    } else {
      PullDepsOk(p0, cli.deps(x), done, known);
      DupsPullDeps(cli, p0, cli.deps(x), done, known);
      DupsPullOrder(cli, PullDeps(p0, cli.deps(x), done, known), cli.order(x), done, known);
    }
  }

  /** Dependencies of the tasks to run are among them. */
  lemma RoundClosed(cli: Cli, w: Work)
    requires w.todo != [] && Closed(cli, Names(w.run))
    ensures Closed(cli, Names(Round(cli, w).run))
  {
    RoundCases(cli, w);
    NamesOfAppend(w.run, w.todo[0]);
  }

  /** A task whose name is done is taken off the list; the machine over names stands still. */
  lemma RoundOfDone(cli: Cli, w: Work)
    requires w.todo != [] && w.todo[0].name in Names(w.run)
    requires DupsOk(cli, w.todo, Names(w.run)) && Closed(cli, Names(w.run))
    ensures Round(cli, w) == Work(w.todo[1..], w.run, w.next) && Abs(Round(cli, w)) == Abs(w)
  {
    RoundCases(cli, w);
  }

  // ------------------------------------------------------------------ the objects of one name

  /** The objects of a name, in the order of the list. */
  function Objects(ts: seq<Task>, b: Name): seq<Task> {
    if ts == [] then []
    else if ts[0].name == b then [ts[0]] + Objects(ts[1..], b)
    else Objects(ts[1..], b)
  }

  ghost predicate Distinct(ts: seq<Task>) { forall i, j :: 0 <= i < j < |ts| ==> ts[i] != ts[j] }

  function Last(s: seq<Task>): Task
    requires s != []
  {
    s[|s| - 1]
  }

  /** The last object comes to the front. */
  function Rotate(s: seq<Task>): (r: seq<Task>)
    ensures |r| == |s|
  {
    if s == [] then [] else [Last(s)] + s[..|s| - 1]
  }

  lemma {:induction false} ObjectsIn(ts: seq<Task>, b: Name, t: Task)
    ensures t in Objects(ts, b) <==> t in ts && t.name == b
  {
    if ts != [] {
      ObjectsIn(ts[1..], b, t);
      assert ts == [ts[0]] + ts[1..];
    }
  }

  lemma {:induction false} ObjectsAppend(ts: seq<Task>, t: Task, b: Name)
    ensures Objects(ts + [t], b) == if t.name == b then Objects(ts, b) + [t] else Objects(ts, b)
  {
    if ts == [] {
      assert ts + [t] == [t] && [t][1..] == ts;
    } else {
      assert (ts + [t])[1..] == ts[1..] + [t];
      ObjectsAppend(ts[1..], t, b);
    }
  }

  /** The dictionary of a round holds the last object. */
  lemma {:induction false} DictIsLast(ts: seq<Task>, b: Name)
    requires b in Names(ts)
    ensures Objects(ts, b) != [] && b in Dict(ts) && Dict(ts)[b] == Last(Objects(ts, b))
  {
    var n := |ts| - 1;
    assert ts == ts[..n] + [ts[n]];
    ObjectsAppend(ts[..n], ts[n], b);
    DictIs(ts);
    if ts[n].name != b {
      NamesOfAppend(ts[..n], ts[n]);
      DictIsLast(ts[..n], b);
    }
  }

  lemma {:induction false} ObjectsRemoved(ts: seq<Task>, u: Task, b: Name)
    ensures Objects(Removed(ts, u), b) == if u.name == b then Removed(Objects(ts, b), u) else Objects(ts, b)
  {
    if ts != [] && ts[0] != u {
      ObjectsRemoved(ts[1..], u, b);
      assert ([ts[0]] + Removed(ts[1..], u))[1..] == Removed(ts[1..], u);
      if ts[0].name == b { assert ([ts[0]] + Objects(ts[1..], b))[1..] == Objects(ts[1..], b); }
    } else if ts != [] {
      assert ([ts[0]] + Objects(ts[1..], b))[1..] == Objects(ts[1..], b);
    }
  }

  lemma ObjectsMove(ts: seq<Task>, u: Task, b: Name)
    requires u in ts
    ensures Objects(MoveToFront(ts, u), b)
            == if u.name == b then [u] + Removed(Objects(ts, b), u) else Objects(ts, b)
  {
    MoveIsRemoved(ts, u);
    ObjectsRemoved(ts, u, b);
    assert ([u] + Removed(ts, u))[1..] == Removed(ts, u);
  }

  lemma {:induction false} RemoveLast(s: seq<Task>)
    requires s != [] && Distinct(s)
    ensures Removed(s, Last(s)) == s[..|s| - 1]
  {
    if |s| > 1 {
      assert s[0] != s[|s| - 1] && Last(s[1..]) == Last(s);
      RemoveLast(s[1..]);
      assert [s[0]] + s[1..][..|s| - 2] == s[..|s| - 1];
    }
  }

  /** Moving the last object of `s` to the front rotates it; doing it again in one round does nothing. */
  lemma MoveRotates(ts: seq<Task>, s: seq<Task>, b: Name)
    requires s != [] && Distinct(s) && Last(s) in ts && Last(s).name == b
    ensures Objects(ts, b) == s ==> Objects(MoveToFront(ts, Last(s)), b) == Rotate(s)
    ensures Objects(ts, b) == Rotate(s) ==> Objects(MoveToFront(ts, Last(s)), b) == Rotate(s)
  {
    ObjectsMove(ts, Last(s), b);
    RemoveLast(s);
    assert Rotate(s)[1..] == s[..|s| - 1];
  }

  lemma {:induction false} ObjectsPullDeps(p0: Pull, deps: seq<Name>, done: set<Name>, known: map<Name, Task>, b: Name)
    requires p0.ready && KnownIs(known, p0.todo) && b in known && b !in done
    requires Distinct(Objects(p0.todo, b)) && Objects(p0.todo, b) != [] && known[b] == Last(Objects(p0.todo, b))
    ensures Objects(PullDeps(p0, deps, done, known).todo, b)
            == if b in deps then Rotate(Objects(p0.todo, b)) else Objects(p0.todo, b)
  {
    if deps != [] {
      var rest, d := deps[..|deps| - 1], deps[|deps| - 1];
      var s := Objects(p0.todo, b);
      ObjectsPullDeps(p0, rest, done, known, b);
      PullDepsOk(p0, rest, done, known);
      var q := PullDeps(p0, rest, done, known);
      assert deps == rest + [d];
      if d !in done {
        if d in known {
          ObjectsMove(q.todo, known[d], b);
          if d == b { MoveRotates(q.todo, s, b); }
        } else {
          assert ([Task(d, q.next)] + q.todo)[1..] == q.todo;
        }
      }
    }
  }

  lemma {:induction false} ObjectsPullOrder(p0: Pull, order: seq<Name>, done: set<Name>, known: map<Name, Task>, b: Name, s: seq<Task>)
    requires forall n :: n in known ==> known[n] in p0.todo && known[n].name == n
    requires b in known && b !in done && s != [] && Distinct(s) && known[b] == Last(s)
    requires Objects(p0.todo, b) == s || Objects(p0.todo, b) == Rotate(s)
    ensures Objects(PullOrder(p0, order, done, known).todo, b) == if b in order then Rotate(s) else Objects(p0.todo, b)
  {
    if order != [] {
      var rest, d := order[..|order| - 1], order[|order| - 1];
      ObjectsPullOrder(p0, rest, done, known, b, s);
      PullOrderOk(p0, rest, done, known);
      var q := PullOrder(p0, rest, done, known);
      assert order == rest + [d];
      if d in known && d !in done {
        ObjectsMove(q.todo, known[d], b);
        if d == b { MoveRotates(q.todo, s, b); }
      }
    }
  }

  /** A pull rotates the objects of a name; any other round leaves them as they are, until one runs. */
  lemma RoundRotates(cli: Cli, w: Work, b: Name)
    requires w.todo != [] && w.todo[0].name !in Names(w.run)
    requires b in Names(w.todo) && b !in Names(w.run) && Distinct(Objects(w.todo, b))
    ensures Abs(w).todo != []
    ensures Ready(cli, Abs(w)) && w.todo[0].name == b ==>
              Objects(w.todo, b) != [] && Round(cli, w).run == w.run + [Objects(w.todo, b)[0]] && !Misses(cli, Abs(w), b)
    ensures !(Ready(cli, Abs(w)) && w.todo[0].name == b) ==>
              && b in Names(Round(cli, w).todo) && b !in Names(Round(cli, w).run)
              && Objects(Round(cli, w).todo, b)
                 == if Misses(cli, Abs(w), b) then Rotate(Objects(w.todo, b)) else Objects(w.todo, b)
  {
    var done, known, x := Names(w.run), Dict(w.todo), w.todo[0].name;
    var p0, s, v := Pull(w.todo, w.next, true), Objects(w.todo, b), Abs(w);
    DictIs(w.todo);
    DictIsLast(w.todo, b);
    RoundCases(cli, w);
    RoundIsStep(cli, w);
    FreshIn(w.todo, done, b);
    if Ready(cli, v) {
      NamesOfTail(w.todo);
      NamesOfAppend(w.run, w.todo[0]);
    } else {
      var q := PullDeps(p0, cli.deps(x), done, known);
      PullDepsOk(p0, cli.deps(x), done, known);
      PullOrderOk(q, cli.order(x), done, known);
      ObjectsPullDeps(p0, cli.deps(x), done, known, b);
      ObjectsPullOrder(q, cli.order(x), done, known, b, s);
      assert known[b] in Pulled(cli, w).todo;
    }
  }

  function Rotated(s: seq<Task>, j: nat): (r: seq<Task>)
    ensures |r| == |s|
    decreases j
  {
    if j == 0 then s else Rotated(Rotate(s), j - 1)
  }

  lemma RotateDistinct(s: seq<Task>)
    requires Distinct(s)
    ensures Distinct(Rotate(s))
  {}

  lemma RotateAt(s: seq<Task>, i: int)
    requires s != []
    ensures Rotate(s)[i % |s|] == s[(i - 1) % |s|]
  {
    var k := |s|;
    var r, q := i % k, i / k;
    assert i == q * k + r;
    if r == 0 { assert i - 1 == (q - 1) * k + (k - 1) by { assert (q - 1) * k == q * k - k; } DivUnique(i - 1, q - 1, k - 1, k); }
    else { DivUnique(i - 1, q, r - 1, k); }
  }

  /** After `j` rotations the object in front is `j` places from the end, counted round. */
  lemma {:induction false} RotatedAt(s: seq<Task>, j: nat, i: int)
    requires s != []
    ensures Rotated(s, j)[i % |s|] == s[(i - j) % |s|]
    decreases j
  {
    if j > 0 {
      RotatedAt(Rotate(s), j - 1, i);
      RotateAt(s, i - (j - 1));
    }
  }

  // ------------------------------------------------------------------ which object runs

  /** The objects of `b` that are run when the list is empty. */
  function Chosen(cli: Cli, w: Work, n: nat, b: Name): seq<Task> { Objects(Rounds(cli, w, n).run, b) }

  lemma {:induction false} ChosenKept(cli: Cli, w: Work, n: nat, b: Name)
    requires b in Names(w.run)
    ensures Chosen(cli, w, n, b) == Objects(w.run, b)
    decreases n
  {
    if n > 0 && w.todo != [] {
      ObjectsAppend(w.run, w.todo[0], b);
      ChosenKept(cli, Round(cli, w), n - 1, b);
    }
  }

  lemma {:induction false} NoObjects(ts: seq<Task>, b: Name)
    requires b !in Names(ts)
    ensures Objects(ts, b) == []
  {
    if ts != [] {
      NamesOfTail(ts);
      NoObjects(ts[1..], b);
    }
  }

  lemma {:induction false} NoMorePulls(cli: Cli, v: Visit, b: Name, m: nat)
    requires b in v.done
    ensures Pulls(cli, v, b, m) == 0
    decreases m
  {
    if m > 0 && v.todo != [] { NoMorePulls(cli, Step(cli, v), b, m - 1); }
  }

  /** The round in which `b` runs. */
  lemma ChosenNow(cli: Cli, w: Work, n: nat, b: Name, t: Task, m: nat)
    requires w.todo != [] && n > 0 && b !in Names(w.run) && t.name == b && Round(cli, w).run == w.run + [t]
    requires Abs(w).todo != [] && !Misses(cli, Abs(w), b) && b in Step(cli, Abs(w)).done
    ensures Chosen(cli, w, n, b) == [t] && Pulls(cli, Abs(w), b, m) == 0
  {
    NoObjects(w.run, b);
    ObjectsAppend(w.run, t, b);
    NamesOfAppend(w.run, t);
    ChosenKept(cli, Round(cli, w), n - 1, b);
    if m > 0 { NoMorePulls(cli, Step(cli, Abs(w)), b, m - 1); }
  }

  /** The object that comes next for `b` when the machine over names makes `m` more steps. */
  function Due(cli: Cli, w: Work, b: Name, m: nat): seq<Task> {
    Rotated(Objects(w.todo, b), Pulls(cli, Abs(w), b, m))
  }

  ghost predicate Waits(cli: Cli, w: Work, b: Name) {
    && Closed(cli, Names(w.run)) && DupsOk(cli, w.todo, Names(w.run))
    && b in Names(w.todo) && b !in Names(w.run) && Distinct(Objects(w.todo, b))
  }

  lemma WaitsPastDone(cli: Cli, w: Work, b: Name, m: nat)
    requires w.todo != [] && Waits(cli, w, b) && w.todo[0].name in Names(w.run)
    ensures Waits(cli, Round(cli, w), b) && Abs(Round(cli, w)) == Abs(w)
    ensures Due(cli, Round(cli, w), b, m) == Due(cli, w, b, m)
  {
    RoundClosed(cli, w);
    RoundDups(cli, w);
    RoundOfDone(cli, w);
    NamesOfTail(w.todo);
  }

  lemma WaitsPastStep(cli: Cli, w: Work, b: Name, m: nat)
    requires w.todo != [] && Waits(cli, w, b) && w.todo[0].name !in Names(w.run) && m > 0
    requires w.todo[0].name != b || !Pulled(cli, w).ready
    ensures Waits(cli, Round(cli, w), b) && Abs(w).todo != [] && Abs(Round(cli, w)) == Step(cli, Abs(w))
    ensures Due(cli, Round(cli, w), b, m - 1) == Due(cli, w, b, m)
  {
    RoundClosed(cli, w);
    RoundDups(cli, w);
    RoundIsStep(cli, w);
    RoundRotates(cli, w, b);
    RotateDistinct(Objects(w.todo, b));
  }

  /** A round in which `b` does not run yet. */
  lemma WaitsOn(cli: Cli, w: Work, b: Name, m: nat) returns (k: nat)
    requires w.todo != [] && Waits(cli, w, b) && Steps(cli, Abs(w), m).todo == []
    requires w.todo[0].name != b || !Pulled(cli, w).ready
    ensures Waits(cli, Round(cli, w), b) && Steps(cli, Abs(Round(cli, w)), k).todo == []
    ensures Due(cli, Round(cli, w), b, k) == Due(cli, w, b, m)
  {
    if w.todo[0].name in Names(w.run) {
      WaitsPastDone(cli, w, b, m);
      k := m;
    } else {
      RoundIsStep(cli, w);
      WaitsPastStep(cli, w, b, m);
      k := m - 1;
    }
  }

  /** The round in which `b` runs. */
  lemma RunsNow(cli: Cli, w: Work, b: Name, n: nat, m: nat)
    requires w.todo != [] && Waits(cli, w, b) && n > 0
    requires w.todo[0].name == b && Pulled(cli, w).ready
    ensures Objects(w.todo, b) != [] && Due(cli, w, b, m) == Objects(w.todo, b)
    ensures Chosen(cli, w, n, b) == [Objects(w.todo, b)[0]]
  {
    RoundIsStep(cli, w);
    RoundRotates(cli, w, b);
    ChosenNow(cli, w, n, b, Objects(w.todo, b)[0], m);
  }

  lemma {:induction false} WhichRunsFrom(cli: Cli, w: Work, b: Name, n: nat, m: nat)
    requires Waits(cli, w, b)
    requires Rounds(cli, w, n).todo == [] && Steps(cli, Abs(w), m).todo == []
    ensures Due(cli, w, b, m) != [] && Chosen(cli, w, n, b) == [Due(cli, w, b, m)[0]]
    decreases n
  {
    assert w.todo != [] && n > 0;
    if w.todo[0].name == b && Pulled(cli, w).ready {
      RunsNow(cli, w, b, n, m);
    } else {
      var k := WaitsOn(cli, w, b, m);
      WhichRunsFrom(cli, Round(cli, w), b, n - 1, k);
    }
  }

  /** The names given, each at its first place. */
  function FirstNames(requested: seq<Task>): seq<Name> { Fresh(requested, {}) }

  lemma RotatedFront(s: seq<Task>, j: nat)
    requires s != []
    ensures Rotated(s, j)[0] == s[(0 - j) % |s|]
  {
    DivUnique(0, 0, 0, |s|);
    RotatedAt(s, j, 0);
  }

  lemma {:induction false} NothingDone(cli: Cli, ts: seq<Task>)
    ensures DupsOk(cli, ts, {})
  {
    if ts != [] { NothingDone(cli, ts[1..]); }
  }

  /** The machine over names for the given commands. */
  function Given(requested: seq<Task>): Visit { Visit(FirstNames(requested), {}) }

  lemma StartIsGiven(requested: seq<Task>)
    ensures Names(Start(requested).run) == {} && Abs(Start(requested)) == Given(requested)
  {}

  lemma {:induction false} MachineFollows(cli: Cli, w: Work, n: nat) returns (m: nat)
    requires DupsOk(cli, w.todo, Names(w.run)) && Closed(cli, Names(w.run)) && Rounds(cli, w, n).todo == []
    ensures Steps(cli, Abs(w), m).todo == []
    decreases n
  {
    if n == 0 || w.todo == [] {
      m := 0;
    } else {
      RoundClosed(cli, w);
      RoundDups(cli, w);
      if w.todo[0].name in Names(w.run) {
        RoundOfDone(cli, w);
        m := MachineFollows(cli, Round(cli, w), n - 1);
      } else {
        RoundIsStep(cli, w);
        m := MachineFollows(cli, Round(cli, w), n - 1);
        m := m + 1;
      }
    }
  }

  /** When the loop ends, so does the machine. */
  lemma MachineEnds(cli: Cli, requested: seq<Task>, n: nat) returns (m: nat)
    requires EndsAfter(cli, requested, n)
    ensures Steps(cli, Given(requested), m).todo == []
  {
    StartIsGiven(requested);
    NothingDone(cli, requested);
    m := MachineFollows(cli, Start(requested), n);
  }

  /** Which object of a requested name runs: with `k` objects and `j` pulls of the name, the one `j`
      places from the end, counted round; the first one without pulls.  The pulls depend only on the
      names given and on the commands. */
  lemma WhichRuns(cli: Cli, requested: seq<Task>, b: Name, n: nat, m: nat)
    requires EndsAfter(cli, requested, n) && Steps(cli, Given(requested), m).todo == []
    requires b in Names(requested) && Distinct(Objects(requested, b))
    ensures var s, j := Objects(requested, b), Pulls(cli, Given(requested), b, m);
            s != [] && Chosen(cli, Start(requested), n, b) == [s[(0 - j) % |s|]]
  {
    StartIsGiven(requested);
    NothingDone(cli, requested);
    WhichRunsFrom(cli, Start(requested), b, n, m);
    RotatedFront(Objects(requested, b), Pulls(cli, Given(requested), b, m));
  }
}
