/** How often a given command is pulled to the front of the worklist, told from the command list and
    the dependency graph alone. */
module TaskPulls {
  import opened Arithmetic
  import opened TaskOrder
  import opened TaskRepeats

  // ------------------------------------------------------------------ reaching a name

  /** `x` makes `y` run before it: a dependency, or an order-only dependency on a requested name. */
  predicate Edge(cli: Cli, req: set<Name>, x: Name, y: Name) {
    y in cli.deps(x) || (y in cli.order(x) && y in req)
  }

  predicate Path(cli: Cli, req: set<Name>, p: seq<Name>) {
    p != [] && forall i :: 0 <= i < |p| - 1 ==> Edge(cli, req, p[i], p[i + 1])
  }

  ghost predicate PathTo(cli: Cli, req: set<Name>, p: seq<Name>, x: Name, b: Name) {
    Path(cli, req, p) && |p| > 1 && p[0] == x && p[|p| - 1] == b
  }

  ghost predicate Reaches(cli: Cli, req: set<Name>, x: Name, b: Name) {
    exists p :: PathTo(cli, req, p, x, b)
  }

  /** `x` is `b` or makes it run before it. */
  ghost predicate Needs(cli: Cli, req: set<Name>, x: Name, b: Name) { x == b || Reaches(cli, req, x, b) }

  lemma ReachesEdge(cli: Cli, req: set<Name>, x: Name, c: Name, b: Name)
    requires Edge(cli, req, x, c) && Needs(cli, req, c, b)
    ensures Reaches(cli, req, x, b)
  {
    if c == b {
      assert PathTo(cli, req, [x, b], x, b);
    } else {
      var p :| PathTo(cli, req, p, c, b);
      assert PathTo(cli, req, [x] + p, x, b);
    }
  }

  lemma ReachesVia(cli: Cli, req: set<Name>, x: Name, b: Name) returns (c: Name)
    requires Reaches(cli, req, x, b)
    ensures Edge(cli, req, x, c) && Needs(cli, req, c, b)
  {
    var p :| PathTo(cli, req, p, x, b);
    c := p[1];
    if |p| > 2 {
      forall i | 0 <= i < |p[1..]| - 1 ensures Edge(cli, req, p[1..][i], p[1..][i + 1]) {
        assert Edge(cli, req, p[i + 1], p[i + 2]);
      }
      assert PathTo(cli, req, p[1..], c, b);
    }
  }

  ghost predicate EdgeClosed(cli: Cli, req: set<Name>, s: set<Name>) {
    forall x, y :: x in s && Edge(cli, req, x, y) ==> y in s
  }

  lemma {:induction false} ClosedPath(cli: Cli, req: set<Name>, s: set<Name>, p: seq<Name>)
    requires EdgeClosed(cli, req, s) && Path(cli, req, p) && p[0] in s
    ensures p[|p| - 1] in s
  {
    if |p| > 1 {
      assert Edge(cli, req, p[0], p[1]);
      forall i | 0 <= i < |p[1..]| - 1 ensures Edge(cli, req, p[1..][i], p[1..][i + 1]) {
        assert Edge(cli, req, p[i + 1], p[i + 2]);
      }
      ClosedPath(cli, req, s, p[1..]);
    }
  }

  lemma ClosedReach(cli: Cli, req: set<Name>, s: set<Name>, x: Name, b: Name)
    requires EdgeClosed(cli, req, s) && x in s && Needs(cli, req, x, b)
    ensures b in s
  {
    if x != b {
      var p :| PathTo(cli, req, p, x, b);
      ClosedPath(cli, req, s, p);
    }
  }

  // ------------------------------------------------------------------ names ahead of another

  /** The names in front of the first `b`. */
  function Ahead(ns: seq<Name>, b: Name): set<Name> {
    if ns == [] || ns[0] == b then {} else {ns[0]} + Ahead(ns[1..], b)
  }

  lemma {:induction false} AheadWithout(ns: seq<Name>, c: Name, b: Name)
    requires c != b
    ensures Ahead(Without(ns, c), b) == Ahead(ns, b) - {c} && (b in Without(ns, c) <==> b in ns)
  {
    WithoutIn(ns, c, b);
    if ns != [] {
      AheadWithout(ns[1..], c, b);
      if ns[0] != c { assert ([ns[0]] + Without(ns[1..], c))[1..] == Without(ns[1..], c); }
    }
  }

  lemma AheadFront(ns: seq<Name>, c: Name, b: Name)
    requires c != b
    ensures Ahead(Front(ns, c), b) == Ahead(ns, b) + {c} && (b in Front(ns, c) <==> b in ns)
  {
    AheadWithout(ns, c, b);
    assert ([c] + Without(ns, c))[1..] == Without(ns, c);
  }

  lemma {:induction false} AheadIn(ns: seq<Name>, b: Name, x: Name)
    ensures x in Ahead(ns, b) ==> x in ns && x != b
    ensures ns != [] && ns[0] != b ==> ns[0] in Ahead(ns, b)
  {
    if ns != [] { AheadIn(ns[1..], b, x); }
  }

  lemma FrontIn(ns: seq<Name>, c: Name, x: Name)
    ensures x in Front(ns, c) <==> x in ns || x == c
  {
    WithoutIn(ns, c, x);
  }

  /** What moving missing names to the front, none of them `b`, does to the names ahead of `b`. */
  lemma {:induction false} FrontDepsAhead(ns: seq<Name>, deps: seq<Name>, done: set<Name>, b: Name)
    requires b in deps ==> b in done
    ensures var r := FrontDeps(ns, deps, done);
            && (b in r <==> b in ns) && Ahead(ns, b) <= Ahead(r, b)
            && (forall x :: x in Ahead(r, b) ==> x in Ahead(ns, b) || (x in deps && x !in done))
            && (forall x :: x in r ==> x in ns || (x in deps && x !in done))
            && (forall x :: x in ns ==> x in r)
  {
    if deps != [] {
      var rest, d := deps[..|deps| - 1], deps[|deps| - 1];
      assert deps == rest + [d];
      FrontDepsAhead(ns, rest, done, b);
      var q := FrontDeps(ns, rest, done);
      if d !in done {
        AheadFront(q, d, b);
        forall x ensures x in Front(q, d) <==> x in q || x == d { FrontIn(q, d, x); }
      }
    }
  }

  lemma {:induction false} FrontListedAhead(ns: seq<Name>, order: seq<Name>, done: set<Name>, listed: seq<Name>, b: Name)
    requires b in order && b in listed ==> b in done
    ensures var r := FrontListed(ns, order, done, listed);
            && (b in r <==> b in ns) && Ahead(ns, b) <= Ahead(r, b)
            && (forall x :: x in Ahead(r, b) ==> x in Ahead(ns, b) || (x in order && x in listed && x !in done))
            && (forall x :: x in r ==> x in ns || (x in order && x in listed && x !in done))
            && (forall x :: x in ns ==> x in r)
  {
    if order != [] {
      var rest, d := order[..|order| - 1], order[|order| - 1];
      assert order == rest + [d];
      FrontListedAhead(ns, rest, done, listed, b);
      var q := FrontListed(ns, rest, done, listed);
      if d in listed && d !in done {
        AheadFront(q, d, b);
        forall x ensures x in Front(q, d) <==> x in q || x == d { FrontIn(q, d, x); }
      }
    }
  }

  /** A step that does not pull `b` and is not its own: names stay ahead of `b`, and a name new ahead
      of it, or new at all, was missed by the first name. */
  lemma StepAhead(cli: Cli, v: Visit, b: Name)
    requires v.todo != [] && !Misses(cli, v, b) && b in v.todo && b !in v.done && !Ready(cli, v)
    ensures var r := Step(cli, v).todo;
            && b in r && Ahead(v.todo, b) <= Ahead(r, b)
            && (forall x :: x in Ahead(r, b) ==> x in Ahead(v.todo, b) || Misses(cli, v, x))
            && (forall x :: x in r ==> x in v.todo || Misses(cli, v, x))
            && (forall x :: x in v.todo ==> x in r)
  {
    var x := v.todo[0];
    FrontDepsAhead(v.todo, cli.deps(x), v.done, b);
    FrontListedAhead(FrontDeps(v.todo, cli.deps(x), v.done), cli.order(x), v.done, v.todo, b);
  }

  // ------------------------------------------------------------------ pulled at all

  /** What every visit keeps: done names have their needs done, requested names are still there. */
  ghost predicate Sound(cli: Cli, req: set<Name>, v: Visit) {
    EdgeClosed(cli, req, v.done) && forall x :: x in req ==> x in v.todo || x in v.done
  }

  /** While `b` waits, a step that is not its own keeps it waiting. */
  lemma StepSound(cli: Cli, req: set<Name>, v: Visit, b: Name)
    requires v.todo != [] && Sound(cli, req, v)
    requires b in v.todo && b !in v.done && !Misses(cli, v, b) && !(Ready(cli, v) && v.todo[0] == b)
    ensures Sound(cli, req, Step(cli, v)) && b in Step(cli, v).todo && b !in Step(cli, v).done
  {
    if !Ready(cli, v) { StepAhead(cli, v, b); }
  }

  /** A name ahead of `b` that needs it will pull it. */
  lemma {:induction false} PulledFromAhead(cli: Cli, req: set<Name>, v: Visit, b: Name, r: Name, m: nat)
    requires Sound(cli, req, v) && b in v.todo && b !in v.done
    requires r in Ahead(v.todo, b) && Reaches(cli, req, r, b) && Steps(cli, v, m).todo == []
    ensures Pulls(cli, v, b, m) > 0
    decreases m
  {
    var x := v.todo[0];
    AheadIn(v.todo, b, r);
    if !Misses(cli, v, b) {
      StepSound(cli, req, v, b);
      if Ready(cli, v) && x == r {
        ClosedReach(cli, req, v.done + {x}, r, b);
      } else {
        if !Ready(cli, v) { StepAhead(cli, v, b); }
        PulledFromAhead(cli, req, Step(cli, v), b, r, m - 1);
      }
    }
  }

  /** Neither a name ahead of `b` nor one that was not requested needs `b`. */
  ghost predicate Unneeded(cli: Cli, req: set<Name>, ns: seq<Name>, b: Name) {
    forall y :: y in ns && (y in Ahead(ns, b) || y !in req) ==> !Reaches(cli, req, y, b)
  }

  lemma UnneededStep(cli: Cli, req: set<Name>, v: Visit, b: Name)
    requires v.todo != [] && b in req && b in v.todo && b !in v.done
    requires !Reaches(cli, req, b, b) && Unneeded(cli, req, v.todo, b)
    ensures !Misses(cli, v, b)
    ensures !Ready(cli, v) || v.todo[0] != b ==> Unneeded(cli, req, Step(cli, v).todo, b)
  {
    var x := v.todo[0];
    AheadIn(v.todo, b, x);
    if Misses(cli, v, b) { ReachesEdge(cli, req, x, b, b); }
    if !Ready(cli, v) {
      StepAhead(cli, v, b);
      forall y | y in Step(cli, v).todo && (y in Ahead(Step(cli, v).todo, b) || y !in req) ensures !Reaches(cli, req, y, b) {
        if Reaches(cli, req, y, b) && Edge(cli, req, x, y) { ReachesEdge(cli, req, x, y, b); }
      }
    }
  }

  lemma {:induction false} NotPulled(cli: Cli, req: set<Name>, v: Visit, b: Name, m: nat)
    requires Sound(cli, req, v) && b in req && b in v.todo && b !in v.done
    requires !Reaches(cli, req, b, b) && Unneeded(cli, req, v.todo, b)
    ensures Pulls(cli, v, b, m) == 0
    decreases m
  {
    UnneededStep(cli, req, v, b);
    if m > 0 {
      if Ready(cli, v) && v.todo[0] == b {
        NoMorePulls(cli, Step(cli, v), b, m - 1);
      } else {
        StepSound(cli, req, v, b);
        NotPulled(cli, req, Step(cli, v), b, m - 1);
      }
    }
  }

  // ------------------------------------------------------------------ no cycles

  lemma {:induction false} RankFalls(cli: Cli, names: set<Name>, rank: Name -> nat, req: set<Name>, p: seq<Name>)
    requires Acyclic(cli, names, rank, req) && req <= names && Path(cli, req, p) && p[0] in names
    ensures p[|p| - 1] in names && rank(p[|p| - 1]) <= rank(p[0]) && (|p| > 1 ==> rank(p[|p| - 1]) < rank(p[0]))
  {
    if |p| > 1 {
      assert Edge(cli, req, p[0], p[1]);
      forall i | 0 <= i < |p[1..]| - 1 ensures Edge(cli, req, p[1..][i], p[1..][i + 1]) {
        assert Edge(cli, req, p[i + 1], p[i + 2]);
      }
      RankFalls(cli, names, rank, req, p[1..]);
    }
  }

  /** When the loop ends, the names it runs have a rank. */
  lemma EndsRanked(cli: Cli, requested: seq<Task>, n: nat) returns (names: set<Name>, rank: Name -> nat)
    requires EndsAfter(cli, requested, n)
    ensures Names(requested) <= names && Acyclic(cli, names, rank, Names(requested))
  {
    var w := Rounds(cli, Start(requested), n);
    RoundsCovered(cli, requested, n);
    RunIsClosure(cli, w, requested);
    names := Names(w.run);
    rank := OrderedIsAcyclic(cli, w.run, Names(requested));
  }

  lemma NoSelfReach(cli: Cli, requested: seq<Task>, n: nat, b: Name)
    requires EndsAfter(cli, requested, n) && b in Names(requested)
    ensures !Reaches(cli, Names(requested), b, b)
  {
    var names, rank := EndsRanked(cli, requested, n);
    if p :| PathTo(cli, Names(requested), p, b, b) { RankFalls(cli, names, rank, Names(requested), p); }
  }

  lemma GivenSound(cli: Cli, requested: seq<Task>, b: Name)
    requires b in Names(requested)
    ensures Sound(cli, Names(requested), Given(requested)) && b in Given(requested).todo
    ensures forall y :: y in Given(requested).todo <==> y in Names(requested)
  {
    forall y ensures y in Given(requested).todo <==> y in Names(requested) { FreshIn(requested, {}, y); }
  }

  /** A requested name is never pulled, and so its first object runs, exactly when no name requested
      before it needs it. */
  lemma ZeroPullsIff(cli: Cli, requested: seq<Task>, b: Name, n: nat, m: nat)
    requires EndsAfter(cli, requested, n) && Steps(cli, Given(requested), m).todo == []
    requires b in Names(requested)
    ensures Pulls(cli, Given(requested), b, m) == 0
            <==> forall r :: r in Ahead(FirstNames(requested), b) ==> !Reaches(cli, Names(requested), r, b)
  {
    var v, req := Given(requested), Names(requested);
    GivenSound(cli, requested, b);
    NoSelfReach(cli, requested, n, b);
    if r :| r in Ahead(v.todo, b) && Reaches(cli, req, r, b) {
      PulledFromAhead(cli, req, v, b, r, m);
    } else {
      NotPulled(cli, req, v, b, m);
    }
  }

  // ------------------------------------------------------------------ the number of pulls

  /** The names that are `b` or need it. */
  ghost function Needing(cli: Cli, req: set<Name>, b: Name): iset<Name> { iset x | Needs(cli, req, x, b) }

  /** The first of `ns` that is in `s`, if any. */
  ghost function FirstIn(ns: seq<Name>, s: iset<Name>): seq<Name> {
    if ns == [] then [] else if ns[0] in s then [ns[0]] else FirstIn(ns[1..], s)
  }

  ghost function LastIn(ns: seq<Name>, s: iset<Name>): seq<Name> {
    if ns == [] then [] else if ns[|ns| - 1] in s then [ns[|ns| - 1]] else LastIn(ns[..|ns| - 1], s)
  }

  /** Of the names that `x` makes run before it, dependencies first, the last that needs `b`. */
  ghost function LastChild(cli: Cli, req: set<Name>, x: Name, b: Name): seq<Name> {
    var o := LastIn(cli.order(x), Needing(cli, req, b) * iset d | d in req);
    if o != [] then o else LastIn(cli.deps(x), Needing(cli, req, b))
  }

  /** From a name that needs `b` down to `b`, each time through the last child that needs it. */
  ghost predicate Trail(cli: Cli, req: set<Name>, p: seq<Name>, b: Name) {
    && p != []
    && if p[0] == b then |p| == 1 else |p| > 1 && LastChild(cli, req, p[0], b) == [p[1]] && Trail(cli, req, p[1..], b)
  }

  /** The names on the trail that make `b` itself run before them. */
  function Parents(cli: Cli, req: set<Name>, p: seq<Name>, b: Name): nat {
    if |p| <= 1 then 0 else (if Edge(cli, req, p[0], b) then 1 else 0) + Parents(cli, req, p[1..], b)
  }

  lemma {:induction false} FirstWithout(ns: seq<Name>, c: Name, s: iset<Name>)
    requires c !in s
    ensures FirstIn(Without(ns, c), s) == FirstIn(ns, s)
  {
    if ns != [] {
      FirstWithout(ns[1..], c, s);
      assert ([ns[0]] + Without(ns[1..], c))[1..] == Without(ns[1..], c);
    }
  }

  lemma FirstFront(ns: seq<Name>, c: Name, s: iset<Name>)
    ensures FirstIn(Front(ns, c), s) == if c in s then [c] else FirstIn(ns, s)
  {
    if c !in s { FirstWithout(ns, c, s); }
    assert Front(ns, c)[1..] == Without(ns, c);
  }

  lemma {:induction false} FirstFrontDeps(ns: seq<Name>, deps: seq<Name>, done: set<Name>, s: iset<Name>)
    requires forall d :: d in done ==> d !in s
    ensures FirstIn(FrontDeps(ns, deps, done), s) == if LastIn(deps, s) != [] then LastIn(deps, s) else FirstIn(ns, s)
  {
    if deps != [] {
      var rest, d := deps[..|deps| - 1], deps[|deps| - 1];
      FirstFrontDeps(ns, rest, done, s);
      FirstFront(FrontDeps(ns, rest, done), d, s);
    }
  }

  /** `s` and `s0` agree on the order-only dependencies that can be pulled. */
  lemma {:induction false} FirstFrontListed(ns: seq<Name>, order: seq<Name>, done: set<Name>, listed: seq<Name>,
                                            s: iset<Name>, s0: iset<Name>)
    requires forall d :: d in done ==> d !in s
    requires s0 <= s && forall d :: d in order && d in s ==> (d in listed <==> d in s0)
    ensures FirstIn(FrontListed(ns, order, done, listed), s)
            == if LastIn(order, s0) != [] then LastIn(order, s0) else FirstIn(ns, s)
  {
    if order != [] {
      var rest, d := order[..|order| - 1], order[|order| - 1];
      assert order == rest + [d];
      FirstFrontListed(ns, rest, done, listed, s, s0);
      FirstFront(FrontListed(ns, rest, done, listed), d, s);
    }
  }

  lemma {:induction false} LastInIs(ns: seq<Name>, s: iset<Name>)
    ensures LastIn(ns, s) == [] <==> forall d :: d in ns ==> d !in s
    ensures forall d :: d in LastIn(ns, s) ==> d in ns && d in s
    ensures |LastIn(ns, s)| <= 1
  {
    if ns != [] {
      assert ns == ns[..|ns| - 1] + [ns[|ns| - 1]];
      LastInIs(ns[..|ns| - 1], s);
    }
  }

  lemma {:induction false} FirstInIs(ns: seq<Name>, s: iset<Name>)
    ensures FirstIn(ns, s) == [] <==> forall d :: d in ns ==> d !in s
    ensures forall d :: d in FirstIn(ns, s) ==> d in ns && d in s
    ensures |FirstIn(ns, s)| <= 1
  {
    if ns != [] { FirstInIs(ns[1..], s); }
  }

  /** The last child that needs `b` is a child that needs it, and there is one iff the name reaches `b`. */
  lemma LastChildIs(cli: Cli, req: set<Name>, x: Name, b: Name)
    ensures LastChild(cli, req, x, b) == [] <==> !Reaches(cli, req, x, b)
    ensures forall c :: c in LastChild(cli, req, x, b) ==> Edge(cli, req, x, c) && Needs(cli, req, c, b)
    ensures |LastChild(cli, req, x, b)| <= 1
  {
    LastInIs(cli.order(x), Needing(cli, req, b) * iset d | d in req);
    LastInIs(cli.deps(x), Needing(cli, req, b));
    if Reaches(cli, req, x, b) { var c := ReachesVia(cli, req, x, b); }
    var o := LastChild(cli, req, x, b);
    if o != [] {
      assert o[0] in o;
      ReachesEdge(cli, req, x, o[0], b);
    }
  }

  /** Inside `names`, an order-only dependency that needs `b` was requested. */
  ghost predicate OrderGiven(cli: Cli, req: set<Name>, names: set<Name>, b: Name) {
    forall x, d :: x in names && d in names && d in cli.order(x) && Needs(cli, req, d, b) ==> d in req
  }

  ghost predicate Within(v: Visit, names: set<Name>) { forall x :: x in v.todo ==> x in names }

  /** A step that is not ready: the first name that needs `b` becomes the last child of the head that
      needs it, or stays when no child does. */
  lemma StepFirst(cli: Cli, req: set<Name>, names: set<Name>, v: Visit, b: Name)
    requires v.todo != [] && !Ready(cli, v) && Sound(cli, req, v) && b !in v.done
    requires Within(v, names) && OrderGiven(cli, req, names, b)
    ensures var c := LastChild(cli, req, v.todo[0], b);
            FirstIn(Step(cli, v).todo, Needing(cli, req, b)) == if c != [] then c else FirstIn(v.todo, Needing(cli, req, b))
  {
    var x, s := v.todo[0], Needing(cli, req, b);
    var s0 := s * iset d | d in req;
    forall d | d in v.done ensures d !in s {
      if d in s { ClosedReach(cli, req, v.done, d, b); }
    }
    FirstFrontDeps(v.todo, cli.deps(x), v.done, s);
    FirstFrontListed(FrontDeps(v.todo, cli.deps(x), v.done), cli.order(x), v.done, v.todo, s, s0);
  }

  lemma StepWithin(cli: Cli, names: set<Name>, v: Visit)
    requires v.todo != [] && Within(v, names) && Closed(cli, names)
    ensures Within(Step(cli, v), names)
  {
    if !Ready(cli, v) {
      var x := v.todo[0];
      FrontDepsIn(v.todo, cli.deps(x), v.done);
      FrontListedIn(FrontDeps(v.todo, cli.deps(x), v.done), cli.order(x), v.done, v.todo);
    }
  }

  lemma {:induction false} FrontDepsIn(ns: seq<Name>, deps: seq<Name>, done: set<Name>)
    ensures forall x :: x in FrontDeps(ns, deps, done) ==> x in ns || x in deps
    ensures forall x :: x in ns ==> x in FrontDeps(ns, deps, done)
  {
    if deps != [] {
      var rest, d := deps[..|deps| - 1], deps[|deps| - 1];
      FrontDepsIn(ns, rest, done);
      forall x ensures x in Front(FrontDeps(ns, rest, done), d) <==> x in FrontDeps(ns, rest, done) || x == d {
        FrontIn(FrontDeps(ns, rest, done), d, x);
      }
    }
  }

  lemma {:induction false} FrontListedIn(ns: seq<Name>, order: seq<Name>, done: set<Name>, listed: seq<Name>)
    ensures forall x :: x in FrontListed(ns, order, done, listed) ==> x in ns || x in listed
    ensures forall x :: x in ns ==> x in FrontListed(ns, order, done, listed)
  {
    if order != [] {
      var rest, d := order[..|order| - 1], order[|order| - 1];
      FrontListedIn(ns, rest, done, listed);
      forall x ensures x in Front(FrontListed(ns, rest, done, listed), d) <==> x in FrontListed(ns, rest, done, listed) || x == d {
        FrontIn(FrontListed(ns, rest, done, listed), d, x);
      }
    }
  }

  /** `p` is the trail of the first name still to visit that needs `b`. */
  ghost predicate OnTrail(cli: Cli, req: set<Name>, names: set<Name>, v: Visit, b: Name, p: seq<Name>) {
    && Sound(cli, req, v) && Within(v, names) && b in req && b in v.todo && b !in v.done
    && Trail(cli, req, p, b) && FirstIn(v.todo, Needing(cli, req, b)) == [p[0]]
  }

  /** The head of the list misses `b` exactly when it is the first name of the trail and a parent of `b`. */
  lemma HeadMisses(cli: Cli, req: set<Name>, names: set<Name>, v: Visit, b: Name, p: seq<Name>)
    requires v.todo != [] && OnTrail(cli, req, names, v, b, p)
    ensures Misses(cli, v, b) <==> v.todo[0] == p[0] && Edge(cli, req, p[0], b)
  {
    var x := v.todo[0];
    if Misses(cli, v, b) { ReachesEdge(cli, req, x, b, b); }
  }

  /** The head is the first name of the trail, and not `b`: the trail moves on by one. */
  lemma TrailMoves(cli: Cli, req: set<Name>, names: set<Name>, v: Visit, b: Name, p: seq<Name>)
    requires v.todo != [] && OnTrail(cli, req, names, v, b, p) && v.todo[0] == p[0] && p[0] != b
    requires Closed(cli, names) && OrderGiven(cli, req, names, b)
    ensures OnTrail(cli, req, names, Step(cli, v), b, p[1..])
  {
    var x := p[0];
    LastChildIs(cli, req, x, b);
    if Ready(cli, v) { ClosedReach(cli, req, v.done + {x}, x, b); }
    StepFirst(cli, req, names, v, b);
    StepWithin(cli, names, v);
    StepKeeps(cli, v);
  }

  lemma StepKeeps(cli: Cli, v: Visit)
    requires v.todo != []
    ensures forall x :: x in v.todo && x !in Step(cli, v).todo ==> x in Step(cli, v).done
    ensures v.done <= Step(cli, v).done && (!Ready(cli, v) ==> Step(cli, v).done == v.done)
  {
    if !Ready(cli, v) {
      var x := v.todo[0];
      FrontDepsIn(v.todo, cli.deps(x), v.done);
      FrontListedIn(FrontDeps(v.todo, cli.deps(x), v.done), cli.order(x), v.done, v.todo);
    }
  }

  /** Any other step that is not the one in which `b` is done leaves the trail as it is. */
  lemma TrailStays(cli: Cli, req: set<Name>, names: set<Name>, v: Visit, b: Name, p: seq<Name>)
    requires v.todo != [] && OnTrail(cli, req, names, v, b, p) && (v.todo[0] == p[0] ==> p[0] == b && !Ready(cli, v))
    requires Closed(cli, names) && OrderGiven(cli, req, names, b) && !Reaches(cli, req, b, b)
    ensures OnTrail(cli, req, names, Step(cli, v), b, p)
  {
    var x := v.todo[0];
    LastChildIs(cli, req, x, b);
    HeadMisses(cli, req, names, v, b, p);
    if Edge(cli, req, b, b) { ReachesEdge(cli, req, b, b, b); }
    StepSound(cli, req, v, b);
    StepWithin(cli, names, v);
    if !Ready(cli, v) { StepFirst(cli, req, names, v, b); }
  }

  /** The pulls of `b` are the parents of `b` on the trail. */
  lemma {:induction false} PullsOfTrail(cli: Cli, req: set<Name>, names: set<Name>, v: Visit, b: Name, p: seq<Name>, m: nat)
    requires OnTrail(cli, req, names, v, b, p) && Steps(cli, v, m).todo == []
    requires Closed(cli, names) && OrderGiven(cli, req, names, b) && !Reaches(cli, req, b, b)
    ensures Pulls(cli, v, b, m) == Parents(cli, req, p, b)
    decreases m
  {
    HeadMisses(cli, req, names, v, b, p);
    if Edge(cli, req, b, b) { ReachesEdge(cli, req, b, b, b); }
    if v.todo[0] == p[0] && p[0] == b && Ready(cli, v) {
      NoMorePulls(cli, Step(cli, v), b, m - 1);
    } else if v.todo[0] == p[0] && p[0] != b {
      TrailMoves(cli, req, names, v, b, p);
      PullsOfTrail(cli, req, names, Step(cli, v), b, p[1..], m - 1);
    } else {
      TrailStays(cli, req, names, v, b, p);
      PullsOfTrail(cli, req, names, Step(cli, v), b, p, m - 1);
    }
  }

  /** Without cycles every name that needs `b` has a trail. */
  lemma {:induction false} TrailFrom(cli: Cli, req: set<Name>, names: set<Name>, rank: Name -> nat, x: Name, b: Name)
      returns (p: seq<Name>)
    requires Acyclic(cli, names, rank, req) && req <= names && x in names && Needs(cli, req, x, b)
    ensures Trail(cli, req, p, b) && p[0] == x
    decreases rank(x)
  {
    if x == b {
      p := [b];
    } else {
      LastChildIs(cli, req, x, b);
      var c := LastChild(cli, req, x, b)[0];
      assert c in LastChild(cli, req, x, b);
      var q := TrailFrom(cli, req, names, rank, c, b);
      p := [x] + q;
      assert p[1..] == q;
    }
  }

  /** `p` is the trail to `b` of the first requested name that needs it. */
  ghost predicate FirstTrail(cli: Cli, requested: seq<Task>, b: Name, p: seq<Name>) {
    var req := Names(requested);
    Trail(cli, req, p, b) && FirstIn(FirstNames(requested), Needing(cli, req, b)) == [p[0]]
  }

  /** When the loop ends, a requested name has one. */
  lemma FirstTrailExists(cli: Cli, requested: seq<Task>, b: Name, n: nat) returns (p: seq<Name>)
    requires EndsAfter(cli, requested, n) && b in Names(requested)
    ensures FirstTrail(cli, requested, b, p)
  {
    var req, ns, s := Names(requested), FirstNames(requested), Needing(cli, Names(requested), b);
    var names, rank := EndsRanked(cli, requested, n);
    GivenSound(cli, requested, b);
    FirstInIs(ns, s);
    assert b in ns && b in s;
    var x := FirstIn(ns, s)[0];
    assert x in FirstIn(ns, s);
    p := TrailFrom(cli, req, names, rank, x, b);
  }

  /** How often a requested name is pulled: as often as it has parents on the trail that leads to it
      from the first requested name that needs it. */
  lemma PullsAreParents(cli: Cli, requested: seq<Task>, b: Name, n: nat, m: nat, names: set<Name>, p: seq<Name>)
    requires EndsAfter(cli, requested, n) && Steps(cli, Given(requested), m).todo == []
    requires b in Names(requested) && FirstTrail(cli, requested, b, p)
    requires Closed(cli, names) && Names(requested) <= names && OrderGiven(cli, Names(requested), names, b)
    ensures Pulls(cli, Given(requested), b, m) == Parents(cli, Names(requested), p, b)
  {
    GivenSound(cli, requested, b);
    NoSelfReach(cli, requested, n, b);
    PullsOfTrail(cli, Names(requested), names, Given(requested), b, p, m);
  }

  /** Which object of a repeated name runs, from the command list and the graph alone. */
  lemma RepeatedNameRuns(cli: Cli, requested: seq<Task>, b: Name, n: nat, names: set<Name>, p: seq<Name>)
    requires EndsAfter(cli, requested, n) && b in Names(requested) && Distinct(Objects(requested, b))
    requires FirstTrail(cli, requested, b, p)
    requires Closed(cli, names) && Names(requested) <= names && OrderGiven(cli, Names(requested), names, b)
    ensures var s, j := Objects(requested, b), Parents(cli, Names(requested), p, b);
            s != [] && Chosen(cli, Start(requested), n, b) == [s[(0 - j) % |s|]]
  {
    var m := MachineEnds(cli, requested, n);
    PullsAreParents(cli, requested, b, n, m, names, p);
    WhichRuns(cli, requested, b, n, m);
  }

  /** The first object of a repeated name runs when no name requested before it needs it. */
  lemma UnneededRunsFirst(cli: Cli, requested: seq<Task>, b: Name, n: nat)
    requires EndsAfter(cli, requested, n) && b in Names(requested) && Distinct(Objects(requested, b))
    requires forall r :: r in Ahead(FirstNames(requested), b) ==> !Reaches(cli, Names(requested), r, b)
    ensures Objects(requested, b) != [] && Chosen(cli, Start(requested), n, b) == [Objects(requested, b)[0]]
  {
    var m := MachineEnds(cli, requested, n);
    ZeroPullsIff(cli, requested, b, n, m);
    WhichRuns(cli, requested, b, n, m);
    var k := |Objects(requested, b)|;
    DivUnique(0, 0, 0, k);
  }

  /** Of two or more objects of a name the first runs iff the parents on the trail are a multiple of
      their number, and the last iff they are one more than a multiple. */
  lemma FirstOrLastRunsIff(cli: Cli, requested: seq<Task>, b: Name, n: nat, names: set<Name>, p: seq<Name>)
    requires EndsAfter(cli, requested, n) && b in Names(requested) && Distinct(Objects(requested, b))
    requires FirstTrail(cli, requested, b, p) && |Objects(requested, b)| > 1
    requires Closed(cli, names) && Names(requested) <= names && OrderGiven(cli, Names(requested), names, b)
    ensures var s, j, run := Objects(requested, b), Parents(cli, Names(requested), p, b), Chosen(cli, Start(requested), n, b);
            (run == [s[0]] <==> j % |s| == 0) && (run == [s[|s| - 1]] <==> j % |s| == 1)
  {
    RepeatedNameRuns(cli, requested, b, n, names, p);
    var s, j := Objects(requested, b), Parents(cli, Names(requested), p, b);
    BackRound(j, |s|);
    var i := (0 - j) % |s|;
    assert forall x, y :: 0 <= x < y < |s| ==> s[x] != s[y];
    assert [s[i]] == [s[0]] <==> i == 0 by { assert [s[i]] == [s[0]] ==> s[i] == s[0]; }
    assert [s[i]] == [s[|s| - 1]] <==> i == |s| - 1 by { assert [s[i]] == [s[|s| - 1]] ==> s[i] == s[|s| - 1]; }
  }

  lemma BackRound(j: nat, k: nat)
    requires k > 1
    ensures 0 <= (0 - j) % k < k
    ensures ((0 - j) % k == 0 <==> j % k == 0) && ((0 - j) % k == k - 1 <==> j % k == 1)
  {
    var q, r := j / k, j % k;
    assert j == q * k + r;
    if r == 0 {
      assert (0 - q) * k == 0 - q * k;
      DivUnique(0 - j, 0 - q, 0, k);
    } else {
      assert (0 - q - 1) * k == 0 - q * k - k;
      DivUnique(0 - j, 0 - q - 1, k - r, k);
    }
  }

  // ------------------------------------------------------------------ two command lines

  lemma RoundPops(cli: Cli, w: Work)
    requires w.todo != [] && cli.order(w.todo[0].name) == [] && forall d :: d in cli.deps(w.todo[0].name) ==> d in Names(w.run)
    ensures Round(cli, w) == Work(w.todo[1..], if w.todo[0].name in Names(w.run) then w.run else w.run + [w.todo[0]], w.next)
  {
    RoundCases(cli, w);
  }

  /** The dictionary holds the object at the end of the list, which goes to the front. */
  lemma PullsLast(ts: seq<Task>, t: Task)
    requires t !in ts
    ensures t.name in Dict(ts + [t]) && Dict(ts + [t])[t.name] == t && MoveToFront(ts + [t], t) == [t] + ts
  {
    var all := ts + [t];
    assert all[..|all| - 1] == ts && all[|all| - 1] == t;
    var i := IndexOf(all, t);
    assert forall j :: 0 <= j < |ts| ==> all[j] == ts[j] && ts[j] in ts;
    assert all[..i] + all[i + 1..] == ts;
  }

  lemma RoundPullsOne(cli: Cli, ts: seq<Task>, t: Task, run: seq<Task>, id: nat)
    requires ts != [] && t !in ts && t.name !in Names(run)
    requires cli.deps(ts[0].name) == [t.name] && cli.order(ts[0].name) == []
    ensures Round(cli, Work(ts + [t], run, id)) == Work([t] + ts, run, id)
  {
    PullsLast(ts, t);
    var w := Work(ts + [t], run, id);
    var known, p0, deps := Dict(w.todo), Pull(w.todo, id, true), [t.name];
    assert deps[..|deps| - 1] == [] && w.todo[0] == ts[0];
    assert PullDeps(p0, deps, Names(run), known) == PullDep(p0, t.name, Names(run), known);
  }

  lemma RoundPullsTwo(cli: Cli, ts: seq<Task>, t: Task, c: Name, run: seq<Task>, id: nat)
    requires ts != [] && t !in ts && t.name !in Names(run) && c !in Names(run) && c !in Names(ts + [t])
    requires cli.deps(ts[0].name) == [t.name, c] && cli.order(ts[0].name) == []
    ensures Round(cli, Work(ts + [t], run, id)) == Work([Task(c, id), t] + ts, run, id + 1)
  {
    PullsLast(ts, t);
    DictIs(ts + [t]);
    var w := Work(ts + [t], run, id);
    var known, p0, one, two := Dict(w.todo), Pull(w.todo, id, true), [t.name], [t.name, c];
    assert two[..|two| - 1] == one && one[..|one| - 1] == [] && w.todo[0] == ts[0];
    assert PullDeps(p0, one, Names(run), known) == PullDep(p0, t.name, Names(run), known);
    assert PullDeps(p0, two, Names(run), known) == PullDep(PullDeps(p0, one, Names(run), known), c, Names(run), known);
    assert [Task(c, id)] + ([t] + ts) == [Task(c, id), t] + ts;
  }

  /** The rest of a run in front of which a task is popped, or pulled. */
  lemma PopNext(cli: Cli, t: Task, rest: seq<Task>, run: seq<Task>, id: nat, n: nat, end: Work) returns (k: nat)
    requires cli.order(t.name) == [] && forall d :: d in cli.deps(t.name) ==> d in Names(run)
    requires Rounds(cli, Work(rest, if t.name in Names(run) then run else run + [t], id), n) == end
    ensures Rounds(cli, Work([t] + rest, run, id), k) == end
  {
    assert ([t] + rest)[1..] == rest;
    RoundPops(cli, Work([t] + rest, run, id));
    k := n + 1;
  }

  lemma PullNext(cli: Cli, w: Work, n: nat, end: Work) returns (k: nat)
    requires w.todo != [] && Rounds(cli, Round(cli, w), n) == end
    ensures Rounds(cli, w, k) == end
  {
    k := n + 1;
  }

  /** The command line `a b b` where `a` depends on `b`: the second `b` runs, not the first. */
  lemma SecondRuns(cli: Cli, a: Name, b: Name) returns (n: nat)
    requires a != b && cli.deps(a) == [b] && cli.deps(b) == [] && cli.order(a) == [] && cli.order(b) == []
    ensures Rounds(cli, Start([Task(a, 0), Task(b, 1), Task(b, 2)]), n) == Work([], [Task(b, 2), Task(a, 0)], 3)
  {
    var x, y, z := Task(a, 0), Task(b, 1), Task(b, 2);
    n :| 0 <= n;   // the list is empty from here on
    assert [z] + [x] == [z, x] && [] + [z] == [z] && [y] + [] == [y] && [x] + [y] == [x, y];
    n := PopNext(cli, y, [], [z, x], 3, n, Work([], [z, x], 3));
    n := PopNext(cli, x, [y], [z], 3, n, Work([], [z, x], 3));
    n := PopNext(cli, z, [x, y], [], 3, n, Work([], [z, x], 3));
    RoundPullsOne(cli, [x, y], z, [], 3);
    n := PullNext(cli, Work([x, y] + [z], [], 3), n, Work([], [z, x], 3));
    assert [x, y] + [z] == [x, y, z];
  }

  lemma FirstRunsNext(cli: Cli, x: Task, y: Task, z: Task, u: Task) returns (n: nat)
    requires y.name != u.name && x.name != y.name && x.name != u.name && z.name == y.name
    requires cli.order(x.name) == [] && cli.order(y.name) == [] && cli.order(u.name) == []
    requires cli.deps(y.name) == [] && cli.deps(u.name) == [y.name] && cli.deps(x.name) == [y.name, u.name]
    ensures Rounds(cli, Work([y, u, z, x], [], 4), n) == Work([], [y, u, x], 4)
  {
    n :| 0 <= n;
    assert [y, u] + [x] == [y, u, x] && [y] + [u] == [y, u] && [] + [y] == [y];
    assert [x] + [] == [x] && [z] + [x] == [z, x] && [u] + [z, x] == [u, z, x];
    n := PopNext(cli, x, [], [y, u], 4, n, Work([], [y, u, x], 4));
    n := PopNext(cli, z, [x], [y, u], 4, n, Work([], [y, u, x], 4));
    n := PopNext(cli, u, [z, x], [y], 4, n, Work([], [y, u, x], 4));
    n := PopNext(cli, y, [u, z, x], [], 4, n, Work([], [y, u, x], 4));
    assert [y] + [u, z, x] == [y, u, z, x];
  }

  lemma FirstTwoPulls(cli: Cli, x: Task, y: Task, z: Task, u: Task)
    requires y.name != u.name && x.name != y.name && x.name != u.name && z.name == y.name && z != y && u.id == 3
    requires cli.order(x.name) == [] && cli.order(u.name) == []
    requires cli.deps(u.name) == [y.name] && cli.deps(x.name) == [y.name, u.name]
    ensures Round(cli, Work([x, y, z], [], 3)) == Work([u, z, x, y], [], 4)
    ensures Round(cli, Work([u, z, x, y], [], 4)) == Work([y, u, z, x], [], 4)
  {
    assert [x, y, z] == [x, y] + [z] && [u, z] + [x, y] == [u, z, x, y];
    assert u == Task(u.name, 3);
    RoundPullsTwo(cli, [x, y], z, u.name, [], 3);
    assert [u, z, x, y] == [u, z, x] + [y] && [y] + [u, z, x] == [y, u, z, x];
    RoundPullsOne(cli, [u, z, x], y, [], 4);
  }

  /** The same where `a` depends on `b` and `c`, and `c` on `b`: the first `b` runs although `a` needs it. */
  lemma FirstRunsAgain(cli: Cli, a: Name, b: Name, c: Name) returns (n: nat)
    requires a != b && b != c && a != c && cli.deps(a) == [b, c] && cli.deps(c) == [b] && cli.deps(b) == []
    requires cli.order(a) == [] && cli.order(b) == [] && cli.order(c) == []
    ensures Rounds(cli, Start([Task(a, 0), Task(b, 1), Task(b, 2)]), n)
            == Work([], [Task(b, 1), Task(c, 3), Task(a, 0)], 4)
  {
    var x, y, z, u := Task(a, 0), Task(b, 1), Task(b, 2), Task(c, 3);
    n := FirstRunsNext(cli, x, y, z, u);
    FirstTwoPulls(cli, x, y, z, u);
    n := PullNext(cli, Work([u, z, x, y], [], 4), n, Work([], [y, u, x], 4));
    n := PullNext(cli, Work([x, y, z], [], 3), n, Work([], [y, u, x], 4));
  }
}
