/** Splitting a space-separated list of paths whose names may hold spaces: every space is either a
    separator or part of a path, and a bit mask enumerates the choices. */
module SplitPaths {
  import opened Basics

  const SPACE: string := " "

  function Join(parts: seq<string>): string {
    if parts == [] then "" else if |parts| == 1 then parts[0] else parts[0] + SPACE + Join(parts[1..])
  }

  ghost predicate SpaceFree(parts: seq<string>) {
    forall i :: 0 <= i < |parts| ==> ' ' !in parts[i]
  }

  /** `str.split(' ')`. */
  function Split(s: string): (parts: seq<string>)
    ensures |parts| > 0
  {
    if s == "" then [""]
    else
      var rest := Split(s[1..]);
      if s[0] == ' ' then [""] + rest else [[s[0]] + rest[0]] + rest[1..]
  }

  lemma {:induction false} SplitJoins(s: string)
    ensures SpaceFree(Split(s)) && Join(Split(s)) == s
  {
    if s != "" {
      SplitJoins(s[1..]);
      var rest := Split(s[1..]);
      if s[0] == ' ' {
        assert ([""] + rest)[1..] == rest;
        assert Join([""] + rest) == "" + SPACE + Join(rest) == s;
      } else {
        var parts := [[s[0]] + rest[0]] + rest[1..];
        JoinHead([s[0]], rest);
        assert s == [s[0]] + s[1..];
      }
    }
  }

  lemma JoinHead(p: string, rest: seq<string>)
    requires rest != []
    ensures Join([p + rest[0]] + rest[1..]) == p + Join(rest)
  {
    var parts := [p + rest[0]] + rest[1..];
    assert parts[1..] == rest[1..];
    if |rest| > 1 {
      Assoc(p, rest[0], SPACE);
      Assoc(p, rest[0] + SPACE, Join(rest[1..]));
    }
  }

  lemma JoinCons(p: string, rest: seq<string>)
    requires rest != []
    ensures Join([p] + rest) == p + SPACE + Join(rest)
  {
    assert ([p] + rest)[1..] == rest;
  }

  /** The split of `parts` that mask `n` stands for: bit `i` separates parts `i` and `i + 1`. */
  function Choose(parts: seq<string>, n: nat): (r: seq<string>)
    requires parts != []
    ensures r != []
  {
    if |parts| == 1 then parts
    else
      var r := Choose(parts[1..], n / 2);
      if n % 2 == 1 then [parts[0]] + r else [parts[0] + SPACE + r[0]] + r[1..]
  }

  /** The mask of a split: is the first path the first part, or does it go on behind a space? */
  function MaskOf(parts: seq<string>, paths: seq<string>): nat
    requires parts != []
    decreases |parts|
  {
    if |parts| == 1 || paths == [] then 0
    else if paths[0] == parts[0] then 1 + 2 * MaskOf(parts[1..], paths[1..])
    else if |paths[0]| <= |parts[0]| then 0
    else 2 * MaskOf(parts[1..], [paths[0][|parts[0]| + 1..]] + paths[1..])
  }

  /** Every mask gives a split that joins back to the source. */
  lemma {:induction false} ChooseJoins(parts: seq<string>, n: nat)
    requires parts != []
    ensures Join(Choose(parts, n)) == Join(parts)
    decreases |parts|
  {
    if |parts| > 1 {
      var r := Choose(parts[1..], n / 2);
      ChooseJoins(parts[1..], n / 2);
      if n % 2 == 1 {
        JoinCons(parts[0], r);
      } else {
        JoinHead(parts[0] + SPACE, r);
      }
    }
  }

  /** Different masks give different splits: the mask can be read off the split. */
  lemma {:induction false} MaskOfChoose(parts: seq<string>, n: nat)
    requires parts != [] && n < Pow2(|parts| - 1)
    ensures MaskOf(parts, Choose(parts, n)) == n
    decreases |parts|
  {
    if |parts| > 1 {
      var r := Choose(parts[1..], n / 2);
      var paths := Choose(parts, n);
      MaskOfChoose(parts[1..], n / 2);
      if n % 2 == 1 {
        assert paths[1..] == r;
      } else {
        assert |paths[0]| > |parts[0]|;
        assert paths[0][|parts[0]| + 1..] == r[0];
        assert [r[0]] + paths[1..] == r;
      }
    }
  }

  lemma FirstSpace(a: string, x: string, b: string, y: string)
    requires ' ' !in a && ' ' !in b && a + SPACE + x == b + SPACE + y
    ensures a == b && x == y
  {
    var s := a + SPACE + x;
    assert s[|a|] == ' ' && s[|b|] == ' ';
    assert forall i :: 0 <= i < |a| ==> s[i] == a[i];
    assert forall i :: 0 <= i < |b| ==> s[i] == b[i];
    assert |a| == |b|;
    assert s[..|a|] == a && (b + SPACE + y)[..|b|] == b;
    assert s[|a| + 1..] == x && (b + SPACE + y)[|b| + 1..] == y;
  }

  lemma JoinHasSpace(paths: seq<string>)
    requires |paths| > 1
    ensures ' ' in Join(paths)
  {
    assert Join(paths)[|paths[0]|] == ' ';
  }

  /** The text up to the first space of a string that has one. */
  lemma CutAtSpace(s: string) returns (a: string, x: string)
    requires ' ' in s
    ensures ' ' !in a && s == a + SPACE + x
  {
    if s[0] == ' ' {
      a, x := "", s[1..];
    } else {
      assert ' ' in s[1..];
      a, x := CutAtSpace(s[1..]);
      a := [s[0]] + a;
    }
  }

  /** Every list of paths that joins back to the source arises from a mask. */
  lemma {:induction false} ChooseMaskOf(parts: seq<string>, paths: seq<string>)
    requires parts != [] && SpaceFree(parts) && paths != [] && Join(paths) == Join(parts)
    ensures MaskOf(parts, paths) < Pow2(|parts| - 1)
    ensures Choose(parts, MaskOf(parts, paths)) == paths
    decreases |parts|
  {
    if |parts| == 1 {
      if |paths| > 1 { JoinHasSpace(paths); }
    } else {
      var p, rest := parts[0], parts[1..];
      if ' ' in paths[0] {
        var a, x := CutAtSpace(paths[0]);
        var shorter := [x] + paths[1..];
        assert shorter[1..] == paths[1..];
        JoinHead(a + SPACE, shorter);
        assert [a + SPACE + x] + paths[1..] == paths;
        FirstSpace(a, Join(shorter), p, Join(rest));
        assert paths[0][|p| + 1..] == x;
        ChooseMaskOf(rest, shorter);
        var n := MaskOf(rest, shorter);
        assert MaskOf(parts, paths) == 2 * n && 2 * n / 2 == n;
      } else {
        if |paths| == 1 { JoinHasSpace(parts); }
        FirstSpace(paths[0], Join(paths[1..]), p, Join(rest));
        ChooseMaskOf(rest, paths[1..]);
        var n := MaskOf(rest, paths[1..]);
        assert MaskOf(parts, paths) == 1 + 2 * n && (1 + 2 * n) / 2 == n;
        assert [p] + paths[1..] == paths;
      }
    }
  }

  // ------------------------------------------------------------------ the loops of the source

  /** What is left to do in `selective_join` from the middle of its loop. */
  ghost function Glue(concatenated: seq<string>, rest: seq<string>, n: nat): seq<string>
    requires concatenated != []
  {
    Choose([Join(concatenated)] + rest, n)
  }

  lemma {:induction false} JoinSnoc(parts: seq<string>, p: string)
    requires parts != []
    ensures Join(parts + [p]) == Join(parts) + SPACE + p
  {
    if |parts| == 1 {
      JoinCons(parts[0], [p]);
      assert parts + [p] == [parts[0]] + [p];
    } else {
      JoinSnoc(parts[1..], p);
      assert (parts + [p])[1..] == parts[1..] + [p];
      var t := Join(parts[1..]);
      assert parts[0] + SPACE + (t + SPACE + p) == parts[0] + SPACE + t + SPACE + p;
    }
  }

  lemma ChooseHead(p: string, rest: seq<string>, n: nat)
    requires rest != []
    ensures var r := Choose(rest, n); Choose([p + rest[0]] + rest[1..], n) == [p + r[0]] + r[1..]
  {
    var parts := [p + rest[0]] + rest[1..];
    if |rest| > 1 {
      assert parts[1..] == rest[1..];
      var r := Choose(rest[1..], n / 2);
      assert p + rest[0] + SPACE + r[0] == p + (rest[0] + SPACE + r[0]);
    }
  }

  lemma GlueStep(concatenated: seq<string>, rest: seq<string>, n: nat)
    requires concatenated != [] && rest != []
    ensures Glue(concatenated, rest, n) ==
            if n % 2 == 1 then [Join(concatenated)] + Glue([rest[0]], rest[1..], n / 2)
            else Glue(concatenated + [rest[0]], rest[1..], n / 2)
  {
    var parts := [Join(concatenated)] + rest;
    assert parts[1..] == rest && [rest[0]] + rest[1..] == rest;
    if n % 2 == 0 {
      JoinSnoc(concatenated, rest[0]);
      ChooseHead(Join(concatenated) + SPACE, rest, n / 2);
    }
  }

  method SelectiveJoin(parts: seq<string>, mask: nat) returns (result: seq<string>)
    requires parts != []
    ensures result == Choose(parts, mask)
  {
    result := [];
    var concatenated, n, i := [parts[0]], mask, 1;
    assert [Join(concatenated)] + parts[1..] == parts;
    while i < |parts|
      invariant 1 <= i <= |parts| && concatenated != []
      invariant result + Glue(concatenated, parts[i..], n) == Choose(parts, mask)
    {
      GlueStep(concatenated, parts[i..], n);
      assert parts[i..][1..] == parts[i + 1..];
      if n % 2 == 1 {
        assert result + ([Join(concatenated)] + Glue([parts[i]], parts[i + 1..], n / 2))
            == result + [Join(concatenated)] + Glue([parts[i]], parts[i + 1..], n / 2);
        result := result + [Join(concatenated)];
        concatenated := [parts[i]];
      } else {
        concatenated := concatenated + [parts[i]];
      }
      n := n / 2;
      i := i + 1;
    }
    assert parts[i..] == [] && [Join(concatenated)] + [] == [Join(concatenated)];
    result := result + [Join(concatenated)];
  }

  function LeftTrim(s: string): string {
    if s != "" && s[0] == ' ' then LeftTrim(s[1..]) else s
  }

  function RightTrim(s: string): string {
    if s != "" && s[|s| - 1] == ' ' then RightTrim(s[..|s| - 1]) else s
  }

  ghost predicate OnlySpaces(s: string) { forall i :: 0 <= i < |s| ==> s[i] == ' ' }

  /** `src` is `source` without the spaces at both ends. */
  ghost predicate Trimmed(source: string, src: string) {
    && (src != "" ==> src[0] != ' ' && src[|src| - 1] != ' ')
    && exists a, b :: OnlySpaces(a) && OnlySpaces(b) && source == a + src + b
  }

  lemma {:induction false} LeftTrimIs(s: string) returns (a: string)
    ensures OnlySpaces(a) && s == a + LeftTrim(s) && (LeftTrim(s) != "" ==> LeftTrim(s)[0] != ' ')
  {
    a := "";
    if s != "" && s[0] == ' ' {
      var more := LeftTrimIs(s[1..]);
      a := [' '] + more;
      assert s == [' '] + s[1..];
    }
  }

  lemma {:induction false} RightTrimIs(s: string) returns (b: string)
    ensures OnlySpaces(b) && s == RightTrim(s) + b && (RightTrim(s) != "" ==> RightTrim(s)[|RightTrim(s)| - 1] != ' ')
  {
    b := "";
    if s != "" && s[|s| - 1] == ' ' {
      var more := RightTrimIs(s[..|s| - 1]);
      b := more + [' '];
      assert s == s[..|s| - 1] + [' '];
    }
  }

  lemma TrimIs(source: string)
    ensures Trimmed(source, RightTrim(LeftTrim(source)))
  {
    var a := LeftTrimIs(source);
    var b := RightTrimIs(LeftTrim(source));
    var src := RightTrim(LeftTrim(source));
    assert src != "" ==> src[0] == LeftTrim(source)[0];
    assert source == a + src + b;
  }

  function NonEmpty(paths: seq<string>): seq<string> {
    if paths == [] then [] else (if paths[0] == "" then [] else [paths[0]]) + NonEmpty(paths[1..])
  }

  /** A way to read `src` as existing paths; empty paths are ignored. */
  ghost predicate Reading(src: string, pathExists: string -> bool, paths: seq<string>) {
    && paths != [] && Join(paths) == src
    && forall p :: p in paths && p != "" ==> pathExists(p)
  }

  lemma {:induction false} NonEmptyMembers(paths: seq<string>)
    ensures forall p :: p in NonEmpty(paths) <==> p in paths && p != ""
  {
    if paths != [] {
      NonEmptyMembers(paths[1..]);
      assert paths == [paths[0]] + paths[1..];
    }
  }

  /** Readings of a source are exactly the choices of its masks, one mask each. */
  lemma ReadingIffMask(src: string, pathExists: string -> bool, paths: seq<string>)
    ensures var parts := Split(src);
            Reading(src, pathExists, paths) ==>
              MaskOf(parts, paths) < Pow2(|parts| - 1) && Choose(parts, MaskOf(parts, paths)) == paths
    ensures var parts := Split(src);
            forall n :: 0 <= n < Pow2(|parts| - 1) ==>
              Join(Choose(parts, n)) == src && MaskOf(parts, Choose(parts, n)) == n
  {
    var parts := Split(src);
    SplitJoins(src);
    if Reading(src, pathExists, paths) { ChooseMaskOf(parts, paths); }
    forall n | 0 <= n < Pow2(|parts| - 1)
      ensures Join(Choose(parts, n)) == src && MaskOf(parts, Choose(parts, n)) == n
    {
      ChooseJoins(parts, n);
      MaskOfChoose(parts, n);
    }
  }

  datatype Result = Success(paths: seq<string>) | NoWay | Ambiguous

  method AllExist(paths: seq<string>, pathExists: string -> bool) returns (all: bool)
    ensures all <==> forall p :: p in paths ==> pathExists(p)
  {
    var i := 0;
    while i < |paths|
      invariant 0 <= i <= |paths|
      invariant forall p :: p in paths[..i] ==> pathExists(p)
    {
      if !pathExists(paths[i]) { return false; }
      assert paths[..i + 1] == paths[..i] + [paths[i]];
      i := i + 1;
    }
    assert paths[..i] == paths;
    all := true;
  }

  /** Whether the choice of a mask is a reading. */
  ghost function Hit(src: string, pathExists: string -> bool): nat -> bool {
    (n: nat) => Reading(src, pathExists, Choose(Split(src), n))
  }

  /** The numbers below `n` that satisfy `ok`, in order. */
  ghost function Filter(ok: nat -> bool, n: nat): seq<nat> {
    if n == 0 then [] else if ok(n - 1) then Filter(ok, n - 1) + [n - 1] else Filter(ok, n - 1)
  }

  ghost predicate Ascending(r: seq<nat>) {
    forall i, j :: 0 <= i < j < |r| ==> r[i] < r[j]
  }

  lemma {:induction false} FilterAscends(ok: nat -> bool, n: nat)
    ensures Ascending(Filter(ok, n))
    ensures forall m :: m in Filter(ok, n) ==> m < n
  {
    if n > 0 {
      FilterAscends(ok, n - 1);
      var r := Filter(ok, n - 1);
      assert forall i :: 0 <= i < |r| ==> r[i] in r;
    }
  }

  lemma {:induction false} FilterMember(ok: nat -> bool, n: nat, m: nat)
    ensures m in Filter(ok, n) <==> m < n && ok(m)
  {
    if n > 0 { FilterMember(ok, n - 1, m); }
  }

  /** The non-empty paths of the choices of these numbers. */
  ghost function Found(parts: seq<string>, ok: nat -> bool, n: nat): seq<seq<string>>
    requires parts != []
  {
    if n == 0 then []
    else if ok(n - 1) then Found(parts, ok, n - 1) + [NonEmpty(Choose(parts, n - 1))]
    else Found(parts, ok, n - 1)
  }

  lemma {:induction false} FoundIs(parts: seq<string>, ok: nat -> bool, n: nat)
    requires parts != []
    ensures var r, f := Filter(ok, n), Found(parts, ok, n);
            |f| == |r| && forall i :: 0 <= i < |r| ==> f[i] == NonEmpty(Choose(parts, r[i]))
  {
    if n > 0 { FoundIs(parts, ok, n - 1); }
  }

  /** One mask of the search. */
  method TryMask(src: string, parts: seq<string>, pathExists: string -> bool, mask: nat, valid0: seq<seq<string>>)
    returns (valid: seq<seq<string>>)
    requires parts == Split(src) && valid0 == Found(parts, Hit(src, pathExists), mask)
    ensures valid == Found(parts, Hit(src, pathExists), mask + 1)
  {
    var all := SelectiveJoin(parts, mask);
    var paths := NonEmpty(all);
    var ok := AllExist(paths, pathExists);
    valid := if ok then valid0 + [paths] else valid0;
    NonEmptyMembers(all);
    SplitJoins(src);
    ChooseJoins(parts, mask);
  }

  /** The search over all masks. */
  method Search(src: string, parts: seq<string>, pathExists: string -> bool, total: nat)
    returns (valid: seq<seq<string>>)
    requires parts == Split(src)
    ensures valid == Found(parts, Hit(src, pathExists), total)
  {
    valid := [];
    var mask := 0;
    while mask < total
      invariant 0 <= mask <= total
      invariant valid == Found(parts, Hit(src, pathExists), mask)
    {
      valid := TryMask(src, parts, pathExists, mask, valid);
      mask := mask + 1;
    }
  }

  /** The masks the search keeps. */
  ghost function Kept(src: string, pathExists: string -> bool): seq<nat> {
    Filter(Hit(src, pathExists), Pow2(|Split(src)| - 1))
  }

  lemma ReadingIsKept(src: string, pathExists: string -> bool, ls: seq<string>)
    requires Reading(src, pathExists, ls)
    ensures MaskOf(Split(src), ls) in Kept(src, pathExists) && Choose(Split(src), MaskOf(Split(src), ls)) == ls
  {
    ReadingIffMask(src, pathExists, ls);
    FilterMember(Hit(src, pathExists), Pow2(|Split(src)| - 1), MaskOf(Split(src), ls));
  }

  lemma KeptIsReading(src: string, pathExists: string -> bool, m: nat)
    requires m in Kept(src, pathExists)
    ensures Reading(src, pathExists, Choose(Split(src), m)) && MaskOf(Split(src), Choose(Split(src), m)) == m
  {
    FilterMember(Hit(src, pathExists), Pow2(|Split(src)| - 1), m);
    MaskOfChoose(Split(src), m);
  }

  ghost predicate OnlyReading(src: string, pathExists: string -> bool, ls: seq<string>) {
    Reading(src, pathExists, ls) && forall other :: Reading(src, pathExists, other) ==> other == ls
  }

  /** `paths` are the members of `ls` at the places `at`, in order, exactly those that are not empty. */
  ghost predicate Picked(paths: seq<string>, ls: seq<string>, at: seq<nat>) {
    && |at| == |paths| && Ascending(at)
    && (forall k :: 0 <= k < |at| ==> at[k] < |ls| && paths[k] == ls[at[k]])
    && (forall i :: 0 <= i < |ls| ==> (i in at <==> ls[i] != ""))
  }

  function Shift(at: seq<nat>): (r: seq<nat>)
    ensures |r| == |at| && forall k :: 0 <= k < |at| ==> r[k] == at[k] + 1
  {
    if at == [] then [] else [at[0] + 1] + Shift(at[1..])
  }

  lemma ShiftIn(at: seq<nat>, i: nat)
    ensures i in Shift(at) <==> i > 0 && i - 1 in at
  {
    var r := Shift(at);
    if i in r { var k :| 0 <= k < |r| && r[k] == i; assert at[k] == i - 1; }
    if i > 0 && i - 1 in at { var k :| 0 <= k < |at| && at[k] == i - 1; assert r[k] == i; }
  }

  lemma PickedEmpty(paths: seq<string>, ls: seq<string>, at: seq<nat>)
    requires Picked(paths, ls, at)
    ensures Picked(paths, [""] + ls, Shift(at))
  {
    var all, up := [""] + ls, Shift(at);
    forall i | 0 <= i < |all| ensures i in up <==> all[i] != "" { ShiftIn(at, i); }
  }

  lemma PickedFirst(paths: seq<string>, ls: seq<string>, at: seq<nat>, p: string)
    requires Picked(paths, ls, at) && p != ""
    ensures Picked([p] + paths, [p] + ls, [0] + Shift(at))
  {
    var all, up, both := [p] + ls, [0] + Shift(at), [p] + paths;
    forall k | 0 <= k < |up| ensures up[k] < |all| && both[k] == all[up[k]] {
      if k > 0 { assert up[k] == at[k - 1] + 1 && both[k] == paths[k - 1]; }
    }
    forall j, k | 0 <= j < k < |up| ensures up[j] < up[k] {
      assert up[k] == at[k - 1] + 1;
      if j > 0 { assert up[j] == at[j - 1] + 1; }
    }
    forall i | 0 <= i < |all| ensures i in up <==> all[i] != "" { ShiftIn(at, i); }
  }

  lemma {:induction false} NonEmptyPicked(ls: seq<string>) returns (at: seq<nat>)
    ensures Picked(NonEmpty(ls), ls, at)
  {
    at := [];
    if ls != [] {
      var rest := NonEmptyPicked(ls[1..]);
      assert ls == [ls[0]] + ls[1..];
      if ls[0] == "" {
        PickedEmpty(NonEmpty(ls[1..]), ls[1..], rest);
        assert NonEmpty(ls) == NonEmpty(ls[1..]);
        at := Shift(rest);
      } else {
        PickedFirst(NonEmpty(ls[1..]), ls[1..], rest, ls[0]);
        at := [0] + Shift(rest);
      }
    }
  }

  /** No space at either end, no two in a row. */
  ghost predicate SingleSpaces(s: string) {
    && (s != "" ==> s[0] != ' ' && s[|s| - 1] != ' ')
    && forall i :: 0 <= i < |s| - 1 ==> s[i] != ' ' || s[i + 1] != ' '
  }

  lemma {:induction false} NoEmptyPath(ls: seq<string>)
    requires |ls| > 1 && forall i :: 0 <= i < |Join(ls)| - 1 ==> Join(ls)[i] != ' ' || Join(ls)[i + 1] != ' '
    requires Join(ls)[|Join(ls)| - 1] != ' '
    ensures forall i :: 0 < i < |ls| ==> ls[i] != ""
    ensures Join(ls)[0] != ' ' ==> ls[0] != ""
  {
    var s, t, n := Join(ls), Join(ls[1..]), |ls[0]| + 1;
    assert s == ls[0] + SPACE + t && s[n..] == t && s[n - 1] == ' ';
    assert |t| > 0;
    assert t[0] == s[n] && t[0] != ' ';
    if |ls| > 2 {
      forall i | 0 <= i < |t| - 1 ensures t[i] != ' ' || t[i + 1] != ' ' { assert t[i] == s[n + i] && t[i + 1] == s[n + i + 1]; }
      NoEmptyPath(ls[1..]);
      forall i | 0 < i < |ls| ensures ls[i] != "" { assert ls[i] == ls[1..][i - 1]; }
    } else {
      assert ls[1..] == [ls[1]];
    }
    if ls[0] == "" { assert s[0] == ' '; }
  }

  lemma {:induction false} NonEmptyAll(ls: seq<string>)
    requires forall i :: 0 <= i < |ls| ==> ls[i] != ""
    ensures NonEmpty(ls) == ls
  {
    if ls != [] { NonEmptyAll(ls[1..]); }
  }

  /** Nothing of the source is lost when it has single spaces. */
  lemma PickedJoins(ls: seq<string>)
    requires ls != [] && SingleSpaces(Join(ls))
    ensures Join(NonEmpty(ls)) == Join(ls)
  {
    if |ls| > 1 {
      if Join(ls) == "" { JoinHasSpace(ls); }
      NoEmptyPath(ls);
      NonEmptyAll(ls);
    }
  }

  /** What a result of the search over `src` promises. */
  ghost predicate Answers(res: Result, src: string, pathExists: string -> bool) {
    match res
    case Success(paths) =>
      && (exists ls, at :: OnlyReading(src, pathExists, ls) && Picked(paths, ls, at))
      && (SingleSpaces(src) ==> Join(paths) == src)
    case NoWay => forall ls :: !Reading(src, pathExists, ls)
    case Ambiguous => exists a, b :: a != b && Reading(src, pathExists, a) && Reading(src, pathExists, b)
  }

  lemma NoneKept(src: string, pathExists: string -> bool)
    requires Kept(src, pathExists) == []
    ensures Answers(NoWay, src, pathExists)
  {
    forall ls ensures !Reading(src, pathExists, ls) {
      if Reading(src, pathExists, ls) { ReadingIsKept(src, pathExists, ls); }
    }
  }

  lemma OneKept(src: string, pathExists: string -> bool, m: nat)
    requires Kept(src, pathExists) == [m]
    ensures Answers(Success(NonEmpty(Choose(Split(src), m))), src, pathExists)
  {
    var only := Choose(Split(src), m);
    KeptIsReading(src, pathExists, m);
    forall ls | Reading(src, pathExists, ls) ensures ls == only {
      ReadingIsKept(src, pathExists, ls);
    }
    assert OnlyReading(src, pathExists, only);
    var at := NonEmptyPicked(only);
    if SingleSpaces(src) { PickedJoins(only); }
  }

  lemma TwoKept(src: string, pathExists: string -> bool)
    requires |Kept(src, pathExists)| >= 2
    ensures Answers(Ambiguous, src, pathExists)
  {
    var r := Kept(src, pathExists);
    FilterAscends(Hit(src, pathExists), Pow2(|Split(src)| - 1));
    KeptIsReading(src, pathExists, r[0]);
    KeptIsReading(src, pathExists, r[1]);
    assert r[0] < r[1];
    assert Choose(Split(src), r[0]) != Choose(Split(src), r[1]);
  }

  /** The verdict on the search result. */
  method Judge(src: string, parts: seq<string>, pathExists: string -> bool, valid: seq<seq<string>>)
    returns (res: Result)
    requires parts == Split(src) && valid == Found(parts, Hit(src, pathExists), Pow2(|parts| - 1))
    ensures Answers(res, src, pathExists)
  {
    ghost var r := Kept(src, pathExists);
    FoundIs(parts, Hit(src, pathExists), Pow2(|parts| - 1));
    if |valid| == 1 {
      assert r == [r[0]] && valid[0] == NonEmpty(Choose(parts, r[0]));
      OneKept(src, pathExists, r[0]);
      return Success(valid[0]);
    }
    if |valid| == 0 {
      NoneKept(src, pathExists);
      return NoWay;
    }
    TwoKept(src, pathExists);
    res := Ambiguous;
  }

  /** A source has one trimmed form. */
  lemma TrimmedOnce(source: string, x: string, y: string)
    requires Trimmed(source, x) && Trimmed(source, y)
    ensures x == y
  {
    var a, b :| OnlySpaces(a) && OnlySpaces(b) && source == a + x + b;
    var c, d :| OnlySpaces(c) && OnlySpaces(d) && source == c + y + d;
    assert forall i :: 0 <= i < |a| ==> source[i] == ' ';
    assert forall i :: 0 <= i < |c| ==> source[i] == ' ';
    assert forall i :: |a| + |x| <= i < |source| ==> source[i] == ' ' by {
      forall i | |a| + |x| <= i < |source| ensures source[i] == ' ' { assert source[i] == b[i - |a| - |x|]; }
    }
    assert forall i :: |c| + |y| <= i < |source| ==> source[i] == ' ' by {
      forall i | |c| + |y| <= i < |source| ensures source[i] == ' ' { assert source[i] == d[i - |c| - |y|]; }
    }
    if x != "" { assert source[|a|] == x[0] && source[|a| + |x| - 1] == x[|x| - 1]; }
    if y != "" { assert source[|c|] == y[0] && source[|c| + |y| - 1] == y[|y| - 1]; }
    if x != "" && y != "" {
      assert |a| == |c| && |x| == |y|;
      assert x == source[|a|..|a| + |x|] && y == source[|c|..|c| + |y|];
    }
  }

  /** `split_paths_by_spaces`.  Beyond a source without spaces, which is returned as it is, the search
      is sound and complete: it succeeds with the one reading of the trimmed source there is, and
      tells no reading from several. */
  method SplitPathsBySpaces(source: string, pathExists: string -> bool) returns (res: Result)
    ensures ' ' !in source ==> res == Success([source])
    ensures ' ' in source ==> exists src :: Trimmed(source, src) && Answers(res, src, pathExists)
  {
    if ' ' !in source { return Success([source]); }
    var src := RightTrim(LeftTrim(source));
    TrimIs(source);
    var parts := Split(src);
    var valid := Search(src, parts, pathExists, Pow2(|parts| - 1));
    res := Judge(src, parts, pathExists, valid);
  }
}
