/** The console's in-place splitter of a command line into arguments. */
module SplitArgv {
  import opened Basics

  const SPACE: Byte := 0x20
  const QUOTE: Byte := 0x22
  const ESCAPE: Byte := 0x5C

  /** Characters that may follow the escape character; any other is dropped with it. */
  predicate Escapable(c: Byte) { c == ESCAPE || c == QUOTE || c == SPACE }

  // ------------------------------------------------------------------ reference tokenizer

  /** The text of an argument that ends at an unescaped `stop` or with the input, and the rest. */
  function Piece(s: seq<Byte>, stop: Byte): (r: (seq<Byte>, seq<Byte>))
    ensures |r.1| <= |s| && (s != [] ==> |r.1| < |s|)
  {
    if s == [] then ([], [])
    else if s[0] == stop then ([], s[1..])
    else if s[0] == ESCAPE then
      if |s| == 1 then ([], [])
      else
        var (text, rest) := Piece(s[2..], stop);
        (if Escapable(s[1]) then [s[1]] + text else text, rest)
    else
      var (text, rest) := Piece(s[1..], stop);
      ([s[0]] + text, rest)
  }

  /** All arguments of a line without NUL. */
  function Tokens(s: seq<Byte>): seq<seq<Byte>>
    decreases |s|
  {
    if s == [] then []
    else if s[0] == SPACE then Tokens(s[1..])
    else
      var (text, rest) := if s[0] == QUOTE then Piece(s[1..], QUOTE) else Piece(s, SPACE);
      [text] + Tokens(rest)
  }

  // ------------------------------------------------------------------ quoting

  function EscapeOne(c: Byte): seq<Byte> {
    if c == ESCAPE || c == QUOTE then [ESCAPE, c] else [c]
  }

  function EscapeAll(arg: seq<Byte>): seq<Byte> {
    if arg == [] then [] else EscapeOne(arg[0]) + EscapeAll(arg[1..])
  }

  function Quote(arg: seq<Byte>): seq<Byte> { [QUOTE] + EscapeAll(arg) + [QUOTE] }

  function Join(args: seq<seq<Byte>>): seq<Byte> {
    if args == [] then [] else if |args| == 1 then Quote(args[0]) else Quote(args[0]) + [SPACE] + Join(args[1..])
  }

  lemma HeadTail(a: seq<Byte>)
    requires a != []
    ensures [a[0]] + a[1..] == a
  {}

  lemma PieceOfOne(c: Byte, tail: seq<Byte>)
    ensures Piece(EscapeOne(c) + tail, QUOTE) == ([c] + Piece(tail, QUOTE).0, Piece(tail, QUOTE).1)
  {
    var s := EscapeOne(c) + tail;
    if c == ESCAPE || c == QUOTE { assert s[2..] == tail; } else { assert s[1..] == tail; }
  }

  lemma {:induction false} PieceOfEscaped(arg: seq<Byte>, tail: seq<Byte>)
    ensures Piece(EscapeAll(arg) + ([QUOTE] + tail), QUOTE) == (arg, tail)
  {
    var end := [QUOTE] + tail;
    if arg == [] {
      assert EscapeAll(arg) + end == end && end[1..] == tail;
    } else {
      PieceOfEscaped(arg[1..], tail);
      PieceOfOne(arg[0], EscapeAll(arg[1..]) + end);
      Assoc(EscapeOne(arg[0]), EscapeAll(arg[1..]), end);
      HeadTail(arg);
    }
  }

  /** Quoting every argument, joining them by spaces and splitting the line again is the identity,
      whatever the arguments hold, the empty argument included. */
  lemma {:induction false} SplitOfJoin(args: seq<seq<Byte>>)
    ensures Tokens(Join(args)) == args
    decreases |args|
  {
    if args != [] {
      var tail := if |args| == 1 then [] else [SPACE] + Join(args[1..]);
      TokensOfQuoted(args[0], tail);
      assert Join(args) == Quote(args[0]) + tail;
      SplitOfJoin(args[1..]);
      if |args| > 1 { assert tail[1..] == Join(args[1..]); }
    }
  }

  lemma TokensOfQuoted(arg: seq<Byte>, tail: seq<Byte>)
    ensures Tokens(Quote(arg) + tail) == [arg] + Tokens(tail)
  {
    var s := Quote(arg) + tail;
    assert s[1..] == EscapeAll(arg) + ([QUOTE] + tail);
    PieceOfEscaped(arg, tail);
  }

  lemma {:induction false} JoinHasNoNul(args: seq<seq<Byte>>)
    requires forall i :: 0 <= i < |args| ==> 0 !in args[i]
    ensures 0 !in Join(args)
    decreases |args|
  {
    if args != [] {
      EscapeHasNoNul(args[0]);
      JoinHasNoNul(args[1..]);
    }
  }

  lemma {:induction false} EscapeHasNoNul(arg: seq<Byte>)
    requires 0 !in arg
    ensures 0 !in EscapeAll(arg)
  {
    if arg != [] { EscapeHasNoNul(arg[1..]); }
  }

  lemma {:induction false} PieceHasNoNul(s: seq<Byte>, stop: Byte)
    requires 0 !in s
    ensures 0 !in Piece(s, stop).0 && 0 !in Piece(s, stop).1
    decreases |s|
  {
    if s != [] && s[0] != stop {
      if s[0] == ESCAPE { if |s| > 1 { PieceHasNoNul(s[2..], stop); } } else { PieceHasNoNul(s[1..], stop); }
    }
  }

  /** Arguments hold no NUL, so each is one C string. */
  lemma {:induction false} TokensHaveNoNul(s: seq<Byte>)
    requires 0 !in s
    ensures forall i :: 0 <= i < |Tokens(s)| ==> 0 !in Tokens(s)[i]
    decreases |s|
  {
    if s != [] {
      if s[0] == SPACE {
        TokensHaveNoNul(s[1..]);
      } else {
        var (text, rest) := if s[0] == QUOTE then Piece(s[1..], QUOTE) else Piece(s, SPACE);
        PieceHasNoNul(s[1..], QUOTE);
        PieceHasNoNul(s, SPACE);
        TokensHaveNoNul(rest);
      }
    }
  }

  // ------------------------------------------------------------------ the layout in memory

  /** Arguments one behind the other, each with its terminator. */
  function Packed(args: seq<seq<Byte>>): seq<Byte> {
    if args == [] then [] else Packed(args[..|args| - 1]) + args[|args| - 1] + [0]
  }

  /** Where each of them starts. */
  function Starts(args: seq<seq<Byte>>): (r: seq<Option<nat>>)
    ensures |r| == |args|
  {
    if args == [] then [] else Starts(args[..|args| - 1]) + [Some(|Packed(args[..|args| - 1])|)]
  }

  lemma PackedNext(args: seq<seq<Byte>>, arg: seq<Byte>)
    ensures Packed(args + [arg]) == Packed(args) + arg + [0]
    ensures Starts(args + [arg]) == Starts(args) + [Some(|Packed(args)|)]
  {
    assert (args + [arg])[..|args|] == args;
  }

  /** Argument `k` starts behind the arguments before it and ends at its own terminator. */
  lemma {:induction false} PackedAt(args: seq<seq<Byte>>, k: nat)
    requires k < |args|
    ensures Starts(args)[k] == Some(|Packed(args[..k])|)
    ensures |Packed(args[..k])| + |args[k]| + 1 == |Packed(args[..k + 1])| <= |Packed(args)|
    ensures var o := |Packed(args[..k])|;
            Packed(args)[o..o + |args[k]|] == args[k] && Packed(args)[o + |args[k]|] == 0
  {
    var n := |args| - 1;
    assert args[..k + 1][..k] == args[..k];
    if k < n {
      assert args[..n][..k] == args[..k] && args[..n][..k + 1] == args[..k + 1];
      PackedAt(args[..n], k);
    } else {
      assert args[..k + 1] == args;
    }
  }

  // ------------------------------------------------------------------ the state machine

  datatype State = Space | Arg | QuotedArg | ArgEscaped | QuotedArgEscaped

  function Stop(st: State): Byte { if st.Arg? || st.ArgEscaped? then SPACE else QUOTE }

  /** The arguments still to come, from the middle of a line. */
  ghost function Cont(st: State, cur: seq<Byte>, rest: seq<Byte>): seq<seq<Byte>> {
    match st
    case Space => Tokens(rest)
    case Arg => InPiece(SPACE, cur, rest)
    case QuotedArg => InPiece(QUOTE, cur, rest)
    case ArgEscaped => AfterEscape(SPACE, cur, rest)
    case QuotedArgEscaped => AfterEscape(QUOTE, cur, rest)
  }

  ghost function InPiece(stop: Byte, cur: seq<Byte>, rest: seq<Byte>): seq<seq<Byte>> {
    [cur + Piece(rest, stop).0] + Tokens(Piece(rest, stop).1)
  }

  ghost function AfterEscape(stop: Byte, cur: seq<Byte>, rest: seq<Byte>): seq<seq<Byte>> {
    if rest == [] then [cur]
    else InPiece(stop, if Escapable(rest[0]) then cur + [rest[0]] else cur, rest[1..])
  }

  lemma PieceStep(stop: Byte, cur: seq<Byte>, rest: seq<Byte>)
    requires rest != []
    ensures InPiece(stop, cur, rest) ==
            if rest[0] == stop then [cur] + Tokens(rest[1..])
            else if rest[0] == ESCAPE then AfterEscape(stop, cur, rest[1..])
            else InPiece(stop, cur + [rest[0]], rest[1..])
  {
    if rest[0] == stop {
      assert cur + [] == cur;
    } else if rest[0] == ESCAPE {
      if |rest| == 1 {
        assert cur + [] == cur && [cur] + [] == [cur];
      } else {
        assert rest[1..][1..] == rest[2..];
        var t := Piece(rest[2..], stop).0;
        assert cur + ([rest[1]] + t) == cur + [rest[1]] + t;
      }
    } else {
      var t := Piece(rest[1..], stop).0;
      assert cur + ([rest[0]] + t) == cur + [rest[0]] + t;
    }
  }

  lemma SpaceStep(rest: seq<Byte>)
    requires rest != [] && rest[0] != SPACE
    ensures rest[0] == QUOTE ==> Tokens(rest) == InPiece(QUOTE, [], rest[1..])
    ensures rest[0] == ESCAPE ==> Tokens(rest) == AfterEscape(SPACE, [], rest[1..])
    ensures rest[0] != QUOTE && rest[0] != ESCAPE ==> Tokens(rest) == InPiece(SPACE, [rest[0]], rest[1..])
  {
    if rest[0] != QUOTE {
      PieceStep(SPACE, [], rest);
      assert [] + Piece(rest, SPACE).0 == Piece(rest, SPACE).0;
      assert [] + [rest[0]] == [rest[0]];
    } else {
      assert [] + Piece(rest[1..], QUOTE).0 == Piece(rest[1..], QUOTE).0;
    }
  }

  /** State, output (-1 for none) and end of argument for one character. */
  ghost function Next(st: State, c: Byte): (State, int, bool) {
    match st
    case Space =>
      if c == SPACE then (Space, -1, false)
      else if c == QUOTE then (QuotedArg, -1, false)
      else if c == ESCAPE then (ArgEscaped, -1, false)
      else (Arg, c, false)
    case ArgEscaped => (Arg, if Escapable(c) then c else -1, false)
    case QuotedArgEscaped => (QuotedArg, if Escapable(c) then c else -1, false)
    case _ =>
      if c == Stop(st) then (st, -1, true)
      else if c == ESCAPE then (if st == Arg then ArgEscaped else QuotedArgEscaped, -1, false)
      else (st, c, false)
  }

  /** One character moves the state machine along the reference tokenizer. */
  lemma ContStep(st: State, cur: seq<Byte>, rest: seq<Byte>)
    requires rest != [] && (st == Space ==> cur == [])
    ensures var (st', out, ended) := Next(st, rest[0]);
            && (ended ==> Cont(st, cur, rest) == [cur] + Cont(Space, [], rest[1..]))
            && (!ended && 0 <= out < 0x100 ==> Cont(st, cur, rest) == Cont(st', cur + [out], rest[1..]))
            && (!ended && out < 0 ==> Cont(st, cur, rest) == Cont(st', cur, rest[1..]))
            && -1 <= out < 0x100
  {
    match st
    case Space =>
      if rest[0] != SPACE { SpaceStep(rest); }
      assert [] + [rest[0]] == [rest[0]];
    case Arg => PieceStep(SPACE, cur, rest);
    case QuotedArg => PieceStep(QUOTE, cur, rest);
    case _ =>
  }

  function Take(args: seq<seq<Byte>>, limit: nat): seq<seq<Byte>> {
    if |args| <= limit then args else args[..limit]
  }

  /** The text of the line: the bytes before the first NUL. */
  ghost function Text(line: seq<Byte>): (s: seq<Byte>)
    requires 0 in line
    ensures |s| < |line| && line[..|s|] == s && line[|s|] == 0 && 0 !in s
  {
    if line[0] == 0 then [] else [line[0]] + Text(line[1..])
  }

  /** The switch of the source for one character; an ended argument outputs its terminator. */
  method Feed(st: State, charIn: Byte) returns (state: State, charOut: int, ended: bool)
    ensures var (st', out, done) := Next(st, charIn);
            ended == done && (if ended then state == Space && charOut == 0 else state == st' && charOut == out)
  {
    state, charOut, ended := st, -1, false;
    match st {
      case Space =>
        if charIn == SPACE {
        } else if charIn == QUOTE {
          state := QuotedArg;
        } else if charIn == ESCAPE {
          state := ArgEscaped;
        } else {
          state := Arg;
          charOut := charIn;
        }
      case QuotedArg =>
        if charIn == QUOTE {
          charOut, state, ended := 0, Space, true;
        } else if charIn == ESCAPE {
          state := QuotedArgEscaped;
        } else {
          charOut := charIn;
        }
      case Arg =>
        if charIn == SPACE {
          charOut, state, ended := 0, Space, true;
        } else if charIn == ESCAPE {
          state := ArgEscaped;
        } else {
          charOut := charIn;
        }
      case _ =>
        if Escapable(charIn) { charOut := charIn; }
        state := if st == ArgEscaped then Arg else QuotedArg;
    }
  }

  method PutByte(line: array<Byte>, at: nat, c: Byte)
    requires at < line.Length
    modifies line
    ensures line[..at + 1] == old(line[..at]) + [c] && line[at + 1..] == old(line[at + 1..])
  {
    line[at] := c;
  }

  lemma EndArg(done: seq<seq<Byte>>, cur: seq<Byte>, more: seq<seq<Byte>>)
    ensures done + ([cur] + more) == done + [cur] + more
    ensures Packed(done + [cur]) == Packed(done) + cur + [0]
    ensures Starts(done + [cur]) == Starts(done) + [Some(|Packed(done)|)]
  {
    PackedNext(done, cur);
  }

  /** When the loop ends the arguments are complete, up to the one that the line ended in. */
  lemma Finish(text: seq<Byte>, done: seq<seq<Byte>>, st: State, cur: seq<Byte>, rest: seq<Byte>, limit: nat)
    requires Tokens(text) == done + Cont(st, cur, rest) && |done| <= limit
    requires |done| < limit ==> rest == []
    requires if st == Space then cur == [] else |done| < limit
    ensures Take(Tokens(text), limit) == if st == Space then done else done + [cur]
    ensures Packed(done + [cur]) == Packed(done) + cur + [0]
    ensures Starts(done + [cur]) == Starts(done) + [Some(|Packed(done)|)]
  {
    PackedNext(done, cur);
    if st != Space {
      assert cur + [] == cur && [cur] + [] == [cur];
    } else if rest == [] {
      assert done + [] == done;
    }
  }

  /** Memory in the middle of a line: finished arguments, then the begun one. */
  ghost predicate Layout(line: seq<Byte>, argv: seq<Option<nat>>, st: State, argc: nat, start: nat, outPtr: nat,
                         done: seq<seq<Byte>>, cur: seq<Byte>) {
    && outPtr <= |line| && argc <= |argv|
    && line[..outPtr] == Packed(done) + cur
    && argv[..argc] == Starts(done)
    && (if st == Space then cur == [] else start == |Packed(done)|)
  }

  /** One step of the state machine on finished arguments and the begun one. */
  ghost predicate Moved(st: State, done: seq<seq<Byte>>, cur: seq<Byte>, c: Byte,
                        st': State, done': seq<seq<Byte>>, cur': seq<Byte>) {
    var (n, out, ended) := Next(st, c);
    if ended then st' == Space && done' == done + [cur] && cur' == []
    else st' == n && done' == done && cur' == if 0 <= out < 0x100 then cur + [out] else cur
  }

  lemma Follow(st: State, done: seq<seq<Byte>>, cur: seq<Byte>, rest: seq<Byte>,
               st': State, done': seq<seq<Byte>>, cur': seq<Byte>)
    requires rest != [] && (st == Space ==> cur == []) && Moved(st, done, cur, rest[0], st', done', cur')
    ensures done + Cont(st, cur, rest) == done' + Cont(st', cur', rest[1..])
  {
    ContStep(st, cur, rest);
    EndArg(done, cur, Cont(Space, [], rest[1..]));
  }

  /** The loop body of the source behind the read of `charIn`. */
  method Advance(line: array<Byte>, argv: array<Option<nat>>, st: State, argc0: nat, start0: nat, out0: nat, charIn: Byte,
                 ghost end: nat, ghost done0: seq<seq<Byte>>, ghost cur0: seq<Byte>)
    returns (state: State, argc: nat, start: nat, outPtr: nat, ghost done: seq<seq<Byte>>, ghost cur: seq<Byte>)
    requires line as object != argv && out0 < end <= line.Length && argc0 < argv.Length
    requires Layout(line[..], argv[..], st, argc0, start0, out0, done0, cur0)
    modifies line, argv
    ensures Layout(line[..], argv[..], state, argc, start, outPtr, done, cur)
    ensures out0 <= outPtr <= out0 + 1 && argc0 <= argc <= argc0 + 1
    ensures line[end..] == old(line[..])[end..] && argv[argc..] == old(argv[..])[argc..]
    ensures Moved(st, done0, cur0, charIn, state, done, cur)
    ensures argc - argc0 == |done| - |done0| && (argc > argc0 ==> state == Space)
  {
    argc, start, outPtr, done, cur := argc0, start0, out0, done0, cur0;
    if st == Space && charIn != SPACE { start := outPtr; }
    var charOut, ended;
    state, charOut, ended := Feed(st, charIn);
    EndArg(done0, cur0, []);
    if ended {
      argv[argc] := Some(start);
      argc := argc + 1;
      done, cur := done0 + [cur0], [];
    } else if charOut >= 0 {
      cur := cur0 + [charOut];
    }
    ghost var bytes := line[..];
    if charOut >= 0 {
      PutByte(line, outPtr, charOut);
      Suffix(line[..], bytes, outPtr + 1, end);
      outPtr := outPtr + 1;
    }
  }

  lemma Suffix<T>(x: seq<T>, y: seq<T>, i: nat, j: nat)
    requires i <= j <= |x| == |y| && x[i..] == y[i..]
    ensures x[j..] == y[j..]
  {
    assert x[j..] == x[i..][j - i..] && y[j..] == y[i..][j - i..];
  }

  /** What the source does behind the loop; `end` is behind the terminator of the line. */
  method Terminate(line: array<Byte>, argv: array<Option<nat>>, argvSize: nat, st: State, argc0: nat, start: nat,
                   outPtr: nat, ghost end: nat, ghost done: seq<seq<Byte>>, ghost cur: seq<Byte>)
    returns (argc: nat)
    requires line as object != argv && outPtr < end <= line.Length && argc0 < argvSize <= argv.Length
    requires Layout(line[..], argv[..], st, argc0, start, outPtr, done, cur)
    requires st != Space ==> argc0 < argvSize - 1
    modifies line, argv
    ensures var toks := if st == Space then done else done + [cur];
            && argc == (if st == Space then argc0 else argc0 + 1) && argc < argvSize
            && |Packed(toks)| <= end
            && line[..|Packed(toks)|] == Packed(toks)
            && argv[..argc + 1] == Starts(toks) + [None]
    ensures line[end..] == old(line[end..]) && argv[argc + 1..] == old(argv[..])[argc + 1..]
  {
    argc := argc0;
    EndArg(done, cur, []);
    ghost var bytes := line[..];
    PutByte(line, outPtr, 0);
    Suffix(line[..], bytes, outPtr + 1, end);
    assert st == Space ==> line[..|Packed(done)|] == line[..outPtr + 1][..outPtr];
    if st != Space && argc < argvSize - 1 {
      argv[argc] := Some(start);
      argc := argc + 1;
    }
    argv[argc] := None;
  }

  /** The loop of the source. */
  method Scan(line: array<Byte>, argv: array<Option<nat>>, limit: nat)
    returns (state: State, argc: nat, start: nat, outPtr: nat, ghost done: seq<seq<Byte>>, ghost cur: seq<Byte>,
             ghost rest: seq<Byte>)
    requires 0 in line[..] && limit < argv.Length && line as object != argv
    modifies line, argv
    ensures var text := Text(old(line[..]));
            && outPtr <= |text| && argc == |done| <= limit
            && Layout(line[..], argv[..], state, argc, start, outPtr, done, cur)
            && Tokens(text) == done + Cont(state, cur, rest)
            && (argc < limit ==> rest == []) && (state != Space ==> argc < limit)
            && line[|text| + 1..] == old(line[..])[|text| + 1..]
    ensures argv[argc..] == old(argv[..])[argc..]
  {
    ghost var orig, text, args := line[..], Text(line[..]), argv[..];
    done, cur, rest := [], [], text;
    state := Space;
    argc, start, outPtr := 0, 0, 0;
    var inPtr := 0;
    while argc < limit
      invariant 0 <= outPtr <= inPtr <= |text| && line[inPtr..] == orig[inPtr..]
      invariant argc == |done| <= limit && argv[argc..] == args[argc..]
      invariant Layout(line[..], argv[..], state, argc, start, outPtr, done, cur)
      invariant rest == text[inPtr..] && Tokens(text) == done + Cont(state, cur, rest)
      invariant state != Space ==> argc < limit
      decreases |text| - inPtr
    {
      var charIn := line[inPtr];
      assert charIn == orig[inPtr];
      if charIn == 0 { break; }
      assert rest[1..] == text[inPtr + 1..];
      Suffix(line[..], orig, inPtr, inPtr + 1);
      ghost var st0, done0, cur0, n, args0 := state, done, cur, argc, argv[..];
      state, argc, start, outPtr, done, cur := Advance(line, argv, state, argc, start, outPtr, charIn, inPtr + 1, done, cur);
      Suffix(args0, args, n, argc);
      Follow(st0, done0, cur0, rest, state, done, cur);
      inPtr := inPtr + 1;
      rest := rest[1..];
    }
    Suffix(line[..], orig, inPtr, |text| + 1);
  }

  lemma {:induction false} TextOf(s: seq<Byte>, more: seq<Byte>)
    requires 0 !in s
    ensures Text(s + [0] + more) == s
  {
    var line := s + [0] + more;
    if s != [] {
      assert line[1..] == s[1..] + [0] + more && [s[0]] + s[1..] == s;
      TextOf(s[1..], more);
    }
  }

  /** A line in memory built by quoting and joining splits into the arguments it was built from. */
  lemma RoundTrip(args: seq<seq<Byte>>, more: seq<Byte>, argvSize: nat)
    requires forall i :: 0 <= i < |args| ==> 0 !in args[i]
    requires |args| < argvSize
    ensures Take(Tokens(Text(Join(args) + [0] + more)), argvSize - 1) == args
  {
    JoinHasNoNul(args);
    TextOf(Join(args), more);
    SplitOfJoin(args);
  }

  /** Splits the line in place.  `argv` entries are offsets into the line.  The arguments are those of
      the reference tokenizer, at most `argvSize - 1`, packed in order at the front of the line, and
      nothing behind the line's own terminator or the NULL entry changes. */
  method Split(line: array<Byte>, argv: array<Option<nat>>, argvSize: nat) returns (argc: nat)
    requires 0 in line[..] && 1 <= argvSize <= argv.Length && line as object != argv
    modifies line, argv
    ensures var toks := Take(Tokens(Text(old(line[..]))), argvSize - 1);
            && argc == |toks|
            && |Packed(toks)| <= |Text(old(line[..]))| + 1
            && line[..|Packed(toks)|] == Packed(toks)
            && argc < argvSize && argv[..argc + 1] == Starts(toks) + [None]
    ensures line[|Text(old(line[..]))| + 1..] == old(line[..])[|Text(old(line[..]))| + 1..]
    ensures argv[argc + 1..] == old(argv[..])[argc + 1..]
  {
    ghost var text, args := Text(line[..]), argv[..];
    ghost var done, cur, rest;
    var state, start, outPtr;
    state, argc, start, outPtr, done, cur, rest := Scan(line, argv, argvSize - 1);
    Finish(text, done, state, cur, rest, argvSize - 1);
    ghost var n, before := argc, argv[..];
    argc := Terminate(line, argv, argvSize, state, argc, start, outPtr, |text| + 1, done, cur);
    Suffix(before, args, n, argc + 1);
  }
}
