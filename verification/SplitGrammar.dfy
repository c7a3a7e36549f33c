/** A grammar of command lines: what the splitter makes of every line, from the way it is written. */
module SplitGrammar {
  import opened Basics
  import opened SplitArgv

  // ------------------------------------------------------------------ written arguments

  /** A character as it stands, or behind a backslash. */
  datatype Unit = Plain(c: Byte) | Escaped(c: Byte)

  function Code(u: Unit): seq<Byte> {
    match u
    case Plain(c) => [c]
    case Escaped(c) => [0x5C, c]
  }

  /** A backslash keeps a space, a quote and a backslash; any other character behind it is dropped. */
  function Value(u: Unit): seq<Byte> {
    match u
    case Plain(c) => [c]
    case Escaped(c) => if c == 0x20 || c == 0x22 || c == 0x5C then [c] else []
  }

  function Codes(us: seq<Unit>): seq<Byte> {
    if us == [] then [] else Code(us[0]) + Codes(us[1..])
  }

  function Values(us: seq<Unit>): seq<Byte> {
    if us == [] then [] else Value(us[0]) + Values(us[1..])
  }

  /** No unit reads as the end of the argument, a space or a quote, or begins an escape. */
  predicate Inside(us: seq<Unit>, stop: Byte) {
    forall i :: 0 <= i < |us| && us[i].Plain? ==> us[i].c != stop && us[i].c != 0x5C
  }

  /** An argument without quotes, which begins with neither space nor quote, or one in quotes. */
  datatype Written = Bare(units: seq<Unit>) | Quoted(units: seq<Unit>)

  predicate Valid(w: Written) {
    match w
    case Bare(us) => us != [] && us[0] != Plain(0x22) && Inside(us, 0x20)
    case Quoted(us) => Inside(us, 0x22)
  }

  function Source(w: Written): seq<Byte> {
    match w
    case Bare(us) => Codes(us)
    case Quoted(us) => [0x22] + Codes(us) + [0x22]
  }

  function Blanks(n: nat): (s: seq<Byte>)
    ensures |s| == n
  {
    if n == 0 then [] else [0x20] + Blanks(n - 1)
  }

  // ------------------------------------------------------------------ written lines

  /** How a line ends: in blanks, in a quote that is not closed, or in a lone backslash, which may
      itself stand in such a quote. */
  datatype End = AtBlanks(gap: nat) | InQuote(gap: nat, units: seq<Unit>, lone: bool) | AtEscape(gap: nat, units: seq<Unit>)

  /** Arguments, each with the number of blanks before it. */
  datatype Line = Ends(end: End) | More(gap: nat, w: Written, next: Line)

  function Lone(lone: bool): seq<Byte> { if lone then [0x5C] else [] }

  function EndText(e: End): seq<Byte> {
    match e
    case AtBlanks(gap) => Blanks(gap)
    case InQuote(gap, us, lone) => Blanks(gap) + ([0x22] + (Codes(us) + Lone(lone)))
    case AtEscape(gap, us) => Blanks(gap) + (Codes(us) + Lone(true))
  }

  function LineText(l: Line): seq<Byte> {
    match l
    case Ends(e) => EndText(e)
    case More(gap, w, next) => Blanks(gap) + (Source(w) + LineText(next))
  }

  predicate EndOk(e: End) {
    match e
    case AtBlanks(_) => true
    case InQuote(_, us, _) => Inside(us, 0x22)
    case AtEscape(_, us) => (us == [] || us[0] != Plain(0x22)) && Inside(us, 0x20)
  }

  /** Blanks before the next argument, or the end of the line. */
  predicate Apart(l: Line) {
    match l
    case Ends(AtBlanks(_)) => true
    case Ends(e) => e.gap > 0
    case More(gap, _, _) => gap > 0
  }

  /** Behind an argument without quotes there is a blank or the end of the line; behind a closing quote
      anything may follow. */
  predicate LineOk(l: Line) {
    match l
    case Ends(e) => EndOk(e)
    case More(_, w, next) => Valid(w) && LineOk(next) && (w.Bare? ==> Apart(next))
  }

  function Arguments(l: Line): seq<seq<Byte>> {
    match l
    case Ends(AtBlanks(_)) => []
    case Ends(e) => [Values(e.units)]
    case More(_, w, next) => [Values(w.units)] + Arguments(next)
  }

  // ------------------------------------------------------------------ what the splitter makes of them

  lemma PieceUnit(u: Unit, stop: Byte, tail: seq<Byte>)
    requires u.Plain? ==> u.c != stop && u.c != 0x5C
    requires stop != 0x5C
    ensures Piece(Code(u) + tail, stop) == (Value(u) + Piece(tail, stop).0, Piece(tail, stop).1)
  {
    var s := Code(u) + tail;
    if u.Plain? {
      assert s[1..] == tail;
    } else {
      assert s[2..] == tail;
      assert [] + Piece(tail, stop).0 == Piece(tail, stop).0;
    }
  }

  lemma {:induction false} PieceOfUnits(us: seq<Unit>, stop: Byte, tail: seq<Byte>)
    requires Inside(us, stop) && stop != 0x5C
    ensures Piece(Codes(us) + tail, stop) == (Values(us) + Piece(tail, stop).0, Piece(tail, stop).1)
  {
    if us == [] {
      assert Codes(us) + tail == tail && Values(us) + Piece(tail, stop).0 == Piece(tail, stop).0;
    } else {
      var rest := us[1..];
      assert Inside(rest, stop) by { assert forall i :: 0 <= i < |rest| ==> rest[i] == us[i + 1]; }
      PieceOfUnits(rest, stop, tail);
      PieceUnit(us[0], stop, Codes(rest) + tail);
      Assoc(Code(us[0]), Codes(rest), tail);
      Assoc(Value(us[0]), Values(rest), Piece(tail, stop).0);
    }
  }

  lemma {:induction false} SkipBlanks(n: nat, s: seq<Byte>)
    ensures Tokens(Blanks(n) + s) == Tokens(s)
  {
    if n == 0 {
      assert Blanks(n) + s == s;
    } else {
      assert (Blanks(n) + s)[1..] == Blanks(n - 1) + s;
      SkipBlanks(n - 1, s);
    }
  }

  /** The piece ends with the input, or at a `stop` that is followed by `rest`. */
  lemma PieceEnd(stop: Byte, rest: seq<Byte>)
    ensures stop != 0x5C ==> Piece([], stop) == Piece([0x5C], stop) == ([], [])
    ensures Piece([stop] + rest, stop) == ([], rest)
  {
    assert ([stop] + rest)[1..] == rest;
  }

  lemma TokensOfUnits(us: seq<Unit>, tail: seq<Byte>)
    requires Codes(us) + tail != [] && (us == [] ==> tail[0] != 0x20 && tail[0] != 0x22)
    requires us != [] ==> us[0] != Plain(0x22)
    requires Inside(us, 0x20)
    ensures Tokens(Codes(us) + tail) == [Values(us) + Piece(tail, 0x20).0] + Tokens(Piece(tail, 0x20).1)
  {
    PieceOfUnits(us, 0x20, tail);
    var s := Codes(us) + tail;
    if us == [] { assert s == tail; } else { assert s[0] == Code(us[0])[0]; }
  }

  lemma TokensInQuotes(us: seq<Unit>, tail: seq<Byte>)
    requires Inside(us, 0x22)
    ensures Tokens([0x22] + (Codes(us) + tail)) == [Values(us) + Piece(tail, 0x22).0] + Tokens(Piece(tail, 0x22).1)
  {
    PieceOfUnits(us, 0x22, tail);
    assert ([0x22] + (Codes(us) + tail))[1..] == Codes(us) + tail;
  }

  lemma EndTokens(e: End)
    requires EndOk(e)
    ensures Tokens(EndText(e)) == Arguments(Ends(e))
  {
    match e
    case AtBlanks(gap) =>
      SkipBlanks(gap, []);
      assert Blanks(gap) + [] == Blanks(gap);
    case InQuote(gap, us, lone) =>
      SkipBlanks(gap, [0x22] + (Codes(us) + Lone(lone)));
      TokensInQuotes(us, Lone(lone));
      PieceEnd(0x22, []);
      assert Values(us) + [] == Values(us);
    case AtEscape(gap, us) =>
      SkipBlanks(gap, Codes(us) + Lone(true));
      TokensOfUnits(us, Lone(true));
      PieceEnd(0x20, []);
      assert Values(us) + [] == Values(us);
  }

  /** Behind an argument without quotes the rest of the line begins with a blank, or is empty. */
  lemma AfterBare(l: Line)
    requires Apart(l)
    ensures Piece(LineText(l), 0x20).0 == [] && Tokens(Piece(LineText(l), 0x20).1) == Tokens(LineText(l))
  {
    var s := LineText(l);
    PieceEnd(0x20, []);
    if s != [] {
      assert s[0] == 0x20;
      PieceEnd(0x20, s[1..]);
    }
  }

  lemma BareTokens(us: seq<Unit>, next: Line)
    requires Valid(Bare(us)) && Apart(next)
    ensures Tokens(Codes(us) + LineText(next)) == [Values(us)] + Tokens(LineText(next))
  {
    TokensOfUnits(us, LineText(next));
    AfterBare(next);
    assert Values(us) + [] == Values(us);
  }

  lemma QuotedSource(us: seq<Unit>, tail: seq<Byte>)
    ensures Source(Quoted(us)) + tail == [0x22] + (Codes(us) + ([0x22] + tail))
  {
    Assoc([0x22] + Codes(us), [0x22], tail);
    Assoc([0x22], Codes(us), [0x22] + tail);
  }

  lemma QuotedTokens(us: seq<Unit>, tail: seq<Byte>)
    requires Inside(us, 0x22)
    ensures Tokens(Source(Quoted(us)) + tail) == [Values(us)] + Tokens(tail)
  {
    QuotedSource(us, tail);
    TokensInQuotes(us, [0x22] + tail);
    PieceEnd(0x22, tail);
    assert Values(us) + [] == Values(us);
  }

  /** The arguments of a line are the values of what is written, for every way of writing them. */
  lemma {:induction false} TokensOfLine(l: Line)
    requires LineOk(l)
    ensures Tokens(LineText(l)) == Arguments(l)
  {
    match l
    case Ends(e) => EndTokens(e);
    case More(gap, w, next) =>
      SkipBlanks(gap, Source(w) + LineText(next));
      TokensOfLine(next);
      if w.Bare? { BareTokens(w.units, next); } else { QuotedTokens(w.units, LineText(next)); }
  }

  // ------------------------------------------------------------------ every line is written so

  /** The units up to an end; `rest` begins with `stop`, is a lone backslash, or is empty. */
  lemma {:induction false} ReadUnits(s: seq<Byte>, stop: Byte) returns (us: seq<Unit>, rest: seq<Byte>)
    requires stop != 0x5C
    ensures s == Codes(us) + rest && Inside(us, stop) && |rest| <= |s|
    ensures rest == [] || rest[0] == stop || rest == [0x5C]
    ensures us == [] ==> rest == s
    ensures us != [] ==> |rest| < |s| && (us[0].Plain? ==> us[0].c == s[0])
  {
    if s == [] || s[0] == stop || s == [0x5C] {
      us, rest := [], s;
      assert s == Codes(us) + rest;
    } else {
      var u := if s[0] == 0x5C then Escaped(s[1]) else Plain(s[0]);
      var more;
      more, rest := ReadUnits(s[|Code(u)|..], stop);
      us := [u] + more;
      assert us[1..] == more;
      assert s == Code(u) + s[|Code(u)|..];
      Assoc(Code(u), Codes(more), rest);
    }
  }

  function WithGap(l: Line): Line {
    match l
    case Ends(AtBlanks(gap)) => Ends(AtBlanks(gap + 1))
    case Ends(InQuote(gap, us, lone)) => Ends(InQuote(gap + 1, us, lone))
    case Ends(AtEscape(gap, us)) => Ends(AtEscape(gap + 1, us))
    case More(gap, w, next) => More(gap + 1, w, next)
  }

  lemma OneMoreBlank(l: Line)
    ensures LineText(WithGap(l)) == [0x20] + LineText(l)
    ensures LineOk(l) ==> LineOk(WithGap(l)) && Apart(WithGap(l))
  {
    match l
    case Ends(AtBlanks(_)) =>
    case Ends(InQuote(gap, us, lone)) => Assoc([0x20], Blanks(gap), [0x22] + (Codes(us) + Lone(lone)));
    case Ends(AtEscape(gap, us)) => Assoc([0x20], Blanks(gap), Codes(us) + Lone(true));
    case More(gap, w, next) => Assoc([0x20], Blanks(gap), Source(w) + LineText(next));
  }

  lemma NoBlank(s: seq<Byte>)
    ensures Blanks(0) + s == s
  {}

  lemma {:induction false} ReadQuoted(s: seq<Byte>) returns (l: Line)
    requires s != [] && s[0] == 0x22
    ensures LineOk(l) && LineText(l) == s
    decreases |s|, 0
  {
    var us, rest := ReadUnits(s[1..], 0x22);
    HeadTail(s);
    NoBlank(s);
    if rest != [] && rest[0] == 0x22 {
      var next := ReadLine(rest[1..]);
      HeadTail(rest);
      QuotedSource(us, LineText(next));
      l := More(0, Quoted(us), next);
    } else {
      l := Ends(InQuote(0, us, rest == [0x5C]));
    }
  }

  lemma {:induction false} ReadBare(s: seq<Byte>) returns (l: Line)
    requires s != [] && s[0] != 0x22 && s[0] != 0x20
    ensures LineOk(l) && LineText(l) == s
    decreases |s|, 0
  {
    var us, rest := ReadUnits(s, 0x20);
    NoBlank(s);
    if rest == [0x5C] {
      l := Ends(AtEscape(0, us));
    } else if rest == [] {
      l := More(0, Bare(us), Ends(AtBlanks(0)));
    } else {
      var next := ReadLine(rest[1..]);
      OneMoreBlank(next);
      l := More(0, Bare(us), WithGap(next));
      assert rest == [0x20] + rest[1..];
    }
  }

  /** Every line is written in this grammar. */
  lemma {:induction false} ReadLine(s: seq<Byte>) returns (l: Line)
    ensures LineOk(l) && LineText(l) == s
    decreases |s|, 1
  {
    if s == [] {
      l := Ends(AtBlanks(0));
    } else if s[0] == 0x20 {
      var next := ReadLine(s[1..]);
      OneMoreBlank(next);
      l := WithGap(next);
      assert s == [0x20] + s[1..];
    } else if s[0] == 0x22 {
      l := ReadQuoted(s);
    } else {
      l := ReadBare(s);
    }
  }

  /** So what the splitter returns is told from the way the line is written, for every line. */
  lemma EveryLineIsWritten(s: seq<Byte>)
    ensures exists l :: LineOk(l) && LineText(l) == s && Tokens(s) == Arguments(l)
  {
    var l := ReadLine(s);
    TokensOfLine(l);
  }

  // ------------------------------------------------------------------ arguments without quotes

  /** Space, quote and backslash each behind a backslash. */
  function Escape(arg: seq<Byte>): seq<Unit> {
    if arg == [] then []
    else
      var c := arg[0];
      [if c == 0x20 || c == 0x22 || c == 0x5C then Escaped(c) else Plain(c)] + Escape(arg[1..])
  }

  /** Arguments written without quotes, with single spaces between them. */
  function BareLine(args: seq<seq<Byte>>, gap: nat): Line {
    if args == [] then Ends(AtBlanks(0)) else More(gap, Bare(Escape(args[0])), BareLine(args[1..], 1))
  }

  lemma {:induction false} EscapeOk(arg: seq<Byte>)
    ensures Inside(Escape(arg), 0x20) && Values(Escape(arg)) == arg
    ensures arg != [] ==> Escape(arg) != [] && Escape(arg)[0] != Plain(0x22)
    ensures 0 !in arg ==> 0 !in Codes(Escape(arg))
  {
    if arg != [] {
      EscapeOk(arg[1..]);
      var us := Escape(arg);
      assert us[1..] == Escape(arg[1..]);
      forall i | 0 <= i < |us| && us[i].Plain? ensures us[i].c != 0x20 && us[i].c != 0x5C {
        if i > 0 { assert us[i] == us[1..][i - 1]; }
      }
      assert [arg[0]] + arg[1..] == arg;
    }
  }

  lemma {:induction false} BareLineOk(args: seq<seq<Byte>>, gap: nat)
    requires forall i :: 0 <= i < |args| ==> args[i] != [] && 0 !in args[i]
    ensures var l := BareLine(args, gap);
            LineOk(l) && Arguments(l) == args && (gap > 0 ==> Apart(l)) && 0 !in LineText(l)
    decreases |args|
  {
    if args != [] {
      EscapeOk(args[0]);
      BareLineOk(args[1..], 1);
      BlanksHaveNoNul(gap);
      assert [args[0]] + args[1..] == args;
    }
  }

  lemma {:induction false} BlanksHaveNoNul(n: nat)
    ensures 0 !in Blanks(n)
  {
    if n > 0 { BlanksHaveNoNul(n - 1); }
  }

  /** Non-empty arguments written without quotes, each space, quote and backslash behind a backslash,
      come back from memory as they were. */
  lemma BareRoundTrip(args: seq<seq<Byte>>, more: seq<Byte>, argvSize: nat)
    requires forall i :: 0 <= i < |args| ==> args[i] != [] && 0 !in args[i]
    requires |args| < argvSize
    ensures Take(Tokens(Text(LineText(BareLine(args, 0)) + [0] + more)), argvSize - 1) == args
  {
    BareLineOk(args, 0);
    TextOf(LineText(BareLine(args, 0)), more);
    TokensOfLine(BareLine(args, 0));
  }
}
