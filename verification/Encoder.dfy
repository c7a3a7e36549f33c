/** The knife encoder: a 14-bit angle sensor unwrapped into an absolute count by counting turns. */
module Encoder {
  import opened Arithmetic

  const ANGLE_MAX: int := 0x4000
  const WRAP_THRESHOLD: int := 0x2000
  const WORD: nat := 0x1_0000_0000

  type Int32 = x: int | -0x8000_0000 <= x < 0x8000_0000

  /** 32-bit signed arithmetic. */
  function Wrap(x: int): Int32 {
    (x + 0x8000_0000) % WORD - 0x8000_0000
  }

  /** Numbers a multiple of 2^32 apart wrap to the same number. */
  lemma WrapShift(x: int, q: int)
    ensures Wrap(x + q * WORD) == Wrap(x)
  {
    ModShift(x + 0x8000_0000, q, WORD);
    assert x + q * WORD + 0x8000_0000 == x + 0x8000_0000 + q * WORD;
  }

  lemma WrapIsShift(x: int) returns (q: int)
    ensures Wrap(x) == x + q * WORD
  {
    var y := x + 0x8000_0000;
    assert y == y / WORD * WORD + y % WORD;
    q := -(y / WORD);
    assert q * WORD == -(y / WORD * WORD);
  }

  // ------------------------------------------------------------------ one reading

  datatype Data = Data(angle: int, revolution: Int32)

  const HOME: Data := Data(0, 0)

  /** The turn that two readings in a row are taken for. */
  function Turn(was: int, now: int): int {
    if was - now > WRAP_THRESHOLD then 1 else if was - now < -WRAP_THRESHOLD then -1 else 0
  }

  function Next(e: Data, angle: int): Data {
    Data(angle, Wrap(e.revolution + Turn(e.angle, angle)))
  }

  function Count(e: Data): Int32 {
    Wrap(Wrap(e.revolution * ANGLE_MAX) + e.angle)
  }

  /** The sensor shows the position modulo one turn. */
  function Reading(position: int): (a: nat)
    ensures a < ANGLE_MAX
  {
    position % ANGLE_MAX
  }

  /** A move is counted right exactly when it is shorter than half a turn, or is half a turn that
      stays inside one turn. */
  lemma MoveIsSeenIff(p: int, q: int)
    ensures Turn(Reading(p), Reading(q)) * 16384 + Reading(q) - Reading(p) == q - p
       <==> || -8192 < q - p < 8192
            || (q - p == 8192 && p % 16384 < 8192)
            || (q - p == -8192 && p % 16384 >= 8192)
  {
    var m, n := p / ANGLE_MAX, q / ANGLE_MAX;
    assert p == m * ANGLE_MAX + Reading(p) && q == n * ANGLE_MAX + Reading(q);
  }

  // ------------------------------------------------------------------ runs

  /** The data stand for a position: its reading, and its number of whole turns. */
  ghost predicate StandsFor(e: Data, position: int) {
    e.angle == Reading(position) && e.revolution == Wrap(position / ANGLE_MAX)
  }

  /** The count is the position in 32-bit arithmetic; nothing is lost when the turns wrap. */
  lemma CountIsPosition(e: Data, position: int)
    requires StandsFor(e, position)
    ensures Count(e) == Wrap(position)
    ensures -0x8000_0000 <= position < 0x8000_0000 ==> Count(e) == position
  {
    var turns := position / ANGLE_MAX;
    assert position == turns * ANGLE_MAX + Reading(position);
    var q := WrapIsShift(turns);
    var r := WrapIsShift(e.revolution * ANGLE_MAX);
    assert e.revolution * ANGLE_MAX == turns * ANGLE_MAX + q * ANGLE_MAX * WORD;
    assert Wrap(e.revolution * ANGLE_MAX) + e.angle == position + (q * ANGLE_MAX + r) * WORD;
    WrapShift(position, q * ANGLE_MAX + r);
  }

  lemma StepTracks(e: Data, p: int, q: int)
    requires StandsFor(e, p) && -WRAP_THRESHOLD < q - p < WRAP_THRESHOLD
    ensures StandsFor(Next(e, Reading(q)), q)
  {
    var m, n, t := p / ANGLE_MAX, q / ANGLE_MAX, Turn(Reading(p), Reading(q));
    assert p == m * ANGLE_MAX + Reading(p) && q == n * ANGLE_MAX + Reading(q);
    MoveIsSeenIff(p, q);
    assert n == m + t;
    var k := WrapIsShift(m);
    WrapShift(n, k);
    assert e.revolution + t == n + k * WORD;
  }

  function Run(e: Data, readings: seq<int>): Data
    decreases |readings|
  {
    if readings == [] then e else Run(Next(e, readings[0]), readings[1..])
  }

  function Readings(positions: seq<int>): (r: seq<int>)
    ensures |r| == |positions|
  {
    if positions == [] then [] else [Reading(positions[0])] + Readings(positions[1..])
  }

  /** Every move in the run is shorter than half a turn. */
  predicate Slow(from: int, positions: seq<int>)
    decreases |positions|
  {
    positions == []
    || (-WRAP_THRESHOLD < positions[0] - from < WRAP_THRESHOLD && Slow(positions[0], positions[1..]))
  }

  /** The length of move `i` of a run. */
  function Move(from: int, positions: seq<int>, i: nat): int
    requires i < |positions|
  {
    positions[i] - if i == 0 then from else positions[i - 1]
  }

  lemma {:induction false} SlowIff(from: int, positions: seq<int>)
    ensures Slow(from, positions) <==> forall i :: 0 <= i < |positions| ==> -8192 < Move(from, positions, i) < 8192
    decreases |positions|
  {
    if positions != [] {
      var p, rest := positions[0], positions[1..];
      SlowIff(p, rest);
      forall i | 0 <= i < |rest| ensures Move(p, rest, i) == Move(from, positions, i + 1) {}
      assert Move(from, positions, 0) == p - from;
      if Slow(from, positions) {
        forall i | 0 <= i < |positions| ensures -8192 < Move(from, positions, i) < 8192 {
          if i > 0 { assert Move(p, rest, i - 1) == Move(from, positions, i); }
        }
      }
    }
  }

  function Last(from: int, positions: seq<int>): int
    decreases |positions|
  {
    if positions == [] then from else Last(positions[0], positions[1..])
  }

  /** However long the run and however many turns either way, the data stand for the last position. */
  lemma {:induction false} RunTracks(e: Data, from: int, positions: seq<int>)
    requires StandsFor(e, from) && Slow(from, positions)
    ensures StandsFor(Run(e, Readings(positions)), Last(from, positions))
    decreases |positions|
  {
    if positions != [] {
      var p, rest := positions[0], positions[1..];
      StepTracks(e, from, p);
      RunTracks(Next(e, Reading(p)), p, rest);
      assert ([Reading(p)] + Readings(rest))[1..] == Readings(rest);
    }
  }

  /** Where a reading lies within half a turn of the encoder's zero. */
  function Nearest(angle: nat): int {
    if angle <= WRAP_THRESHOLD then angle else angle - ANGLE_MAX
  }

  /** The first reading after homing is counted from the nearest zero of the encoder: its count is
      the one number in (-8192, 8192] that shows this reading. */
  lemma FirstReadingIff(angle: nat, c: int)
    requires angle < ANGLE_MAX
    ensures StandsFor(Next(HOME, angle), Nearest(angle))
    ensures -8192 < c <= 8192 && c % 16384 == angle <==> c == Count(Next(HOME, angle))
  {
    var z := Nearest(angle);
    DivUnique(z, if angle <= WRAP_THRESHOLD then 0 else -1, angle, ANGLE_MAX);
    CountIsPosition(Next(HOME, angle), z);
    SameRemainder(c, z, ANGLE_MAX);
    SameRemainder(z, c, ANGLE_MAX);
  }

  lemma ReadingShift(p: int, turns: int, offset: int)
    requires offset == turns * ANGLE_MAX
    ensures Reading(p + offset) == Reading(p)
  {
    ModShift(p, turns, ANGLE_MAX);
  }

  function Shifted(positions: seq<int>, offset: int): (r: seq<int>)
    ensures |r| == |positions|
  {
    if positions == [] then [] else [positions[0] + offset] + Shifted(positions[1..], offset)
  }

  lemma {:induction false} ShiftedMoves(from: int, positions: seq<int>, offset: int)
    ensures Slow(from + offset, Shifted(positions, offset)) == Slow(from, positions)
    ensures Last(from + offset, Shifted(positions, offset)) == Last(from, positions) + offset
    decreases |positions|
  {
    if positions != [] {
      var p, rest := positions[0], positions[1..];
      var more := Shifted(rest, offset);
      ShiftedMoves(p, rest, offset);
      assert ([p + offset] + more)[1..] == more;
    }
  }

  /** The sensor does not see whole turns. */
  lemma {:induction false} ShiftedReadings(positions: seq<int>, turns: int, offset: int)
    requires offset == turns * ANGLE_MAX
    ensures Readings(Shifted(positions, offset)) == Readings(positions)
    decreases |positions|
  {
    if positions != [] {
      var p, rest := positions[0], positions[1..];
      var more := Shifted(rest, offset);
      ReadingShift(p, turns, offset);
      ShiftedReadings(rest, turns, offset);
      assert ([p + offset] + more)[1..] == more;
    }
  }

  /** After homing, the count is the nearest zero's count of the first position plus the true
      displacement since, in 32-bit arithmetic, for any run of moves below half a turn. */
  lemma HomedRunTracks(first: int, positions: seq<int>)
    requires Slow(first, positions)
    ensures Count(Run(HOME, [Reading(first)] + Readings(positions)))
            == Wrap(Nearest(Reading(first)) + Last(first, positions) - first)
  {
    var z := Nearest(Reading(first));
    var e := Next(HOME, Reading(first));
    FirstReadingIff(Reading(first), z);
    assert first == first / ANGLE_MAX * ANGLE_MAX + Reading(first);
    var turns := (if Reading(first) <= WRAP_THRESHOLD then 0 else -1) - first / ANGLE_MAX;
    assert z == first + turns * ANGLE_MAX;
    ShiftedMoves(first, positions, turns * ANGLE_MAX);
    ShiftedReadings(positions, turns, turns * ANGLE_MAX);
    RunTracks(e, z, Shifted(positions, turns * ANGLE_MAX));
    CountIsPosition(Run(e, Readings(positions)), Last(first, positions) + turns * ANGLE_MAX);
    assert ([Reading(first)] + Readings(positions))[1..] == Readings(positions);
  }

  // ------------------------------------------------------------------ the objects

  datatype Error = Communication | ParityError | SensorError
  datatype Validity = NotHomedYet | Valid | EncoderError(error: Error)

  class EncoderData {
    var angle: int
    var revolution: Int32

    function Value(): Data
      reads this
    {
      Data(angle, revolution)
    }

    constructor ()
      ensures Value() == HOME
    {
      angle, revolution := 0, 0;
    }

    method Reset()
      modifies this
      ensures Value() == HOME
    {
      angle := 0;
      revolution := 0;
    }

    method Update(raw: nat)
      requires raw < 0x1_0000
      modifies this
      ensures Value() == Next(old(Value()), raw)
    {
      var delta := angle - raw;
      if delta > WRAP_THRESHOLD {
        revolution := Wrap(revolution + 1);
      } else if delta < -WRAP_THRESHOLD {
        revolution := Wrap(revolution - 1);
      }
      angle := raw;
    }

    method AbsoluteCount() returns (count: Int32)
      ensures count == Count(Value())
      ensures forall p :: StandsFor(Value(), p) ==> count == Wrap(p)
    {
      forall p | StandsFor(Value(), p) ensures Count(Value()) == Wrap(p) {
        CountIsPosition(Value(), p);
      }
      count := Wrap(Wrap(revolution * ANGLE_MAX) + angle);
    }
  }

  /** What happens to the state: a reading, the axis found home, or home lost. */
  datatype Event = Read(angle: nat) | Homed | Lost

  datatype State = State(data: Data, validity: Validity)

  const START: State := State(HOME, NotHomedYet)

  function React(s: State, e: Event): State {
    match e
    case Read(angle) => s.(data := Next(s.data, angle))
    case Homed => State(HOME, Valid)
    case Lost => s.(validity := NotHomedYet)
  }

  function Reacted(events: seq<Event>): State {
    if events == [] then START else React(Reacted(events[..|events| - 1]), events[|events| - 1])
  }

  /** The readings since the last homing; losing home does not interrupt them. */
  function SinceHomed(events: seq<Event>): seq<int> {
    if events == [] then []
    else
      var rest := SinceHomed(events[..|events| - 1]);
      match events[|events| - 1]
      case Read(angle) => rest + [angle]
      case Homed => []
      case Lost => rest
  }

  lemma {:induction false} RunAppend(e: Data, readings: seq<int>, angle: int)
    ensures Run(e, readings + [angle]) == Next(Run(e, readings), angle)
    decreases |readings|
  {
    if readings == [] {
      assert readings + [angle] == [angle] && [angle][1..] == readings;
      assert Run(e, [angle]) == Run(Next(e, angle), readings);
    } else {
      assert (readings + [angle])[1..] == readings[1..] + [angle];
      RunAppend(Next(e, readings[0]), readings[1..], angle);
    }
  }

  /** In every run of readings, homings and losses of home, the data count the readings since the last
      homing, also while home is lost; and the state is valid exactly when the last of the homings and
      losses was a homing. */
  lemma {:induction false} LostHomeKeepsCounting(events: seq<Event>)
    ensures Reacted(events).data == Run(HOME, SinceHomed(events))
    ensures Reacted(events).validity == Valid <==>
              exists i :: 0 <= i < |events| && events[i] == Homed && Lost !in events[i..]
  {
    if events != [] {
      var n := |events| - 1;
      var rest, e := events[..n], events[n];
      LostHomeKeepsCounting(rest);
      if e.Read? { RunAppend(HOME, SinceHomed(rest), e.angle); }
      forall i | 0 <= i <= n ensures events[i..] == rest[i..] + [e] {}
      if e == Homed { assert events[n] == Homed && Lost !in events[n..]; }
      if i :| 0 <= i < |rest| && rest[i] == Homed && Lost !in rest[i..] && e != Lost {
        assert events[i] == Homed && Lost !in events[i..];
      }
      if i :| 0 <= i < |events| && events[i] == Homed && Lost !in events[i..] {
        assert e in events[i..];
        if i < n { assert rest[i] == Homed && Lost !in rest[i..]; }
      }
    }
  }

  class EncoderState {
    const data: EncoderData
    var validity: Validity

    function Value(): State
      reads this, data
    {
      State(data.Value(), validity)
    }

    constructor ()
      ensures fresh(data) && Value() == START
    {
      data := new EncoderData();
      validity := NotHomedYet;
    }

    method OnHomed()
      modifies this, data
      ensures Value() == React(old(Value()), Homed)
    {
      validity := Valid;
      data.Reset();
    }

    /** Losing home keeps the count running. */
    method OnHomeLost()
      modifies this`validity
      ensures Value() == React(old(Value()), Lost)
    {
      validity := NotHomedYet;
    }
  }
}
