/** UUIDs and the version 1 generator: a clock reading, a clock sequence that moves on whenever the clock does not,
    and a node address.

    The bit masks and shifts of the code are written as remainders and quotients by powers of two.
 */
module Uuid {
  import opened BigEndian
  import opened Int64
  import opened Wrappers

  type UUID = u: seq<byte> | |u| == 16 witness seq(16, i => 0)

  const TIME_RANGE := 0x1000_0000_0000_0000
  const CLOCK_RANGE := 0x4000
  const EPOCH_START := 122192928000000000

  const VARIANT_NCS: byte := 0
  const VARIANT_RFC4122: byte := 1
  const VARIANT_MICROSOFT: byte := 2
  const VARIANT_FUTURE: byte := 3

  // ---------------------------------------------------------------- version and variant

  function Version(u: UUID): byte { u[6] / 0x10 }

  function Variant(u: UUID): byte
  {
    if u[8] / 0x80 == 0 then VARIANT_NCS
    else if u[8] / 0x40 == 2 then VARIANT_RFC4122
    else if u[8] / 0x20 == 6 then VARIANT_MICROSOFT
    else VARIANT_FUTURE
  }

  method SetVersion(u: array<byte>, v: byte)
    requires u.Length == 16
    modifies u
    ensures Version(u[..]) == v % 0x10 && u[6] % 0x10 == old(u[6]) % 0x10
    ensures u[..6] == old(u[..6]) && u[7..] == old(u[7..])
  {
    u[6] := u[6] % 0x10 + v % 0x10 * 0x10;
  }

  /** Unknown variants are written as the one reserved for the future. */
  method SetVariant(u: array<byte>, v: byte)
    requires u.Length == 16
    modifies u
    ensures Variant(u[..]) == if v < 3 then v else 3
    ensures var room := if v == 0 then 0x80 else if v == 1 then 0x40 else 0x20; u[8] % room == old(u[8]) % room
    ensures u[..8] == old(u[..8]) && u[9..] == old(u[9..])
  {
    if v == VARIANT_NCS {
      u[8] := u[8] % 0x80;
    } else if v == VARIANT_RFC4122 {
      u[8] := u[8] % 0x40 + 0x80;
    } else if v == VARIANT_MICROSOFT {
      u[8] := u[8] % 0x20 + 0xC0;
    } else {
      u[8] := u[8] % 0x20 + 0xE0;
    }
  }

  // ---------------------------------------------------------------- the layout of version 1

  /** The version 1 UUID of a time, a clock sequence and a node address. */
  function Layout(time: nat, clock: nat, node: seq<byte>): UUID
    requires |node| == 6
  {
    Digits(time % 0x1_0000_0000, 4) + Digits(time / 0x1_0000_0000 % 0x1_0000, 2) +
    Digits(time / 0x1_0000_0000_0000 % 0x1000 + 0x1000, 2) + Digits(clock % CLOCK_RANGE + 0x8000, 2) + node
  }

  function TimeOf(u: UUID): nat
  {
    Number(u[..4]) + 0x1_0000_0000 * Number(u[4..6]) + 0x1_0000_0000_0000 * (Number(u[6..8]) % 0x1000)
  }

  function ClockOf(u: UUID): nat { Number(u[8..10]) % CLOCK_RANGE }

  function NodeOf(u: UUID): seq<byte> { u[10..] }

  /** What a version 1 UUID tells: the time up to 2^60, the clock sequence up to 2^14, and the node. */
  lemma LayoutFields(time: nat, clock: nat, node: seq<byte>)
    requires |node| == 6
    ensures var u := Layout(time, clock, node);
            && TimeOf(u) == time % TIME_RANGE && ClockOf(u) == clock % CLOCK_RANGE && NodeOf(u) == node
            && Version(u) == 1 && Variant(u) == 1 && u[8] / 0x40 == 2
  {
    hide Digits, Number, Span;
    var low, mid := time % 0x1_0000_0000, time / 0x1_0000_0000 % 0x1_0000;
    var high, seqn := time / 0x1_0000_0000_0000 % 0x1000 + 0x1000, clock % CLOCK_RANGE + 0x8000;
    var u := Layout(time, clock, node);
    SpanValues();
    NumberOfDigits(low, 4);
    NumberOfDigits(mid, 2);
    NumberOfDigits(high, 2);
    NumberOfDigits(seqn, 2);
    assert u[..4] == Digits(low, 4) && u[4..6] == Digits(mid, 2) && u[6..8] == Digits(high, 2);
    assert u[8..10] == Digits(seqn, 2);
    TwoDigits(high);
    TwoDigits(seqn);
    assert u[6] == Digits(high, 2)[0] && u[8] == Digits(seqn, 2)[0];
    TimeParts(time);
  }

  lemma TwoDigits(n: nat)
    requires n < 0x1_0000
    ensures Digits(n, 2) == [n / 0x100, n % 0x100]
  {
    DigitsStep(n, 2);
    DigitsStep(n / 0x100, 1);
  }

  lemma TimeParts(time: nat)
    ensures time % TIME_RANGE ==
            time % 0x1_0000_0000 + 0x1_0000_0000 * (time / 0x1_0000_0000 % 0x1_0000) +
            0x1_0000_0000_0000 * (time / 0x1_0000_0000_0000 % 0x1000)
  {
    var upper, low := time / 0x1_0000_0000, time % 0x1_0000_0000;
    var top, mid := upper / 0x1_0000, upper % 0x1_0000;
    Quotient(time, 0x1_0000_0000_0000, top, mid * 0x1_0000_0000 + low);
    Quotient(time, TIME_RANGE, top / 0x1000, top % 0x1000 * 0x1_0000_0000_0000 + mid * 0x1_0000_0000 + low);
  }

  /** Two version 1 UUIDs of one node are equal exactly when time and clock sequence agree where they are kept. */
  lemma SameLayout(time: nat, clock: nat, time': nat, clock': nat, node: seq<byte>)
    requires |node| == 6
    ensures Layout(time, clock, node) == Layout(time', clock', node) <==>
            time % TIME_RANGE == time' % TIME_RANGE && clock % CLOCK_RANGE == clock' % CLOCK_RANGE
  {
    LayoutFields(time, clock, node);
    LayoutFields(time', clock', node);
    if time % TIME_RANGE == time' % TIME_RANGE {
      TimeParts(time);
      TimeParts(time');
      PartsAreUnique(time % 0x1_0000_0000, time / 0x1_0000_0000 % 0x1_0000, time / 0x1_0000_0000_0000 % 0x1000,
                     time' % 0x1_0000_0000, time' / 0x1_0000_0000 % 0x1_0000, time' / 0x1_0000_0000_0000 % 0x1000);
    }
  }

  /** The parts of a time can be read off its low 60 bits. */
  lemma PartsAreUnique(low: nat, mid: nat, high: nat, low': nat, mid': nat, high': nat)
    requires low < 0x1_0000_0000 && mid < 0x1_0000 && low' < 0x1_0000_0000 && mid' < 0x1_0000
    requires low + 0x1_0000_0000 * mid + 0x1_0000_0000_0000 * high ==
             low' + 0x1_0000_0000 * mid' + 0x1_0000_0000_0000 * high'
    ensures low == low' && mid == mid' && high == high'
  {
  }

  // ---------------------------------------------------------------- the generator

  type u16 = n: int | 0 <= n < 0x1_0000
  type Node = a: seq<byte> | |a| == 6 witness seq(6, i => 0)

  /** What one call meets outside: the clock in nanoseconds since 1970, two random bytes if they can be read, the
      address of a network interface if there is one, and six random bytes if they can be read. */
  datatype Outside = Outside(nanos: int64, seed: Option<u16>, interface: Option<seq<byte>>, random: Option<Node>)

  datatype State = State(seeded: bool, addressed: bool, lastTime: u64, clockSequence: u16, node: Node)

  /** Division rounds towards zero. */
  function Ticks(nanos: int): int { if nanos >= 0 then nanos / 100 else -(-nanos / 100) }

  /** The clock in 100-nanosecond steps since October 15, 1582, in 64 bits. */
  function Epoch(nanos: int64): u64 { (EPOCH_START + Ticks(nanos)) % U64_LIMIT }

  /** No clock reading overflows the 60 bits of the time field. */
  lemma EpochFits(nanos: int64)
    ensures 0 < Epoch(nanos) == EPOCH_START + Ticks(nanos) < TIME_RANGE
  {
  }

  function Copied(node: Node, address: seq<byte>): Node
  {
    if |address| >= 6 then address[..6] else address + node[|address|..]
  }

  function Multicast(node: Node): Node { if node[0] % 2 == 0 then node[0 := node[0] + 1] else node }

  /** One call: a failed first read of the seed or of the address is reported, and never tried again. */
  function Step(s: State, o: Outside): (State, Option<UUID>)
  {
    if !s.seeded && o.seed.None? then (s.(seeded := true), None)
    else
      var time, clock := Epoch(o.nanos), if s.seeded then s.clockSequence else o.seed.value;
      var clock' := if time <= s.lastTime then (clock + 1) % 0x1_0000 else clock;
      var node := if s.addressed then s.node
                  else if o.interface.Some? then Copied(s.node, o.interface.value)
                  else if o.random.Some? then Multicast(o.random.value) else s.node;
      var failed := !s.addressed && o.interface.None? && o.random.None?;
      (State(true, true, time, clock', node), if failed then None else Some(Layout(time, clock', node)))
  }

  /** The time field counts the steps of 100 nanoseconds since midnight of October 15, 1582, which is 141427 days of
      864000000000 such steps before 1970; steps that are not complete are not counted, seen from 1970. */
  predicate TellsTime(u: UUID, nanos: int64)
  {
    var steps := TimeOf(u) - 141427 * 864_000_000_000;
    if nanos >= 0 then 100 * steps <= nanos < 100 * steps + 100 else 100 * steps - 100 < nanos <= 100 * steps
  }

  lemma StepTellsTime(s: State, o: Outside)
    ensures Step(s, o).1.Some? ==> TellsTime(Step(s, o).1.value, o.nanos)
  {
    var (now, u) := Step(s, o);
    if u.Some? {
      hide Layout, TimeOf, Epoch, Ticks;
      TimeOfEpoch(o.nanos, now.clockSequence, now.node);
      TicksBracket(o.nanos);
    }
  }

  lemma TimeOfEpoch(nanos: int64, clock: nat, node: Node)
    ensures TimeOf(Layout(Epoch(nanos), clock, node)) == 141427 * 864_000_000_000 + Ticks(nanos)
  {
    hide Layout, TimeOf, Epoch, Ticks;
    LayoutFields(Epoch(nanos), clock, node);
    EpochFits(nanos);
  }

  lemma TicksBracket(nanos: int)
    ensures if nanos >= 0 then 100 * Ticks(nanos) <= nanos < 100 * Ticks(nanos) + 100
            else 100 * Ticks(nanos) - 100 < nanos <= 100 * Ticks(nanos)
  {
  }

  /** The first call of a new generator: what its UUID says about the clock sequence and the node, and when there is
      none. An interface gives its first six bytes, zeros behind a shorter address; without one, random bytes give the
      node, with the lowest bit of the first set. */
  lemma FirstUuid(o: Outside)
    ensures var r := Step(State(false, false, 0, 0, seq(6, i => 0)), o).1;
            && (r.Some? <==> o.seed.Some? && (o.interface.Some? || o.random.Some?))
            && (r.Some? ==>
              && ClockOf(r.value) == o.seed.value % 0x4000
              && (o.interface.Some? ==> NodeOf(r.value) == (o.interface.value + [0, 0, 0, 0, 0, 0])[..6])
              && (o.interface.None? ==>
                && NodeOf(r.value)[1..] == o.random.value[1..] && NodeOf(r.value)[0] % 2 == 1
                && NodeOf(r.value)[0] / 2 == o.random.value[0] / 2))
  {
    var s := State(false, false, 0, 0, seq(6, i => 0));
    var (now, r) := Step(s, o);
    hide Layout, TimeOf, ClockOf, NodeOf, Epoch, Multicast;
    EpochFits(o.nanos);
    if r.Some? {
      LayoutFields(now.lastTime, now.clockSequence, now.node);
      if o.random.Some? { MulticastBit(o.random.value); }
    }
  }

  lemma MulticastBit(node: Node)
    ensures Multicast(node)[1..] == node[1..] && Multicast(node)[0] % 2 == 1 && Multicast(node)[0] / 2 == node[0] / 2
  {
  }

  class Generator {
    var seeded: bool
    var addressed: bool
    var lastTime: u64
    var clockSequence: u16
    var node: Node

    constructor ()
      ensures Contents() == State(false, false, 0, 0, seq(6, i => 0))
    {
      seeded, addressed, lastTime, clockSequence, node := false, false, 0, 0, seq(6, i => 0);
    }

    ghost function Contents(): State
      reads this
    {
      State(seeded, addressed, lastTime, clockSequence, node)
    }

    method NewV1(o: Outside) returns (r: Option<UUID>)
      modifies this
      ensures (Contents(), r) == Step(old(Contents()), o)
      ensures r.Some? ==> TellsTime(r.value, o.nanos)
    {
      hide Layout, TellsTime;
      StepTellsTime(Contents(), o);
      var ok, time, clock := GetClockSequence(o);
      if !ok { return None; }
      var addressOk := GetHardwareAddr(o);
      if !addressOk { return None; }
      var u := Assemble(time, clock, node);
      return Some(u);
    }

    method GetClockSequence(o: Outside) returns (ok: bool, time: u64, clock: u16)
      modifies this
      ensures ok <==> old(seeded) || o.seed.Some?
      ensures var was := old(Contents());
              !ok ==> Contents() == was.(seeded := true)
      ensures var was := old(Contents());
              ok ==> && Contents() == was.(seeded := true, lastTime := time, clockSequence := clock)
                     && time == Epoch(o.nanos)
                     && var start := if was.seeded then was.clockSequence else o.seed.value;
                        clock == if time <= was.lastTime then (start + 1) % 0x1_0000 else start
    {
      ok := true;
      if !seeded {
        seeded := true;
        if o.seed.None? { return false, 0, 0; }
        clockSequence := o.seed.value;
      }
      time := Epoch(o.nanos);
      if time <= lastTime {
        clockSequence := (clockSequence + 1) % 0x1_0000;
      }
      lastTime := time;
      clock := clockSequence;
    }

    method GetHardwareAddr(o: Outside) returns (ok: bool)
      modifies this
      ensures ok <==> old(addressed) || o.interface.Some? || o.random.Some?
      ensures var was := old(Contents());
              Contents() == was.(addressed := true,
                                 node := if was.addressed then was.node
                                         else if o.interface.Some? then Copied(was.node, o.interface.value)
                                         else if o.random.Some? then Multicast(o.random.value) else was.node)
    {
      ok := true;
      if !addressed {
        addressed := true;
        if o.interface.Some? {
          node := Copied(node, o.interface.value);
        } else if o.random.Some? {
          node := Multicast(o.random.value);
        } else {
          ok := false;
        }
      }
    }
  }

  /** Writes the fields, then version and variant over the bits they share. */
  method Assemble(time: u64, clock: u16, node: Node) returns (uuid: UUID)
    ensures uuid == Layout(time, clock, node)
  {
    hide Digits;
    var high := time / 0x1_0000_0000_0000 % 0x1_0000;
    var u := new byte[16](i => 0);
    PutField(u, 0, Digits(time % 0x1_0000_0000, 4));
    PutField(u, 4, Digits(time / 0x1_0000_0000 % 0x1_0000, 2));
    PutField(u, 6, Digits(high, 2));
    PutField(u, 8, Digits(clock, 2));
    PutField(u, 10, node);
    assert u[..] == u[..16];
    Stamp(u);
    Stamped(Digits(time % 0x1_0000_0000, 4), Digits(time / 0x1_0000_0000 % 0x1_0000, 2), high, clock, node);
    uuid := u[..];
  }

  /** Marks a version 1 UUID. */
  method Stamp(u: array<byte>)
    requires u.Length == 16
    modifies u
    ensures u[..] == old(u[..])[6 := old(u[6]) % 0x10 + 0x10][8 := old(u[8]) % 0x40 + 0x80]
  {
    SetVersion(u, 1);
    SetVariant(u, VARIANT_RFC4122);
  }

  /** Writes a field behind what has been written. */
  method PutField(u: array<byte>, at: nat, field: seq<byte>)
    requires at + |field| <= u.Length
    modifies u
    ensures u[..at + |field|] == old(u[..at]) + field
  {
    for k := 0 to |field|
      invariant u[..at + k] == old(u[..at]) + field[..k]
    {
      u[at + k] := field[k];
      assert u[..at + k + 1] == u[..at + k] + [field[k]];
    }
  }

  /** Writing version and variant over the raw fields gives the layout. */
  lemma Stamped(low: seq<byte>, mid: seq<byte>, high: u16, clock: u16, node: Node)
    requires |low| == 4 && |mid| == 2
    ensures var raw := low + mid + Digits(high, 2) + Digits(clock, 2) + node;
            raw[6 := raw[6] % 0x10 + 0x10][8 := raw[8] % 0x40 + 0x80] ==
            low + mid + Digits(high % 0x1000 + 0x1000, 2) + Digits(clock % CLOCK_RANGE + 0x8000, 2) + node
  {
    hide Digits;
    TwoDigits(high);
    TwoDigits(clock);
    TwoDigits(high % 0x1000 + 0x1000);
    TwoDigits(clock % CLOCK_RANGE + 0x8000);
    StampedBytes(high, clock);
  }

  lemma StampedBytes(high: u16, clock: u16)
    ensures (high % 0x1000 + 0x1000) / 0x100 == high / 0x100 % 0x10 + 0x10
    ensures (high % 0x1000 + 0x1000) % 0x100 == high % 0x100
    ensures (clock % CLOCK_RANGE + 0x8000) / 0x100 == clock / 0x100 % 0x40 + 0x80
    ensures (clock % CLOCK_RANGE + 0x8000) % 0x100 == clock % 0x100
  {
    LowBits(high, 0x10, 0x10);
    LowBits(clock, 0x40, 0x80);
  }

  /** Keeping the low bits of the upper byte and adding others above them. */
  lemma LowBits(n: u16, room: nat, above: nat)
    requires room > 0
    ensures (n % (0x100 * room) + 0x100 * above) / 0x100 == n / 0x100 % room + above
    ensures (n % (0x100 * room) + 0x100 * above) % 0x100 == n % 0x100
  {
    var upper, lower := n / 0x100, n % 0x100;
    var kept := 0x100 * (upper % room) + lower;
    assert upper == upper / room * room + upper % room;
    assert n == upper / room * (0x100 * room) + kept;
    Quotient(n, 0x100 * room, upper / room, kept);
  }

  // ---------------------------------------------------------------- runs

  /** The state after a run. */
  function After(s: State, run: seq<Outside>): State
  {
    if run == [] then s else Step(After(s, run[..|run| - 1]), run[|run| - 1]).0
  }

  /** What call k of a run returns. */
  function Output(s: State, run: seq<Outside>, k: nat): Option<UUID>
    requires k < |run|
  {
    Step(After(s, run[..k]), run[k]).1
  }

  /** How often the clock did not move forward between calls i and j. */
  function Stalls(run: seq<Outside>, i: nat, j: nat): nat
    requires i <= j < |run|
  {
    if i == j then 0
    else Stalls(run, i, j - 1) + if Epoch(run[j].nanos) <= Epoch(run[j - 1].nanos) then 1 else 0
  }

  lemma AfterNext(s: State, run: seq<Outside>, k: nat)
    requires k < |run|
    ensures After(s, run[..k + 1]) == Step(After(s, run[..k]), run[k]).0
  {
    assert run[..k + 1][..k] == run[..k];
  }

  /** A successful call leaves seed and address fixed, and returns what the new state says. */
  lemma StepSucceeds(s: State, o: Outside)
    requires Step(s, o).1.Some? || (s.seeded && s.addressed)
    ensures var (now, u) := Step(s, o);
            && now.seeded && now.addressed && now.lastTime == Epoch(o.nanos)
            && u == Some(Layout(now.lastTime, now.clockSequence, now.node))
            && (s.seeded && s.addressed ==>
                && now.node == s.node
                && now.clockSequence == (s.clockSequence + if Epoch(o.nanos) <= s.lastTime then 1 else 0) % 0x1_0000)
  {
    hide Layout, Epoch;
  }

  /** Once a call has succeeded, every later one does: the node stays, and the clock sequence counts the stalls. */
  lemma {:induction false} AfterSuccess(s: State, run: seq<Outside>, i: nat, j: nat)
    requires i <= j < |run| && Output(s, run, i).Some?
    ensures var first, now := After(s, run[..i + 1]), After(s, run[..j + 1]);
            && now.seeded && now.addressed && now.lastTime == Epoch(run[j].nanos) && now.node == first.node
            && now.clockSequence == (first.clockSequence + Stalls(run, i, j)) % 0x1_0000
            && Output(s, run, j) == Some(Layout(now.lastTime, now.clockSequence, now.node))
  {
    hide Layout, Epoch, Step, After;
    AfterNext(s, run, j);
    if i < j {
      AfterSuccess(s, run, i, j - 1);
    }
    StepSucceeds(After(s, run[..j]), run[j]);
  }

  /** Two calls of a run return the same UUID exactly when they read the same time and the clock stalled a multiple of
      2^14 times in between. */
  lemma SameUuid(s: State, run: seq<Outside>, i: nat, j: nat)
    requires i < j < |run| && Output(s, run, i).Some?
    ensures Output(s, run, j).Some?
    ensures Output(s, run, i) == Output(s, run, j) <==>
            Epoch(run[i].nanos) == Epoch(run[j].nanos) && Stalls(run, i, j) % CLOCK_RANGE == 0
  {
    hide Layout, Epoch, Step, After, Output, Stalls;
    AfterSuccess(s, run, i, i);
    assert Stalls(run, i, i) == 0 by { NoStalls(run, i); }
    AfterSuccess(s, run, i, j);
    var first, now := After(s, run[..i + 1]), After(s, run[..j + 1]);
    SameLayout(first.lastTime, first.clockSequence, now.lastTime, now.clockSequence, now.node);
    EpochFits(run[i].nanos);
    EpochFits(run[j].nanos);
    SameClock(first.clockSequence, Stalls(run, i, j));
  }

  lemma NoStalls(run: seq<Outside>, i: nat)
    requires i < |run|
    ensures Stalls(run, i, i) == 0
  {
  }

  lemma SameClock(clock: nat, stalls: nat)
    ensures clock % CLOCK_RANGE == (clock + stalls) % 0x1_0000 % CLOCK_RANGE <==> stalls % CLOCK_RANGE == 0
  {
    assert (clock + stalls) % 0x1_0000 % CLOCK_RANGE == (clock + stalls) % CLOCK_RANGE;
  }

  /** A clock that comes back to a reading has stalled on the way. */
  lemma {:induction false} ReturningStalls(run: seq<Outside>, i: nat, j: nat)
    requires i < j < |run|
    ensures Stalls(run, i, j) > 0 || Epoch(run[i].nanos) < Epoch(run[j].nanos)
  {
    if i + 1 < j { ReturningStalls(run, i, j - 1); }
  }

  /** Whatever the clock does, calls between which it stalls fewer than 2^14 times never return the same UUID. */
  lemma Uniqueness(s: State, run: seq<Outside>, i: nat, j: nat)
    requires i < j < |run| && Output(s, run, i).Some? && Stalls(run, i, j) < CLOCK_RANGE
    ensures Output(s, run, j).Some? && Output(s, run, i) != Output(s, run, j)
  {
    hide Epoch, Step;
    SameUuid(s, run, i, j);
    ReturningStalls(run, i, j);
  }

  /** Beyond that it does: if the clock stands still, the call 2^14 later returns the same UUID. */
  lemma StandingClockRepeats(s: State, o: Outside, run: seq<Outside>)
    requires |run| == CLOCK_RANGE + 1 && (forall k | 0 <= k < |run| :: run[k] == o)
    requires Output(s, run, 0).Some?
    ensures Output(s, run, CLOCK_RANGE) == Output(s, run, 0)
  {
    StandingStalls(run, o, CLOCK_RANGE);
    SameUuid(s, run, 0, CLOCK_RANGE);
  }

  lemma {:induction false} StandingStalls(run: seq<Outside>, o: Outside, j: nat)
    requires j < |run| && forall k | 0 <= k < |run| :: run[k] == o
    ensures Stalls(run, 0, j) == j
  {
    if j > 0 { StandingStalls(run, o, j - 1); }
  }
}
