/** The edge-triggered controller of the firmware's main loop. The state is
    the last observed level of the input pin (true = high). The boot code
    switches the LED off once; afterwards every poll compares the current
    level with the stored one, and on a change stores the new level and
    writes either a selected colour (high to low) or the off colour (low to
    high). A poll without a change does nothing.

    The pin, the random source and the LED driver are inputs: each poll
    carries the level read, the two random draws the firmware would consume
    if this poll is a falling edge, and the result the driver reports if
    this poll writes. Writes are collected in a log. */
module Controller {
  import opened Rgb
  import opened Selector

  /** The record written to switch the LED off. */
  const Off: RGB8 := RGB8(0, 0, 0)

  /** One iteration's inputs: the pin level, the two random draws, and
      whether the driver reports success for a write made in this iteration. */
  datatype Poll = Poll(level: bool, draw1: U32, draw2: U32, sent: bool)

  /** One write to the LED driver: the colour record and the driver's result. */
  datatype Write = Write(color: RGB8, sent: bool)

  predicate IsOffWrite(w: Write) {
    w.color == Off
  }

  /** The colour record of a falling edge, derived from the palette. */
  ghost predicate IsPaletteColor(v: RGB8) {
    exists i :: 0 <= i < |Palette| && (v == ToRgb8(Palette[i]) || v == ToRgb8(HalfBrightness(Palette[i])))
  }

  /** The stored level after one poll: whether or not the level changed, it
      is the level just read. */
  function Next(last: bool, p: Poll): (level: bool)
    ensures level == p.level
  {
    if p.level != last then p.level else last
  }

  /** What one poll writes, given the stored level before it. An unchanged
      level writes nothing; a changed level writes exactly once, with the
      driver's result recorded: a palette colour, full or halved, when the
      pin went low, and the off colour when it went high. */
  function Respond(last: bool, p: Poll): (w: seq<Write>)
    ensures |w| <= 1
    ensures w == [] <==> p.level == last
    ensures w != [] ==> w[0].sent == p.sent && (IsOffWrite(w[0]) <==> p.level)
    ensures w != [] && !p.level ==> IsPaletteColor(w[0].color)
  {
    if p.level == last then []
    else if !p.level then
      var c := SelectColor(p.draw1, p.draw2);
      SelectedColorIsNeverOff(p.draw1, p.draw2);
      assert IsPaletteColor(ToRgb8(c)) by {
        var i :| 0 <= i < |Palette| && (c == Palette[i] || c == HalfBrightness(Palette[i]));
        assert ToRgb8(c) == ToRgb8(Palette[i]) || ToRgb8(c) == ToRgb8(HalfBrightness(Palette[i]));
      }
      [Write(ToRgb8(c), p.sent)]
    else [Write(Off, p.sent)]
  }

  /** The stored level after a sequence of polls, starting from `initial`. */
  function State(initial: bool, polls: seq<Poll>): bool {
    if polls == [] then initial
    else Next(State(initial, polls[..|polls| - 1]), polls[|polls| - 1])
  }

  /** The writes made by a sequence of polls, starting from `initial`. */
  function Writes(initial: bool, polls: seq<Poll>): seq<Write> {
    if polls == [] then []
    else
      var front := polls[..|polls| - 1];
      Writes(initial, front) + Respond(State(initial, front), polls[|polls| - 1])
  }

  /** The boot write followed by the writes of the polls. */
  function Log(initial: bool, bootSent: bool, polls: seq<Poll>): seq<Write> {
    [Write(Off, bootSent)] + Writes(initial, polls)
  }

  /** The stored level is always the level of the latest poll. */
  lemma StateIsLatestLevel(initial: bool, polls: seq<Poll>)
    requires polls != []
    ensures State(initial, polls) == polls[|polls| - 1].level
  {
  }

  /** Processing `a` and then `b` is processing `a + b`: the log of a
      longer run extends the log of a shorter one. */
  lemma {:induction false} WritesAppend(initial: bool, a: seq<Poll>, b: seq<Poll>)
    ensures State(initial, a + b) == State(State(initial, a), b)
    ensures Writes(initial, a + b) == Writes(initial, a) + Writes(State(initial, a), b)
  {
    if b == [] {
      assert a + b == a;
    } else {
      var b' := b[..|b| - 1];
      assert (a + b)[..|a + b| - 1] == a + b';
      assert (a + b)[|a + b| - 1] == b[|b| - 1];
      WritesAppend(initial, a, b');
    }
  }

  /** Polls that repeat the stored level add no write and keep the state. */
  lemma {:induction false} UnchangedPollsWriteNothing(initial: bool, polls: seq<Poll>, rest: seq<Poll>)
    requires forall k :: 0 <= k < |rest| ==> rest[k].level == State(initial, polls)
    ensures State(initial, polls + rest) == State(initial, polls)
    ensures Writes(initial, polls + rest) == Writes(initial, polls)
  {
    if rest != [] {
      var rest' := rest[..|rest| - 1];
      assert polls + rest == (polls + rest') + [rest[|rest| - 1]];
      assert (polls + rest)[..|polls + rest| - 1] == polls + rest';
      UnchangedPollsWriteNothing(initial, polls, rest');
    } else {
      assert polls + rest == polls;
    }
  }

  /** Every write flips the stored level: the state differs from the
      initial level exactly when an odd number of writes was made. */
  lemma {:induction false} StateParity(initial: bool, polls: seq<Poll>)
    ensures State(initial, polls) == (if |Writes(initial, polls)| % 2 == 0 then initial else !initial)
  {
    if polls != [] {
      var front, p := polls[..|polls| - 1], polls[|polls| - 1];
      StateParity(initial, front);
      var n := |Writes(initial, front)|;
      assert Writes(initial, polls) == Writes(initial, front) + Respond(State(initial, front), p);
      if p.level == State(initial, front) {
        assert |Writes(initial, polls)| == n;
      } else {
        assert |Writes(initial, polls)| == n + 1;
        assert (n + 1) % 2 == 0 <==> n % 2 != 0;
      }
    }
  }

  /** After boot the writes alternate strictly: the k-th write is a colour
      exactly when k is even and the pin started high, or k is odd and the
      pin started low. */
  lemma {:induction false} WritesAlternate(initial: bool, polls: seq<Poll>)
    ensures forall k :: 0 <= k < |Writes(initial, polls)| ==>
              (!IsOffWrite(Writes(initial, polls)[k]) <==> ((k % 2 == 0) == initial))
  {
    if polls != [] {
      var front := polls[..|polls| - 1];
      var p := polls[|polls| - 1];
      var before, w := Writes(initial, front), Writes(initial, polls);
      WritesAlternate(initial, front);
      StateParity(initial, front);
      forall k | 0 <= k < |w|
        ensures !IsOffWrite(w[k]) <==> ((k % 2 == 0) == initial)
      {
        if k < |before| {
          assert w[k] == before[k];
        } else {
          assert w[k] == Respond(State(initial, front), p)[0];
        }
      }
    }
  }

  /** Every write that is not the off colour is a palette colour, full or
      halved. */
  lemma {:induction false} WritesArePaletteOrOff(initial: bool, polls: seq<Poll>)
    ensures forall k :: 0 <= k < |Writes(initial, polls)| ==>
              IsOffWrite(Writes(initial, polls)[k]) || IsPaletteColor(Writes(initial, polls)[k].color)
  {
    if polls != [] {
      var front := polls[..|polls| - 1];
      var p := polls[|polls| - 1];
      var before, w := Writes(initial, front), Writes(initial, polls);
      WritesArePaletteOrOff(initial, front);
      forall k | 0 <= k < |w|
        ensures IsOffWrite(w[k]) || IsPaletteColor(w[k].color)
      {
        if k < |before| {
          assert w[k] == before[k];
        } else {
          assert w[k] == Respond(State(initial, front), p)[0];
        }
      }
    }
  }

  /** The most recent write is off exactly when the most recent detected
      change was low to high, and a colour exactly when it was high to low;
      with no write, no change was detected. */
  lemma {:induction false} LastWriteFollowsState(initial: bool, polls: seq<Poll>)
    ensures Writes(initial, polls) == [] ==> State(initial, polls) == initial
    ensures Writes(initial, polls) != [] ==>
              (IsOffWrite(Writes(initial, polls)[|Writes(initial, polls)| - 1]) <==> State(initial, polls))
  {
    StateParity(initial, polls);
    WritesAlternate(initial, polls);
  }

  /** The full log starts with the off write. It alternates strictly
      between off and colour when the pin is high at boot; when it is low,
      the first change (to high) writes off a second time. Every write is
      the off colour or a palette colour. */
  lemma LogShape(initial: bool, bootSent: bool, polls: seq<Poll>)
    ensures IsOffWrite(Log(initial, bootSent, polls)[0])
    ensures forall k :: 1 <= k < |Log(initial, bootSent, polls)| ==>
              (IsOffWrite(Log(initial, bootSent, polls)[k]) <==> ((k % 2 == 0) == initial))
    ensures forall k :: 0 <= k < |Log(initial, bootSent, polls)| ==>
              IsOffWrite(Log(initial, bootSent, polls)[k]) || IsPaletteColor(Log(initial, bootSent, polls)[k].color)
  {
    var w := Writes(initial, polls);
    var log := Log(initial, bootSent, polls);
    assert log == [Write(Off, bootSent)] + w;
    WritesAlternate(initial, polls);
    WritesArePaletteOrOff(initial, polls);
    forall k | 1 <= k < |log|
      ensures (IsOffWrite(log[k]) <==> ((k % 2 == 0) == initial))
      ensures IsOffWrite(log[k]) || IsPaletteColor(log[k].color)
    {
      assert log[k] == w[k - 1];
      assert (k - 1) % 2 == 0 <==> k % 2 != 0;
    }
  }

  /** One more poll appends what that poll writes to the log. */
  lemma LogSnoc(initial: bool, bootSent: bool, polls: seq<Poll>, i: nat)
    requires i < |polls|
    ensures State(initial, polls[..i + 1]) == Next(State(initial, polls[..i]), polls[i])
    ensures Log(initial, bootSent, polls[..i + 1])
            == Log(initial, bootSent, polls[..i]) + Respond(State(initial, polls[..i]), polls[i])
  {
    assert polls[..i + 1][..i] == polls[..i];
    assert polls[..i + 1][i] == polls[i];
  }

  /** Two runs that see the same levels and draws make the same writes and
      end in the same state, whatever the driver reports: a failed write
      neither stops the loop nor changes the state. */
  lemma {:induction false} DriverResultIgnored(initial: bool, a: seq<Poll>, b: seq<Poll>)
    requires |a| == |b|
    requires forall k :: 0 <= k < |a| ==>
               a[k].level == b[k].level && a[k].draw1 == b[k].draw1 && a[k].draw2 == b[k].draw2
    ensures State(initial, a) == State(initial, b)
    ensures |Writes(initial, a)| == |Writes(initial, b)|
    ensures forall k :: 0 <= k < |Writes(initial, a)| ==>
              Writes(initial, a)[k].color == Writes(initial, b)[k].color
  {
    if a != [] {
      var a', b' := a[..|a| - 1], b[..|b| - 1];
      DriverResultIgnored(initial, a', b');
    }
  }

  /** Starting high, the levels high, high, low, low, high make exactly two
      writes: a palette colour on the fall and the off colour on the rise. */
  lemma PressAndReleaseScenario(d: seq<U32>, s: seq<bool>)
    requires |d| == 10 && |s| == 5
    ensures var polls := [Poll(true, d[0], d[1], s[0]), Poll(true, d[2], d[3], s[1]),
                          Poll(false, d[4], d[5], s[2]), Poll(false, d[6], d[7], s[3]),
                          Poll(true, d[8], d[9], s[4])];
            Writes(true, polls) == [Write(ToRgb8(SelectColor(d[4], d[5])), s[2]), Write(Off, s[4])]
  {
    var polls := [Poll(true, d[0], d[1], s[0]), Poll(true, d[2], d[3], s[1]),
                  Poll(false, d[4], d[5], s[2]), Poll(false, d[6], d[7], s[3]),
                  Poll(true, d[8], d[9], s[4])];
    assert polls[..1][..0] == [];
    assert polls[..2][..1] == polls[..1];
    assert polls[..3][..2] == polls[..2];
    assert polls[..4][..3] == polls[..3];
    assert polls[..|polls| - 1] == polls[..4];
    assert State(true, polls[..1]) && Writes(true, polls[..1]) == [];
    assert State(true, polls[..2]) && Writes(true, polls[..2]) == [];
    assert !State(true, polls[..3]);
    assert Writes(true, polls[..3]) == [Write(ToRgb8(SelectColor(d[4], d[5])), s[2])];
    assert !State(true, polls[..4]) && Writes(true, polls[..4]) == Writes(true, polls[..3]);
  }

  /** The firmware's main loop over a finite sequence of polls: write off
      at boot, then on each poll compare the level with the stored one and,
      on a change, store it and write a colour (fall) or off (rise). The
      driver's result is recorded and otherwise ignored. */
  method Run(initial: bool, bootSent: bool, polls: seq<Poll>) returns (log: seq<Write>, last: bool)
    ensures log == Log(initial, bootSent, polls)
    ensures last == State(initial, polls)
    ensures polls != [] ==> last == polls[|polls| - 1].level
    ensures IsOffWrite(log[0])
    ensures forall k :: 1 <= k < |log| ==> (IsOffWrite(log[k]) <==> ((k % 2 == 0) == initial))
    ensures forall k :: 0 <= k < |log| ==> IsOffWrite(log[k]) || IsPaletteColor(log[k].color)
  {
    last := initial;
    log := [Write(Off, bootSent)];
    var i := 0;
    while i < |polls|
      invariant 0 <= i <= |polls|
      invariant last == State(initial, polls[..i])
      invariant log == Log(initial, bootSent, polls[..i])
    {
      LogSnoc(initial, bootSent, polls, i);
      ghost var respond := Respond(last, polls[i]);
      var current := polls[i].level;
      if current != last {
        last := current;
        if !last {
          var index := PickIndex(Palette, polls[i].draw1);
          var color := Palette[index];
          var isHalf := IsHalf(polls[i].draw2);
          if isHalf {
            color := HalfBrightness(color);
          }
          assert color == SelectColor(polls[i].draw1, polls[i].draw2);
          assert respond == [Write(ToRgb8(color), polls[i].sent)];
          log := log + [Write(ToRgb8(color), polls[i].sent)];
        } else {
          assert respond == [Write(Off, polls[i].sent)];
          log := log + [Write(Off, polls[i].sent)];
        }
      } else {
        assert respond == [];
        assert log + respond == log;
      }
      i := i + 1;
    }
    assert polls[..i] == polls;
    LogShape(initial, bootSent, polls);
    if polls != [] {
      StateIsLatestLevel(initial, polls);
    }
  }
}
