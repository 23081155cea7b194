/** pixelworker.c: the clock readings around a turn of the worker's loop and the pause at
    its end. Time itself runs in nanoseconds. */
module Pacing {

  const REFRESH_TIME := 50000

  type uint64 = x: int | 0 <= x < 0x1_0000_0000_0000_0000

  /** What `clock_gettime` answers. */
  datatype Reading = Failed | Time(sec: nat, nsec: nat)

  /** The microsecond timestamp; 0 for a clock that fails. */
  function Timestamp(r: Reading): uint64 {
    if r.Failed? then 0 else (r.sec * 1000000 + r.nsec / 1000) % 0x1_0000_0000_0000_0000
  }

  /** The microseconds `usleep` is asked for, by 64-bit subtraction. */
  function Pause(previous: uint64, current: uint64): nat {
    var diff := (current as int - previous) % 0x1_0000_0000_0000_0000;
    if REFRESH_TIME > diff then REFRESH_TIME - diff else 0
  }

  /** A clock that works, read at a moment. */
  function At(ns: nat): Reading {
    Time(ns / 1000000000, ns % 1000000000)
  }

  /** Moments whose timestamps fit 64 bits. */
  const LIMIT := 0x1_0000_0000_0000_0000 * 1000

  /** Splitting into seconds and nanoseconds and truncating gives the whole microseconds. */
  lemma TimestampOf(ns: nat)
    requires ns < LIMIT
    ensures Timestamp(At(ns)) == ns / 1000
  {
  }

  /** A turn of the loop: the moments of its two clock readings. */
  datatype Turn = Turn(start: nat, end: nat)

  /** The clock works, and `usleep` does not return early. */
  ghost predicate Paced(ts: seq<Turn>) {
    && (forall i :: 0 <= i < |ts| ==> ts[i].start <= ts[i].end < LIMIT)
    && (forall i :: 0 < i < |ts| ==>
          ts[i - 1].end + 1000 * Pause(Timestamp(At(ts[i - 1].start)), Timestamp(At(ts[i - 1].end))) <= ts[i].start)
  }

  lemma NextTurn(s: nat, e: nat, next: nat)
    requires s <= e < LIMIT
    requires e + 1000 * Pause(Timestamp(At(s)), Timestamp(At(e))) <= next
    ensures s / 1000 + REFRESH_TIME <= next / 1000
  {
    TimestampOf(s);
    TimestampOf(e);
    var diff := e / 1000 - s / 1000;
    assert 0 <= diff;
    if diff < REFRESH_TIME {
      assert Pause(s / 1000, e / 1000) == REFRESH_TIME - diff;
      assert (e / 1000 + (REFRESH_TIME - diff)) * 1000 <= next;
    }
  }

  /** Any two frames are measured to start at least 50000 microseconds apart for each turn
      between them; the truncation to microseconds costs less than one of them in all,
      however many turns there are. */
  lemma {:induction false} FramesAreSpaced(ts: seq<Turn>, i: nat, j: nat)
    requires Paced(ts) && i <= j < |ts|
    ensures Timestamp(At(ts[i].start)) + REFRESH_TIME * (j - i) <= Timestamp(At(ts[j].start))
    ensures ts[i].start + 1000 * REFRESH_TIME * (j - i) - 999 <= ts[j].start
  {
    TimestampOf(ts[i].start);
    TimestampOf(ts[j].start);
    if i < j {
      FramesAreSpaced(ts, i, j - 1);
      TimestampOf(ts[j - 1].start);
      NextTurn(ts[j - 1].start, ts[j - 1].end, ts[j].start);
    }
  }

  /** What a turn leaves of 50000 microseconds, as both its moments are measured, is slept. */
  lemma PauseOfTurn(s: nat, e: nat)
    requires s <= e < LIMIT
    ensures Pause(Timestamp(At(s)), Timestamp(At(e))) ==
            if e / 1000 - s / 1000 < 50000 then 50000 - (e / 1000 - s / 1000) else 0
  {
    TimestampOf(s);
    TimestampOf(e);
  }

  /** As in Paced, and no `usleep` returns late. */
  ghost predicate OnTime(ts: seq<Turn>) {
    && (forall i :: 0 <= i < |ts| ==> ts[i].start <= ts[i].end < LIMIT)
    && (forall i :: 0 < i < |ts| ==>
          ts[i].start == ts[i - 1].end + 1000 * Pause(Timestamp(At(ts[i - 1].start)), Timestamp(At(ts[i - 1].end))))
  }

  /** With sleeps that end on time the next frame is measured to start 50000 microseconds after
      the last, or when its turn ends, whichever is later. */
  lemma NextFrameOnTime(ts: seq<Turn>, i: nat)
    requires OnTime(ts) && i + 1 < |ts|
    ensures var due, over := Timestamp(At(ts[i].start)) + 50000, Timestamp(At(ts[i].end));
            Timestamp(At(ts[i + 1].start)) == if due <= over then over else due
  {
    var s, e := ts[i].start, ts[i].end;
    var next := ts[i + 1].start;
    assert next == e + 1000 * Pause(Timestamp(At(s)), Timestamp(At(e)));
    PauseOfTurn(s, e);
    TimestampOf(s);
    TimestampOf(e);
    TimestampOf(next);
    assert next / 1000 == e / 1000 + Pause(Timestamp(At(s)), Timestamp(At(e)));
  }

  /** So turns that take less than that span exactly 50000 measured microseconds each. */
  lemma {:induction false} ShortTurnsKeepTime(ts: seq<Turn>, i: nat, j: nat)
    requires OnTime(ts) && i <= j < |ts|
    requires forall k :: i <= k < j ==> ts[k].end / 1000 - ts[k].start / 1000 <= 50000
    ensures Timestamp(At(ts[j].start)) == Timestamp(At(ts[i].start)) + 50000 * (j - i)
  {
    hide Timestamp, Pause, At;
    if i < j {
      ShortTurnsKeepTime(ts, i, j - 1);
      NextFrameOnTime(ts, j - 1);
      assert ts[j - 1].start <= ts[j - 1].end < LIMIT;
      TimestampOf(ts[j - 1].start);
      TimestampOf(ts[j - 1].end);
    }
  }

  /** The bound in nanoseconds is met exactly by a run. */
  lemma SpacingIsTight() returns (ts: seq<Turn>)
    ensures Paced(ts) && |ts| == 2
    ensures ts[1].start == ts[0].start + 1000 * REFRESH_TIME - 999
  {
    ts := [Turn(999, 1000), Turn(50000000, 50000000)];
    TimestampOf(999);
    TimestampOf(1000);
    assert Pause(0, 1) == REFRESH_TIME - 1;
  }

  /** Whatever the moment at which a frame may start after a pause of `pause` microseconds from
      `e` on, it is measured to start 50000 microseconds after `s`. */
  ghost predicate Spaced(s: nat, e: nat, pause: nat) {
    forall next: nat :: e + 1000 * pause <= next ==> s / 1000 + REFRESH_TIME <= next / 1000
  }

  lemma SpacedIff(s: nat, e: nat, pause: nat)
    ensures Spaced(s, e, pause) <==> s / 1000 + REFRESH_TIME <= e / 1000 + pause
  {
    assert (e + 1000 * pause) / 1000 == e / 1000 + pause;
    forall next: nat | e + 1000 * pause <= next
      ensures e / 1000 + pause <= next / 1000
    {
    }
  }

  lemma PauseFromZero(current: uint64)
    ensures Pause(0, current) == if REFRESH_TIME > current then REFRESH_TIME - current else 0
  {
  }

  lemma PauseToZero(previous: uint64)
    requires 0 < previous <= 0x1_0000_0000_0000_0000 - REFRESH_TIME
    ensures Pause(previous, 0) == 0
  {
    assert (0 - previous) % 0x1_0000_0000_0000_0000 == 0x1_0000_0000_0000_0000 - previous;
  }

  /** With a clock that fails at the end of a turn there is no pause at all, so the spacing is
      kept exactly when the turn itself lasted long enough. */
  lemma FailedEndReading(s: nat, e: nat)
    requires 1000 <= s <= e < LIMIT - 1000 * REFRESH_TIME
    ensures Pause(Timestamp(At(s)), Timestamp(Failed)) == 0
    ensures Spaced(s, e, Pause(Timestamp(At(s)), Timestamp(Failed))) <==> s / 1000 + REFRESH_TIME <= e / 1000
  {
    TimestampOf(s);
    PauseToZero(s / 1000);
    SpacedIff(s, e, 0);
  }

  /** With a clock that fails at the start of a turn the pause only fills up the time since
      the clock's origin, so once that is past, the spacing is again left to the turn; before,
      it is kept exactly when the turn started in the very first microsecond. A clock that
      fails both times gives the full pause. */
  lemma FailedStartReading(s: nat, e: nat)
    requires s <= e < LIMIT
    ensures var pause := Pause(Timestamp(Failed), Timestamp(At(e)));
            && pause == (if REFRESH_TIME <= e / 1000 then 0 else REFRESH_TIME - e / 1000)
            && (Spaced(s, e, pause) <==>
                if REFRESH_TIME <= e / 1000 then s / 1000 + REFRESH_TIME <= e / 1000 else s < 1000)
    ensures Pause(Timestamp(Failed), Timestamp(Failed)) == REFRESH_TIME
    ensures Spaced(s, e, Pause(Timestamp(Failed), Timestamp(Failed)))
  {
    TimestampOf(e);
    PauseFromZero(e / 1000);
    PauseFromZero(0);
    SpacedIff(s, e, Pause(0, e / 1000));
    SpacedIff(s, e, REFRESH_TIME);
  }
}
