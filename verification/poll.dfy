/** The polling loop of `runOnce` as a state machine over a sequence of USB reads.

Each iteration performs one interrupt transfer. A transfer that does not report
success ends the call with an exception; one that delivers other than eight
bytes, or whose decoded frame fails validation, is skipped; an accepted
temperature frame overwrites `temp`, an accepted CO2 frame overwrites `co2`.
Both start at -1 on every call, and the loop runs until neither is negative;
only then are the instance fields written.

Temperatures are kept exactly, as integers in units of 1/10000 degree Celsius
(`CelsiusE4`), so the initial -1 is -10000 and the test `temp < 0` is an integer
comparison with the same outcome as the program's.
 */
module PollLoop {
  import opened Codec
  import opened Frames

  /** `LibUsb.SUCCESS`. */
  const Success: int := 0

  /** The number of bytes a complete frame has. */
  const FrameLength: int := 8

  datatype Option<T> = None | Some(value: T)

  /** One interrupt transfer: the result code, the byte count reported through the
      `IntBuffer`, and the eight bytes the buffer holds afterwards. */
  datatype Transfer = Transfer(status: int, size: int, raw: Frame)

  /** The loop variables `co2` (ppm) and `temp` (1/10000 degree Celsius). */
  datatype Reading = Reading(co2: int, temp: int)

  /** `co2 = -1; temp = -1` at the top of every call. */
  const Initial: Reading := Reading(-1, -10000)

  /** The loop's exit test: the negation of `co2 < 0 || temp < 0`. */
  predicate Satisfied(st: Reading) {
    st.co2 >= 0 && st.temp >= 0
  }

  // ---------------------------------------------------------------- one transfer

  /** The magnitude of the given kind that a successful transfer delivers, if any:
      a full frame that decodes to a well-formed frame of that kind. */
  function Reported(t: Transfer, kind: Kind): (m: Option<nat>)
    ensures kind == Co2 ==>
      (m.Some? <==> t.size == FrameLength && Intact(Decode(t.raw)) && Decode(t.raw)[0] == Co2Code)
    ensures kind == Temperature ==>
      (m.Some? <==> t.size == FrameLength && Intact(Decode(t.raw)) && Decode(t.raw)[0] == TempCode)
    ensures kind.Unrecognised? ==>
      (m.Some? <==> && t.size == FrameLength && Intact(Decode(t.raw)) && Decode(t.raw)[0] == kind.code
                    && kind.code != TempCode && kind.code != Co2Code)
    ensures m.Some? ==> m.value == Decode(t.raw)[1] as int * 256 + Decode(t.raw)[2] as int
  {
    if t.size != FrameLength then None
    else
      match Validate(Decode(t.raw))
      case WellFormed(k, val) => if k == kind then Some(val) else None
      case _ => None
  }

  /** The body of one iteration after a successful transfer (lines 128-150). */
  function Step(st: Reading, t: Transfer): (r: Reading)
    ensures r.co2 == (match Reported(t, Co2) case Some(v) => v case None => st.co2)
    ensures r.temp == (match Reported(t, Temperature) case Some(v) => CelsiusE4(v) case None => st.temp)
  {
    if t.size != FrameLength then st
    else
      match Validate(Decode(t.raw))
      case WellFormed(Temperature, val) => st.(temp := CelsiusE4(val))
      case WellFormed(Co2, val) => st.(co2 := val)
      case _ => st
  }

  /** A skipped transfer changes nothing: a short read, a bad sentinel, a bad checksum,
      or an accepted frame of an unrecognised type. */
  lemma StepSkips(st: Reading, t: Transfer)
    requires t.size != 8 || !Validate(Decode(t.raw)).WellFormed? || Validate(Decode(t.raw)).kind.Unrecognised?
    ensures Step(st, t) == st
  {
  }

  /** A temperature frame leaves `co2` alone, and a CO2 frame leaves `temp` alone. */
  lemma StepTouchesOneVariable(st: Reading, t: Transfer)
    ensures Reported(t, Temperature).Some? ==> Step(st, t).co2 == st.co2
    ensures Reported(t, Co2).Some? ==> Step(st, t).temp == st.temp
  {
  }

  // ---------------------------------------------------------------- the reference: latest samples

  /** All successful transfers applied in order, without the exit test. */
  function Fold(ts: seq<Transfer>, st: Reading): Reading
    decreases |ts|
  {
    if |ts| == 0 then st else Fold(ts[1..], Step(st, ts[0]))
  }

  /** The position of the last present entry of `s`, or -1 when there is none. */
  function LastIndex(s: seq<Option<nat>>): (k: int)
    ensures -1 <= k < |s|
    ensures k >= 0 ==> s[k].Some?
    ensures forall j :: k < j < |s| ==> s[j].None?
    decreases |s|
  {
    if |s| == 0 then -1
    else if s[|s| - 1].Some? then |s| - 1
    else LastIndex(s[..|s| - 1])
  }

  /** The last present entry of `s`, if there is one. */
  function LastSome(s: seq<Option<nat>>): (m: Option<nat>)
    ensures m.None? <==> forall i :: 0 <= i < |s| ==> s[i].None?
    ensures m.Some? ==> exists i :: 0 <= i < |s| && s[i] == m && (forall j :: i < j < |s| ==> s[j].None?)
  {
    var k := LastIndex(s);
    if k < 0 then None else s[k]
  }

  /** What each of the transfers `ts` reports of the given kind. */
  function Reports(ts: seq<Transfer>, kind: Kind): (s: seq<Option<nat>>)
    ensures |s| == |ts|
    ensures forall i :: 0 <= i < |ts| ==> s[i] == Reported(ts[i], kind)
  {
    seq(|ts|, i requires 0 <= i < |ts| => Reported(ts[i], kind))
  }

  /** The magnitude of the last frame of the given kind among the transfers `ts`:
      none exactly when no transfer reports that kind, and otherwise the report of
      a transfer after which no other reports it. */
  function Latest(ts: seq<Transfer>, kind: Kind): (m: Option<nat>)
    ensures m.None? <==> forall i :: 0 <= i < |ts| ==> Reports(ts, kind)[i].None?
    ensures m.Some? ==>
      exists i :: 0 <= i < |ts| && Reports(ts, kind)[i] == m && (forall j :: i < j < |ts| ==> Reports(ts, kind)[j].None?)
  {
    LastSome(Reports(ts, kind))
  }

  /** One more transfer on the end: its report, if it has one, is the latest. */
  lemma LatestSnoc(ts: seq<Transfer>, t: Transfer, kind: Kind)
    ensures Latest(ts + [t], kind) ==
      if Reported(t, kind).Some? then Reported(t, kind) else Latest(ts, kind)
  {
    var s := Reports(ts + [t], kind);
    assert s[..|ts|] == Reports(ts, kind);
    assert s[|ts|] == Reported(t, kind);
  }

  /** Folding one more transfer on the end is one more step. */
  lemma {:induction false} FoldSnoc(ts: seq<Transfer>, t: Transfer, st: Reading)
    ensures Fold(ts + [t], st) == Step(Fold(ts, st), t)
    decreases |ts|
  {
    if |ts| == 0 {
      assert (ts + [t])[1..] == [];
    } else {
      assert (ts + [t])[1..] == ts[1..] + [t];
      FoldSnoc(ts[1..], t, Step(st, ts[0]));
    }
  }

  /** After any run of successful transfers, `co2` holds the magnitude of the latest
      CO2 frame among them, or its old value when there was none. */
  lemma {:induction false} FoldIsLatestCo2(ts: seq<Transfer>, st: Reading)
    ensures Fold(ts, st).co2 == (match Latest(ts, Co2) case Some(v) => v case None => st.co2)
    decreases |ts|
  {
    if |ts| > 0 {
      var front, last := ts[..|ts| - 1], ts[|ts| - 1];
      assert ts == front + [last];
      FoldSnoc(front, last, st);
      LatestSnoc(front, last, Co2);
      FoldIsLatestCo2(front, st);
    }
  }

  /** After any run of successful transfers, `temp` holds the temperature of the latest
      temperature frame among them, or its old value when there was none. */
  lemma {:induction false} FoldIsLatestTemp(ts: seq<Transfer>, st: Reading)
    ensures Fold(ts, st).temp == (match Latest(ts, Temperature) case Some(v) => CelsiusE4(v) case None => st.temp)
    decreases |ts|
  {
    if |ts| > 0 {
      var front, last := ts[..|ts| - 1], ts[|ts| - 1];
      assert ts == front + [last];
      FoldSnoc(front, last, st);
      LatestSnoc(front, last, Temperature);
      FoldIsLatestTemp(front, st);
    }
  }

  // ---------------------------------------------------------------- the loop

  /** How a call ends on a finite supply of transfers: the loop exits after `used`
      transfers with `reading`, a transfer fails with `status` (the exception),
      or the transfers run out while the loop would still be waiting for data. */
  datatype Outcome =
    | Finished(reading: Reading, used: nat)
    | Aborted(status: int, used: nat)
    | Starved(reading: Reading)

  /** Account for `k` more transfers consumed before the given outcome. */
  function Later(o: Outcome, k: nat): (r: Outcome)
    ensures o.Finished? ==> r == Finished(o.reading, o.used + k)
    ensures o.Aborted? ==> r == Aborted(o.status, o.used + k)
    ensures o.Starved? ==> r == o
  {
    match o
    case Finished(reading, used) => Finished(reading, used + k)
    case Aborted(status, used) => Aborted(status, used + k)
    case Starved(_) => o
  }

  /** The `while` loop of lines 120-151, from state `st`. */
  function Poll(ts: seq<Transfer>, st: Reading): (o: Outcome)
    ensures o.Finished? ==> Satisfied(o.reading) && o.used <= |ts|
    ensures o.Aborted? ==> 1 <= o.used <= |ts| && o.status != Success && ts[o.used - 1].status == o.status
    ensures o.Starved? ==> !Satisfied(o.reading)
    ensures Satisfied(st) <==> o == Finished(st, 0)
    decreases |ts|
  {
    if Satisfied(st) then Finished(st, 0)
    else if |ts| == 0 then Starved(st)
    else if ts[0].status != Success then Aborted(ts[0].status, 1)
    else Later(Poll(ts[1..], Step(st, ts[0])), 1)
  }

  /** The first `n` transfers all succeed. */
  predicate AllSucceed(ts: seq<Transfer>, n: int)
    requires 0 <= n <= |ts|
  {
    forall i :: 0 <= i < n ==> ts[i].status == Success
  }

  /** The exit test fails after each of the first `n` prefixes of `ts`, that is
      after 0, 1, ..., n - 1 transfers. */
  predicate RunningBefore(ts: seq<Transfer>, st: Reading, n: int)
    requires 0 <= n <= |ts|
  {
    forall m :: 0 <= m < n ==> !Satisfied(Fold(ts[..m], st))
  }

  /** Peeling the first transfer off a prefix fold. */
  lemma FoldPrefixCons(ts: seq<Transfer>, st: Reading, m: int)
    requires 0 <= m < |ts|
    ensures Fold(ts[..m + 1], st) == Fold(ts[1..][..m], Step(st, ts[0]))
  {
    assert ts[..m + 1][1..] == ts[1..][..m];
  }

  lemma AllSucceedCons(ts: seq<Transfer>, n: int)
    requires 1 <= n <= |ts|
    ensures AllSucceed(ts, n) <==> ts[0].status == Success && AllSucceed(ts[1..], n - 1)
  {
    if ts[0].status == Success && AllSucceed(ts[1..], n - 1) {
      forall i | 0 <= i < n
        ensures ts[i].status == Success
      {
        if i > 0 {
          assert ts[i] == ts[1..][i - 1];
        }
      }
    }
  }

  lemma RunningBeforeCons(ts: seq<Transfer>, st: Reading, n: int)
    requires 1 <= n <= |ts|
    ensures RunningBefore(ts, st, n) <==>
      !Satisfied(st) && RunningBefore(ts[1..], Step(st, ts[0]), n - 1)
  {
    assert ts[..0] == [];
    forall m | 0 <= m < n - 1
      ensures Fold(ts[..m + 1], st) == Fold(ts[1..][..m], Step(st, ts[0]))
    {
      FoldPrefixCons(ts, st, m);
    }
    if !Satisfied(st) && RunningBefore(ts[1..], Step(st, ts[0]), n - 1) {
      forall m | 0 <= m < n
        ensures !Satisfied(Fold(ts[..m], st))
      {
        if m > 0 {
          assert Fold(ts[..(m - 1) + 1], st) == Fold(ts[1..][..m - 1], Step(st, ts[0]));
        }
      }
    }
  }

  /** The loop exits after exactly `n` transfers with reading `r` if and only if the
      first `n` transfers succeed, the exit test fails before each of them and holds
      after the last, and `r` is the state they produce. */
  lemma {:induction false} PollFinished(ts: seq<Transfer>, st: Reading, r: Reading, n: nat)
    ensures Poll(ts, st) == Finished(r, n) <==>
      && n <= |ts| && AllSucceed(ts, n) && RunningBefore(ts, st, n)
      && Satisfied(Fold(ts[..n], st)) && r == Fold(ts[..n], st)
    decreases |ts|
  {
    assert ts[..0] == [];
    if Satisfied(st) {
      if 0 < n <= |ts| {
        assert !RunningBefore(ts, st, n) by { assert Fold(ts[..0], st) == st; }
      }
    } else if |ts| == 0 {
    } else if ts[0].status != Success {
      if 0 < n <= |ts| {
        assert !AllSucceed(ts, n);
      }
    } else if n > 0 {
      var tail, next := ts[1..], Step(st, ts[0]);
      PollFinished(tail, next, r, n - 1);
      var o := Poll(tail, next);
      assert Poll(ts, st) == Later(o, 1);
      assert Later(o, 1) == Finished(r, n) <==> o == Finished(r, n - 1);
      if n <= |ts| {
        RunningBeforeCons(ts, st, n);
        AllSucceedCons(ts, n);
        FoldPrefixCons(ts, st, n - 1);
      }
    }
  }

  /** A transfer failing ends the call with its status after exactly `n` transfers if
      and only if the `n`-th is the first to fail and the exit test fails before each. */
  lemma {:induction false} PollAborted(ts: seq<Transfer>, st: Reading, status: int, n: nat)
    ensures Poll(ts, st) == Aborted(status, n) <==>
      && 1 <= n <= |ts| && AllSucceed(ts, n - 1) && RunningBefore(ts, st, n)
      && ts[n - 1].status == status && status != Success
    decreases |ts|
  {
    assert ts[..0] == [];
    if 1 <= n <= |ts| {
      RunningBeforeCons(ts, st, n);
    }
    if 2 <= n <= |ts| {
      AllSucceedCons(ts, n - 1);
      assert ts[n - 1] == ts[1..][n - 2];
    }
    if !Satisfied(st) && |ts| > 0 && ts[0].status == Success && n > 0 {
      PollAborted(ts[1..], Step(st, ts[0]), status, n - 1);
    }
  }

  /** The transfers run out before the loop can exit if and only if all of them succeed,
      the exit test fails before and after each, and `r` is the state they produce. */
  lemma {:induction false} PollStarved(ts: seq<Transfer>, st: Reading, r: Reading)
    ensures Poll(ts, st) == Starved(r) <==>
      && AllSucceed(ts, |ts|) && RunningBefore(ts, st, |ts|)
      && !Satisfied(Fold(ts, st)) && r == Fold(ts, st)
    decreases |ts|
  {
    assert ts[..0] == [];
    assert ts[..|ts|] == ts;
    if |ts| > 0 {
      RunningBeforeCons(ts, st, |ts|);
      AllSucceedCons(ts, |ts|);
      if !Satisfied(st) && ts[0].status == Success {
        PollStarved(ts[1..], Step(st, ts[0]), r);
      }
    }
  }

  /** When a call of `runOnce` returns, it reports the magnitude of the latest CO2
      frame it read and the temperature of the latest temperature frame, and that
      temperature's magnitude is at least 4371: a sub-zero reading never ends the loop. */
  lemma RunOnceReportsLatest(ts: seq<Transfer>, r: Reading, n: nat)
    requires Poll(ts, Initial) == Finished(r, n)
    ensures 1 <= n <= |ts|
    ensures Latest(ts[..n], Co2) == Some(r.co2)
    ensures Latest(ts[..n], Temperature).Some?
    ensures r.temp == CelsiusE4(Latest(ts[..n], Temperature).value)
    ensures Latest(ts[..n], Temperature).value >= 4371
  {
    PollFinished(ts, Initial, r, n);
    FoldIsLatestCo2(ts[..n], Initial);
    FoldIsLatestTemp(ts[..n], Initial);
    assert ts[..0] == [];
    TempThreshold(Latest(ts[..n], Temperature).value);
  }

  // ---------------------------------------------------------------- the method

  /** One more successful iteration, seen from the start of the call. */
  lemma PollAdvance(ts: seq<Transfer>, i: nat, st: Reading)
    requires i < |ts| && !Satisfied(st) && ts[i].status == Success
    ensures Later(Poll(ts[i..], st), i) == Later(Poll(ts[i + 1..], Step(st, ts[i])), i + 1)
  {
    assert ts[i..][1..] == ts[i + 1..];
    var o := Poll(ts[i + 1..], Step(st, ts[i]));
    assert Poll(ts[i..], st) == Later(o, 1);
  }

  /** Lines 128-150 of one iteration on the two loop variables: a short read or a
      frame that fails validation is skipped (`continue`), an accepted temperature
      frame overwrites `temp` and an accepted CO2 frame overwrites `co2`. */
  method Absorb(co2: int, temp: int, t: Transfer) returns (co2': int, temp': int)
    ensures Reading(co2', temp') == Step(Reading(co2, temp), t)
  {
    co2', temp' := co2, temp;
    if t.size == FrameLength {
      var decoded := Decode(t.raw);
      var check := Validate(decoded);
      if check.WellFormed? {
        if check.kind == Temperature {
          temp' := CelsiusE4(check.magnitude);
        } else if check.kind == Co2 {
          co2' := check.magnitude;
        }
      }
    }
  }

  /** `runOnce` itself: the loop over the transfers with the two local variables,
      writing the fields `co2` and `temp` (passed in as `fields`) only on exit.
      A skipped transfer is a `continue` in the program and an empty branch here. */
  method RunOnce(fields: Reading, ts: seq<Transfer>) returns (outcome: Outcome, after: Reading)
    ensures outcome == Poll(ts, Initial)
    ensures outcome.Finished? ==> after == outcome.reading
    ensures !outcome.Finished? ==> after == fields
  {
    var co2: int, temp: int := -1, -10000;
    var i: nat := 0;
    while co2 < 0 || temp < 0
      invariant i <= |ts|
      invariant Poll(ts, Initial) == Later(Poll(ts[i..], Reading(co2, temp)), i)
      decreases |ts| - i
    {
      if i == |ts| {
        return Starved(Reading(co2, temp)), fields;
      }
      var t := ts[i];
      if t.status != Success {
        return Aborted(t.status, i + 1), fields;
      }
      ghost var before := Reading(co2, temp);
      co2, temp := Absorb(co2, temp, t);
      PollAdvance(ts, i, before);
      i := i + 1;
    }
    outcome := Finished(Reading(co2, temp), i);
    after := Reading(co2, temp);
  }
}
