/**
 * Fading an LED: a low-pass filter with a snap threshold, stepped by a timer until the driver
 * shows the target. The saved duties decide whether the driver is written at all, so whether
 * the fade ends depends on their mirroring the driver.
 */
module LightFade {

  const WORD: nat := 0x1_0000_0000

  /** The largest duty limit light_set_aim can compute, whatever `period * 1000` wraps to. */
  const MAX_DUTY: nat := 95443717

  function Distance(x: nat, y: nat): nat {
    if x < y then y - x else x - y
  }

  /** One step of the filter. */
  function Next(now: nat, aim: nat): nat {
    var mean := (now * 15 + aim) / 16;
    if Distance(mean, aim) < 20 then aim else mean
  }

  /** A step moves strictly towards the target, never past it. */
  lemma StrictProgress(now: nat, aim: nat)
    ensures now != aim ==> Distance(Next(now, aim), aim) < Distance(now, aim)
    ensures now <= aim ==> now <= Next(now, aim) <= aim
    ensures now >= aim ==> aim <= Next(now, aim) <= now
  {
  }

  /** The product of the filter stays inside 32 bits for every duty light_set_aim can give. */
  lemma NoOverflow(now: nat, aim: nat)
    requires now <= MAX_DUTY && aim <= MAX_DUTY
    ensures now * 15 + aim < WORD && Next(now, aim) <= MAX_DUTY
  {
  }

  /** The limit on a duty, with the 32-bit wrap of the multiplication. */
  function DutyLimit(period: nat): (limit: nat)
    ensures limit <= MAX_DUTY
  {
    (period * 1000 % WORD) / 45
  }

  /** Where the multiplication does not wrap, the limit is the greatest duty with 45 ns a step that fits
      the period, given in microseconds. */
  lemma LimitIs(period: nat)
    requires period * 1000 < 0x1_0000_0000
    ensures 45 * DutyLimit(period) <= 1000 * period < 45 * (DutyLimit(period) + 1)
  {
  }

  function Min(x: nat, y: nat): nat {
    if x < y then x else y
  }

  /** The filter's value, its target, the saved duty and the duty of the driver. */
  datatype Channel = Channel(now: nat, aim: nat, saved: nat, driver: nat)

  /** One timer tick of a channel: the driver is written only when the saved duty differs. */
  function Tick(c: Channel): Channel {
    var now := Next(c.now, c.aim);
    if now != c.saved then Channel(now, c.aim, now, now) else c.(now := now)
  }

  predicate Mirrored(c: Channel) {
    c.saved == c.driver
  }

  /** The next value of the filter is the target, the saved duty is too, the driver's is not. */
  predicate Stuck(c: Channel) {
    Next(c.now, c.aim) == c.aim == c.saved && c.driver != c.aim
  }

  lemma TickMirrors(c: Channel)
    ensures Mirrored(c) ==> Mirrored(Tick(c)) && Tick(c).driver == Tick(c).now
    ensures Mirrored(c) ==> !Stuck(c)
    ensures !Stuck(c) ==> !Stuck(Tick(c)) && Mirrored(Tick(Tick(c)))
    ensures Stuck(c) ==> Stuck(Tick(c)) && Tick(c).driver != Tick(c).aim
  {
    StrictProgress(c.now, c.aim);
    StrictProgress(Next(c.now, c.aim), c.aim);
  }

  function TickAll(cs: seq<Channel>): (r: seq<Channel>)
    ensures |r| == |cs| && forall i :: 0 <= i < |cs| ==> r[i] == Tick(cs[i])
  {
    seq(|cs|, i requires 0 <= i < |cs| => Tick(cs[i]))
  }

  predicate Done(cs: seq<Channel>) {
    forall i :: 0 <= i < |cs| ==> cs[i].driver == cs[i].aim
  }

  predicate AllMirrored(cs: seq<Channel>) {
    forall i :: 0 <= i < |cs| ==> Mirrored(cs[i])
  }

  predicate NoneStuck(cs: seq<Channel>) {
    forall i :: 0 <= i < |cs| ==> !Stuck(cs[i])
  }

  /** Duties asked for by light_set_aim, waiting for the fade. */
  datatype LightEvent = LightEvent(period: nat, duty: seq<nat>)

  /** The state of the fade; its timer runs exactly while it is not finished. */
  datatype Fade = Fade(channels: seq<Channel>, queue: seq<LightEvent>, finish: bool)

  function Aimed(cs: seq<Channel>, duty: seq<nat>): (r: seq<Channel>)
    requires |duty| == |cs|
    ensures |r| == |cs| && forall i :: 0 <= i < |cs| ==> r[i] == cs[i].(aim := duty[i])
  {
    seq(|cs|, i requires 0 <= i < |cs| => cs[i].(aim := duty[i]))
  }

  /** light_save_target_duty. */
  function Saved(cs: seq<Channel>): (r: seq<Channel>)
    ensures |r| == |cs| && forall i :: 0 <= i < |cs| ==> r[i] == cs[i].(saved := cs[i].aim)
  {
    seq(|cs|, i requires 0 <= i < |cs| => cs[i].(saved := cs[i].aim))
  }

  ghost predicate Sized(queue: seq<LightEvent>, n: nat) {
    forall i :: 0 <= i < |queue| ==> |queue[i].duty| == n
  }

  /** light_dh_pwm_adj_proc: a tick, and when it completes the fade, the next event. */
  function Adjust(cs: seq<Channel>, queue: seq<LightEvent>): (f: Fade)
    requires Sized(queue, |cs|)
    ensures |f.channels| == |cs| && Sized(f.queue, |cs|) && |f.queue| <= |queue|
    decreases |queue|, 2
  {
    var t := TickAll(cs);
    if Done(t) then Smooth(Fade(t, queue, true)) else Fade(t, queue, false)
  }

  /** light_pwm_smooth_adj_proc: take the next event, and start its fade unless one runs. */
  function Smooth(f: Fade): (r: Fade)
    requires Sized(f.queue, |f.channels|)
    ensures |r.channels| == |f.channels| && Sized(r.queue, |f.channels|)
    ensures |r.queue| <= |f.queue| && (f.queue != [] ==> |r.queue| < |f.queue|)
    decreases |f.queue|, 1
  {
    var g := if f.queue == [] then f
             else
               var cs := Aimed(f.channels, f.queue[0].duty);
               if f.finish then Adjust(cs, f.queue[1..]) else Fade(cs, f.queue[1..], false);
    if g.finish then g.(channels := Saved(g.channels)) else g
  }

  /** light_set_aim, for duties already clamped. */
  function SetAim(f: Fade, event: LightEvent): (r: Fade)
    requires Sized(f.queue, |f.channels|) && |event.duty| == |f.channels|
  {
    if |f.queue| < 40 then Smooth(f.(queue := f.queue + [event])) else f
  }

  /** A finished fade shows its targets, and the saved duties mirror the driver. */
  ghost predicate Settled(f: Fade) {
    f.finish ==> Done(f.channels) && AllMirrored(f.channels)
  }

  lemma {:induction false} AdjustSettles(cs: seq<Channel>, queue: seq<LightEvent>)
    requires Sized(queue, |cs|)
    ensures Settled(Adjust(cs, queue))
    ensures AllMirrored(cs) ==> AllMirrored(Adjust(cs, queue).channels)
    decreases |queue|, 2
  {
    var t := TickAll(cs);
    forall i | 0 <= i < |cs| ensures Mirrored(cs[i]) ==> Mirrored(t[i]) {
      TickMirrors(cs[i]);
    }
    if Done(t) {
      SmoothSettles(Fade(t, queue, true));
    }
  }

  lemma {:induction false} SmoothSettles(f: Fade)
    requires Sized(f.queue, |f.channels|) && (f.finish ==> Done(f.channels))
    ensures Settled(Smooth(f))
    ensures AllMirrored(f.channels) ==> AllMirrored(Smooth(f).channels)
    decreases |f.queue|, 1
  {
    if f.queue != [] && f.finish {
      AdjustSettles(Aimed(f.channels, f.queue[0].duty), f.queue[1..]);
    }
  }

  /** An event is taken at once, running fade or not, so between calls none ever waits; and a
      call from a settled state settles again. */
  lemma SetAimTakesAtOnce(f: Fade, event: LightEvent)
    requires f.queue == [] && |event.duty| == |f.channels| && Settled(f)
    ensures SetAim(f, event).queue == [] && Settled(SetAim(f, event))
    ensures AllMirrored(f.channels) ==> AllMirrored(SetAim(f, event).channels)
    ensures forall i :: 0 <= i < |f.channels| ==> SetAim(f, event).channels[i].aim == event.duty[i]
  {
    var g := f.(queue := f.queue + [event]);
    assert g.queue[1..] == [] && g.queue[0] == event;
    SmoothSettles(g);
    AdjustAlone(Aimed(f.channels, event.duty));
  }

  // The timer

  /** Up to `k` timer callbacks; there are none once the fade has finished. */
  function TimerRun(f: Fade, k: nat): (r: Fade)
    requires Sized(f.queue, |f.channels|)
    ensures |r.channels| == |f.channels|
    decreases k
  {
    if k == 0 || f.finish then f else TimerRun(Adjust(f.channels, f.queue), k - 1)
  }

  function Total(cs: seq<Channel>): nat {
    if cs == [] then 0 else Distance(cs[0].now, cs[0].aim) + Total(cs[1..])
  }

  /** The distances to the targets shrink, all together strictly unless all are zero. */
  lemma {:induction false} TotalShrinks(cs: seq<Channel>)
    ensures Total(TickAll(cs)) <= Total(cs)
    ensures (exists i :: 0 <= i < |cs| && cs[i].now != cs[i].aim) ==> Total(TickAll(cs)) < Total(cs)
    decreases |cs|
  {
    hide Tick, Distance;
    if cs != [] {
      TickDistance(cs[0]);
      TotalShrinks(cs[1..]);
      assert TickAll(cs)[1..] == TickAll(cs[1..]);
      if i :| 0 <= i < |cs| && cs[i].now != cs[i].aim && i > 0 {
        assert cs[1..][i - 1] == cs[i];
      }
    }
  }

  lemma TickDistance(c: Channel)
    ensures Distance(Tick(c).now, Tick(c).aim) <= Distance(c.now, c.aim)
    ensures c.now != c.aim ==> Distance(Tick(c).now, Tick(c).aim) < Distance(c.now, c.aim)
  {
    StrictProgress(c.now, c.aim);
  }

  lemma MirrorsAll(cs: seq<Channel>)
    ensures AllMirrored(cs) ==> AllMirrored(TickAll(cs)) && NoneStuck(cs)
    ensures AllMirrored(cs) && !Done(TickAll(cs)) ==> exists i :: 0 <= i < |cs| && cs[i].now != cs[i].aim
    ensures NoneStuck(cs) ==> NoneStuck(TickAll(cs)) && AllMirrored(TickAll(TickAll(cs)))
    ensures !NoneStuck(cs) ==> !NoneStuck(TickAll(cs)) && !Done(TickAll(cs))
  {
    hide Tick, Stuck, Mirrored;
    forall i | 0 <= i < |cs|
      ensures Mirrored(cs[i]) ==> Mirrored(Tick(cs[i])) && Tick(cs[i]).driver == Tick(cs[i]).now && !Stuck(cs[i])
      ensures !Stuck(cs[i]) ==> !Stuck(Tick(cs[i])) && Mirrored(Tick(Tick(cs[i])))
      ensures Stuck(cs[i]) ==> Stuck(Tick(cs[i])) && Tick(cs[i]).driver != Tick(cs[i]).aim
    {
      TickMirrors(cs[i]);
    }
    var t := TickAll(cs);
    if !NoneStuck(cs) {
      var i :| 0 <= i < |cs| && Stuck(cs[i]);
      assert Stuck(t[i]) && t[i].driver != t[i].aim;
    }
    if AllMirrored(cs) && !Done(t) {
      var i :| 0 <= i < |t| && t[i].driver != t[i].aim;
      assert Mirrored(cs[i]);
      AimStays(cs[i]);
    }
  }

  lemma AimStays(c: Channel)
    ensures c.now == c.aim ==> Tick(c).now == Tick(c).aim
  {
  }

  lemma AdjustAlone(cs: seq<Channel>)
    ensures var t := TickAll(cs);
            Adjust(cs, []) == if Done(t) then Fade(Saved(t), [], true) else Fade(t, [], false)
  {
  }

  /** The driver shows the targets of `cs`. */
  ghost predicate Shows(r: seq<Channel>, cs: seq<Channel>) {
    |r| == |cs| && forall i :: 0 <= i < |cs| ==> r[i].driver == cs[i].aim
  }

  lemma TicksKeepAims(cs: seq<Channel>)
    ensures forall i :: 0 <= i < |cs| ==> TickAll(cs)[i].aim == cs[i].aim
  {
  }

  /** With the saved duties mirroring the driver, the sum of the distances bounds the ticks. */
  lemma {:induction false} Converges(f: Fade, k: nat)
    requires f.queue == [] && AllMirrored(f.channels) && Settled(f) && k > Total(f.channels)
    ensures TimerRun(f, k).finish && Shows(TimerRun(f, k).channels, f.channels)
    decreases k
  {
    hide AllMirrored, NoneStuck, Tick;
    if !f.finish {
      TicksKeepAims(f.channels);
      var t := TickAll(f.channels);
      AdjustAlone(f.channels);
      MirrorsAll(f.channels);
      TotalShrinks(f.channels);
      if !Done(t) {
        Converges(Fade(t, [], false), k - 1);
      }
    }
  }

  /** From a settled lamp, light_set_aim leads to exactly the duties asked for. */
  lemma FadeReachesAim(f: Fade, event: LightEvent, k: nat)
    requires f.queue == [] && |event.duty| == |f.channels| && Settled(f) && AllMirrored(f.channels)
    requires k > Total(SetAim(f, event).channels)
    ensures var r := TimerRun(SetAim(f, event), k);
            r.finish && forall i :: 0 <= i < |f.channels| ==> r.channels[i].driver == event.duty[i]
  {
    SetAimTakesAtOnce(f, event);
    Converges(SetAim(f, event), k);
  }

  lemma {:induction false} NeverFinishes(f: Fade, k: nat)
    requires f.queue == [] && !f.finish && !NoneStuck(f.channels)
    ensures !TimerRun(f, k).finish
    decreases k
  {
    hide NoneStuck, Done, Saved;
    if k > 0 {
      var t := TickAll(f.channels);
      AdjustAlone(f.channels);
      MirrorsAll(f.channels);
      NeverFinishes(Fade(t, [], false), k - 1);
    }
  }

  /** Whatever the saved duties are, a running fade ends if and only if no channel is stuck. */
  lemma FinishesIff(f: Fade, k: nat)
    requires f.queue == [] && !f.finish && k > Total(f.channels) + 2
    ensures TimerRun(f, k).finish <==> NoneStuck(f.channels)
  {
    hide AllMirrored, NoneStuck, Done, Saved, Total;
    if !NoneStuck(f.channels) {
      NeverFinishes(f, k);
    } else {
      var t := TickAll(f.channels);
      MirrorsAll(f.channels);
      TotalShrinks(f.channels);
      AdjustAlone(f.channels);
      TotalShrinks(t);
      AdjustAlone(t);
      var g := Adjust(f.channels, []);
      assert TimerRun(f, k) == TimerRun(g, k - 1);
      if !g.finish {
        assert TimerRun(g, k - 1) == TimerRun(Adjust(g.channels, []), k - 2);
        if !Done(TickAll(t)) {
          Converges(Fade(TickAll(t), [], false), k - 2);
        }
      }
    }
  }

  /** At boot the filter and the driver are at zero and the saved duty is the target: duties
      from 1 to 20 are never shown, and every other one is. */
  lemma BootStuck(duty: nat)
    ensures Stuck(Channel(0, duty, duty, 0)) <==> 1 <= duty <= 20
  {
  }

  // Booting

  /** The period user_light_init falls back to. */
  function BootPeriod(period: nat): nat {
    if period > 10000 || period < 1000 then 1000 else period
  }

  function BootChannels(saved: seq<nat>): (cs: seq<Channel>)
    ensures |cs| == |saved| && forall i :: 0 <= i < |cs| ==> cs[i] == Channel(0, 0, saved[i], 0)
  {
    seq(|saved|, i requires 0 <= i < |saved| => Channel(0, 0, saved[i], 0))
  }

  function BootTargets(saved: seq<nat>, period: nat): (d: seq<nat>)
    ensures |d| == |saved| && forall i :: 0 <= i < |d| ==> d[i] == Min(saved[i], DutyLimit(BootPeriod(period)))
  {
    seq(|saved|, i requires 0 <= i < |saved| => Min(saved[i], DutyLimit(BootPeriod(period))))
  }

  /** The lamp after user_light_init, with the duties and the period found in flash. */
  function Boot(saved: seq<nat>, period: nat): (f: Fade)
    ensures |f.channels| == |saved| && f.queue == []
  {
    BootIsAdjust(saved, period);
    SetAim(Fade(BootChannels(saved), [], true), LightEvent(BootPeriod(period), BootTargets(saved, period)))
  }

  /** What is aimed for at boot. */
  function BootAims(saved: seq<nat>, period: nat): (cs: seq<Channel>)
    ensures |cs| == |saved|
  {
    Aimed(BootChannels(saved), BootTargets(saved, period))
  }

  lemma BootIsAdjust(saved: seq<nat>, period: nat)
    ensures var cs := BootAims(saved, period);
            var e := LightEvent(BootPeriod(period), BootTargets(saved, period));
            var f := SetAim(Fade(BootChannels(saved), [], true), e);
            var t := TickAll(cs);
            f == if Done(t) then Fade(Saved(t), [], true) else Fade(t, [], false)
  {
    var e := LightEvent(BootPeriod(period), BootTargets(saved, period));
    var q := [e];
    assert [] + q == q && q[1..] == [] && q[0] == e;
    AdjustAlone(BootAims(saved, period));
    var t := TickAll(BootAims(saved, period));
    assert Saved(Saved(t)) == Saved(t);
  }

  /** The clamping leaves duties up to 20 alone, so they are the ones that get stuck. */
  lemma BootChannelStuck(saved: nat, period: nat)
    ensures var aim := Min(saved, DutyLimit(BootPeriod(period)));
            Stuck(Channel(0, aim, saved, 0)) <==> 1 <= saved <= 20
  {
    LimitAtBoot(period);
  }

  lemma LimitAtBoot(period: nat)
    ensures DutyLimit(BootPeriod(period)) >= 22222
  {
    var p := BootPeriod(period);
    assert 1000000 <= p * 1000 <= 10000000;
    assert p * 1000 % WORD == p * 1000;
  }

  lemma BootStuckIff(saved: seq<nat>, period: nat)
    ensures NoneStuck(BootAims(saved, period)) <==> forall i :: 0 <= i < |saved| ==> !(1 <= saved[i] <= 20)
  {
    hide Stuck, DutyLimit, Min;
    var cs := BootAims(saved, period);
    forall i | 0 <= i < |saved| ensures Stuck(cs[i]) <==> 1 <= saved[i] <= 20 {
      BootChannelStuck(saved[i], period);
      assert cs[i] == Channel(0, Min(saved[i], DutyLimit(BootPeriod(period))), saved[i], 0);
    }
  }

  /** The fade at boot ends if and only if no saved duty lies between 1 and 20. */
  lemma BootEndsIff(saved: seq<nat>, period: nat, k: nat)
    requires k > Total(BootAims(saved, period)) + 2
    ensures TimerRun(Boot(saved, period), k).finish <==> forall i :: 0 <= i < |saved| ==> !(1 <= saved[i] <= 20)
  {
    hide NoneStuck, Done, TickAll, Saved, Total, SetAim, BootAims;
    var cs := BootAims(saved, period);
    BootIsAdjust(saved, period);
    BootStuckIff(saved, period);
    MirrorsAll(cs);
    TotalShrinks(cs);
    if !Done(TickAll(cs)) {
      FinishesIff(Boot(saved, period), k);
    }
  }

  /** And a channel with such a duty stays dark for ever. */
  lemma BootStaysDark(saved: seq<nat>, period: nat, i: nat, k: nat)
    requires i < |saved| && 1 <= saved[i] <= 20
    ensures var r := TimerRun(Boot(saved, period), k); !r.finish && r.channels[i].driver == 0
  {
    hide NoneStuck, Saved, SetAim;
    var cs := BootAims(saved, period);
    BootIsAdjust(saved, period);
    BootChannelStuck(saved[i], period);
    StuckTick(cs[i]);
    assert TickAll(cs)[i].driver != TickAll(cs)[i].aim;
    StuckStays(Boot(saved, period), i, k);
  }

  lemma StuckTick(c: Channel)
    requires Stuck(c)
    ensures Stuck(Tick(c)) && Tick(c).driver == c.driver != Tick(c).aim
  {
    TickMirrors(c);
  }

  lemma {:induction false} StuckStays(f: Fade, i: nat, k: nat)
    requires f.queue == [] && !f.finish && i < |f.channels| && Stuck(f.channels[i])
    ensures var r := TimerRun(f, k); !r.finish && r.channels[i].driver == f.channels[i].driver
    decreases k
  {
    hide Stuck, Tick, Saved;
    if k > 0 {
      StuckTick(f.channels[i]);
      AdjustAlone(f.channels);
      var t := TickAll(f.channels);
      assert t[i].driver != t[i].aim;
      StuckStays(Fade(t, [], false), i, k - 1);
    }
  }
}
