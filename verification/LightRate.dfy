/** How fast the lamp fades: one tick goes a sixteenth of the way, so a fade lasts as long as the
    logarithm of its distance to the base 16/15, from below and from above. */
module LightRate {
  import opened LightFade

  /** A tick takes the last 21 steps down, or the last 20 up, at once. */
  lemma SnapsIff(now: nat, aim: nat)
    ensures Next(now, aim) == aim <==> if now >= aim then now - aim <= 21 else aim - now <= 20
  {
  }

  /** Any other tick goes a sixteenth of the distance, rounded down to a whole duty. */
  lemma GoesASixteenth(now: nat, aim: nat)
    ensures Next(now, aim) != aim ==> 16 * Next(now, aim) <= now * 15 + aim < 16 * Next(now, aim) + 16
  {
  }

  /** So the distance shrinks to fifteen sixteenths, give or take one. */
  lemma DistanceLeft(now: nat, aim: nat)
    requires Next(now, aim) != aim
    ensures Distance(now, aim) >= 21 && Distance(Next(now, aim), aim) >= 20
    ensures 15 * Distance(now, aim) - 15 <= 16 * Distance(Next(now, aim), aim) <= 15 * Distance(now, aim) + 15
  {
    SnapsIff(now, aim);
    GoesASixteenth(now, aim);
    StrictProgress(now, aim);
  }

  function Power(b: nat, k: nat): (p: nat)
    ensures b > 0 ==> p > 0
  {
    if k == 0 then 1 else b * Power(b, k - 1)
  }

  /** The distance d is too long for k ticks and one more. */
  predicate TooLong(d: nat, k: nat) {
    Power(15, k) * (d + 15) > 36 * Power(16, k)
  }

  /** The distance d is short enough for k ticks and one more. */
  predicate ShortEnough(d: nat, k: nat) {
    Power(15, k) * (d - 15) <= 5 * Power(16, k)
  }

  lemma StillTooLong(now: nat, aim: nat, k: nat)
    requires TooLong(Distance(now, aim), k)
    ensures Next(now, aim) != aim
    ensures k > 0 ==> TooLong(Distance(Next(now, aim), aim), k - 1)
  {
    hide TooLong, Power;
    LongIsFar(Distance(now, aim), k);
    SnapsIff(now, aim);
    DistanceLeft(now, aim);
    if k > 0 {
      StaysLong(Distance(now, aim), Distance(Next(now, aim), aim), k);
    }
  }

  lemma {:induction false} PowersOrdered(k: nat)
    ensures Power(15, k) <= Power(16, k)
  {
    if k > 0 { PowersOrdered(k - 1); }
  }

  lemma LongIsFar(d: nat, k: nat)
    requires TooLong(d, k)
    ensures d > 21
  {
    hide Power;
    PowersOrdered(k);
    NearIsLittle(d, Power(15, k));
  }

  lemma NearIsLittle(d: int, p: int)
    requires p >= 0
    ensures d <= 21 ==> p * (d + 15) <= 36 * p
  {
  }

  lemma StaysLong(d: nat, e: nat, k: nat)
    requires k > 0 && TooLong(d, k) && 16 * (e + 15) >= 15 * (d + 15)
    ensures TooLong(e, k - 1)
  {
    LessLeft(d, e, Power(15, k - 1), Power(16, k - 1));
  }

  lemma LessLeft(d: nat, e: nat, p: nat, q: nat)
    requires 15 * p * (d + 15) > 36 * (16 * q) && 16 * (e + 15) >= 15 * (d + 15)
    ensures p * (e + 15) > 36 * q
  {
    assert p * (16 * (e + 15)) >= p * (15 * (d + 15));
    assert p * (15 * (d + 15)) == 15 * p * (d + 15);
    assert 16 * (p * (e + 15)) == p * (16 * (e + 15));
  }

  lemma StillShortEnough(now: nat, aim: nat, k: nat)
    requires ShortEnough(Distance(now, aim), k)
    ensures k == 0 ==> Next(now, aim) == aim
    ensures k > 0 ==> ShortEnough(Distance(Next(now, aim), aim), k - 1)
  {
    if k == 0 {
      SnapsIff(now, aim);
    } else {
      hide ShortEnough, Power;
      if Next(now, aim) == aim {
        NothingLeft(k - 1);
      } else {
        DistanceLeft(now, aim);
        StaysShort(Distance(now, aim), Distance(Next(now, aim), aim), k);
      }
    }
  }

  lemma NothingLeft(k: nat)
    ensures ShortEnough(0, k)
  {
    hide Power;
    assert Power(15, k) * (0 - 15) <= 0;
  }

  lemma StaysShort(d: nat, e: nat, k: nat)
    requires k > 0 && ShortEnough(d, k) && 16 * (e - 15) <= 15 * (d - 15)
    ensures ShortEnough(e, k - 1)
  {
    MuchLeft(d, e, Power(15, k - 1), Power(16, k - 1));
  }

  lemma MuchLeft(d: int, e: int, p: nat, q: nat)
    requires 15 * p * (d - 15) <= 5 * (16 * q) && 16 * (e - 15) <= 15 * (d - 15)
    ensures p * (e - 15) <= 5 * q
  {
    assert p * (16 * (e - 15)) <= p * (15 * (d - 15));
    assert p * (15 * (d - 15)) == 15 * p * (d - 15);
    assert 16 * (p * (e - 15)) == p * (16 * (e - 15));
  }

  /** A running fade with a channel that far from its target is still running after k + 1 ticks, and
      does not show the target before: a lamp never jumps, up or down. */
  lemma {:induction false} FadeLasts(f: Fade, i: nat, k: nat)
    requires f.queue == [] && !f.finish && i < |f.channels| && Mirrored(f.channels[i])
    requires TooLong(Distance(f.channels[i].now, f.channels[i].aim), k)
    ensures var r := TimerRun(f, k + 1); !r.finish && r.channels[i].driver != r.channels[i].aim == f.channels[i].aim
    decreases k
  {
    hide TooLong, Next, Distance;
    var c, t := f.channels[i], TickAll(f.channels);
    StillTooLong(c.now, c.aim, k);
    AdjustAlone(f.channels);
    TickShows(c);
    assert t[i].driver != t[i].aim;
    var g := Adjust(f.channels, []);
    assert g == Fade(t, [], false);
    assert TimerRun(f, k + 1) == TimerRun(g, k);
    if k > 0 {
      FadeLasts(g, i, k - 1);
    }
  }

  lemma TickShows(c: Channel)
    requires Mirrored(c)
    ensures Mirrored(Tick(c)) && Tick(c).driver == Tick(c).now == Next(c.now, c.aim) && Tick(c).aim == c.aim
  {
  }

  ghost predicate AllShort(cs: seq<Channel>, k: nat) {
    forall i :: 0 <= i < |cs| ==> ShortEnough(Distance(cs[i].now, cs[i].aim), k)
  }

  /** With every channel that near its target, k + 1 ticks end the fade, the targets shown. */
  lemma {:induction false} FadeEnds(f: Fade, k: nat)
    requires f.queue == [] && !f.finish && AllMirrored(f.channels) && AllShort(f.channels, k)
    ensures TimerRun(f, k + 1).finish && Shows(TimerRun(f, k + 1).channels, f.channels)
    decreases k
  {
    hide ShortEnough, Next, Distance, Mirrored, Tick;
    var cs, t := f.channels, TickAll(f.channels);
    forall i | 0 <= i < |cs|
      ensures Mirrored(t[i]) && t[i].driver == t[i].now && t[i].aim == cs[i].aim
      ensures k == 0 ==> t[i].now == t[i].aim
      ensures k > 0 ==> ShortEnough(Distance(t[i].now, t[i].aim), k - 1)
    {
      assert Mirrored(cs[i]);
      TickShows(cs[i]);
      StillShortEnough(cs[i].now, cs[i].aim, k);
    }
    AdjustAlone(cs);
    var g := Adjust(cs, []);
    assert TimerRun(f, k + 1) == TimerRun(g, k);
    if !Done(t) {
      FadeEnds(g, k - 1);
    }
  }

  /** light_set_aim on a settled lamp: how long the lamp then takes, by how far it has to go. */
  lemma AimLasts(f: Fade, event: LightEvent, i: nat, k: nat)
    requires f.queue == [] && f.finish && Settled(f) && |event.duty| == |f.channels| && i < |f.channels|
    requires TooLong(Distance(f.channels[i].now, event.duty[i]), k)
    ensures var r := TimerRun(SetAim(f, event), k); !r.finish && r.channels[i].driver != event.duty[i]
  {
    hide TooLong, Next, Distance, Tick, Done;
    var cs := Aimed(f.channels, event.duty);
    TakenAlone(f, event);
    assert Mirrored(cs[i]) by { assert Mirrored(f.channels[i]); }
    FadeLasts(Fade(cs, [], false), i, k);
    assert TimerRun(Fade(cs, [], false), k + 1) == TimerRun(Adjust(cs, []), k);
    if Done(TickAll(cs)) {
      AdjustAlone(cs);
    }
  }

  lemma AimEnds(f: Fade, event: LightEvent, k: nat)
    requires f.queue == [] && f.finish && Settled(f) && |event.duty| == |f.channels|
    requires AllShort(Aimed(f.channels, event.duty), k)
    ensures TimerRun(SetAim(f, event), k).finish
  {
    hide ShortEnough, Next, Distance, Tick, Done;
    var cs := Aimed(f.channels, event.duty);
    TakenAlone(f, event);
    forall i | 0 <= i < |cs| ensures Mirrored(cs[i]) { assert Mirrored(f.channels[i]); }
    FadeEnds(Fade(cs, [], false), k);
    assert TimerRun(Fade(cs, [], false), k + 1) == TimerRun(Adjust(cs, []), k);
    AdjustAlone(cs);
  }

  /** Taking the event is the first tick towards it. */
  lemma TakenAlone(f: Fade, event: LightEvent)
    requires f.queue == [] && f.finish && |event.duty| == |f.channels|
    ensures var a := Adjust(Aimed(f.channels, event.duty), []); SetAim(f, event) == a
  {
    var q := [event];
    assert [] + q == q && q[1..] == [] && q[0] == event;
    AdjustAlone(Aimed(f.channels, event.duty));
    var t := TickAll(Aimed(f.channels, event.duty));
    assert Saved(Saved(t)) == Saved(t);
  }
}
