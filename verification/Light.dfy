/** The lamp: its duty arrays, the ring of waiting events and the two procedures that call each
    other. */
module Light {
  import opened LightFade

  const PWM_CHANNEL: nat := 5
  const LIGHT_EVT_QNUM: nat := 40

  const ZEROS: seq<nat> := [0, 0, 0, 0, 0]

  ghost predicate DutiesOk(duty: seq<nat>) {
    |duty| == PWM_CHANNEL && forall i :: 0 <= i < |duty| ==> duty[i] <= MAX_DUTY
  }

  /** The waiting events, oldest first. */
  ghost function Waiting(events: seq<LightEvent>, use: nat, used: nat): (q: seq<LightEvent>)
    requires |events| == LIGHT_EVT_QNUM
    ensures |q| == used
  {
    seq(used, i requires 0 <= i < used => events[(use + i) % LIGHT_EVT_QNUM])
  }

  /** A new event goes behind the ones that wait. */
  lemma WaitingPush(events: seq<LightEvent>, use: nat, used: nat, free: nat, e: LightEvent)
    requires |events| == LIGHT_EVT_QNUM && used < LIGHT_EVT_QNUM && use < LIGHT_EVT_QNUM
    requires free == (use + used) % LIGHT_EVT_QNUM
    ensures Waiting(events[free := e], use, used + 1) == Waiting(events, use, used) + [e]
  {
    var q := Waiting(events[free := e], use, used + 1);
    forall i | 0 <= i < used ensures q[i] == Waiting(events, use, used)[i] {
      assert (use + i) % LIGHT_EVT_QNUM != free;
    }
  }

  lemma WaitingPop(events: seq<LightEvent>, use: nat, used: nat)
    requires |events| == LIGHT_EVT_QNUM && 0 < used <= LIGHT_EVT_QNUM && use < LIGHT_EVT_QNUM
    ensures Waiting(events, use, used)[0] == events[use]
    ensures Waiting(events, (use + 1) % LIGHT_EVT_QNUM, used - 1) == Waiting(events, use, used)[1..]
  {
    var q, rest := Waiting(events, use, used), Waiting(events, (use + 1) % LIGHT_EVT_QNUM, used - 1);
    forall i | 0 <= i < used - 1 ensures rest[i] == q[i + 1] {
      assert ((use + 1) % LIGHT_EVT_QNUM + i) % LIGHT_EVT_QNUM == (use + (i + 1)) % LIGHT_EVT_QNUM;
    }
  }

  /** The four arrays, channel by channel. */
  ghost function Rows(now: seq<nat>, aim: seq<nat>, saved: seq<nat>, driver: seq<nat>): (cs: seq<Channel>)
    requires |now| == |aim| == |saved| == |driver|
    ensures |cs| == |now|
    ensures forall i :: 0 <= i < |now| ==> cs[i] == Channel(now[i], aim[i], saved[i], driver[i])
  {
    seq(|now|, i requires 0 <= i < |now| => Channel(now[i], aim[i], saved[i], driver[i]))
  }

  lemma RowsUpdate(now: seq<nat>, aim: seq<nat>, saved: seq<nat>, driver: seq<nat>, i: nat, d: nat)
    requires |now| == |aim| == |saved| == |driver| && i < |now|
    ensures Rows(now[i := d], aim, saved[i := d], driver[i := d])
         == Rows(now, aim, saved, driver)[i := Channel(d, aim[i], d, d)]
    ensures Rows(now[i := d], aim, saved, driver)
         == Rows(now, aim, saved, driver)[i := Channel(d, aim[i], saved[i], driver[i])]
  {
  }

  /** The filter as computed, on 32-bit words. */
  function Filtered(now: nat, aim: nat): nat {
    (now * 15 + aim) % WORD / 16
  }

  lemma FilteredIsNext(now: nat, aim: nat)
    requires now <= MAX_DUTY && aim <= MAX_DUTY
    ensures Next(now, aim) == if Distance(Filtered(now, aim), aim) < 20 then aim else Filtered(now, aim)
    ensures Next(now, aim) <= MAX_DUTY
  {
    hide Distance;
    NoOverflow(now, aim);
    assert (now * 15 + aim) % WORD == now * 15 + aim;
  }

  class Lamp {
    var dutyNow: seq<nat>
    var currentDuty: seq<nat>
    var savedDuty: seq<nat>
    var driverDuty: seq<nat>
    var period: nat
    var changeFinish: bool
    var timerArmed: bool
    var sleeping: bool
    var events: seq<LightEvent>
    var freeIdx: nat
    var useIdx: nat
    var used: nat

    /** The state user_light_init starts from: only the saved duties, read from flash, need not
        be zero. It then aims for them. */
    constructor (savedDuty: seq<nat>)
      requires |savedDuty| == PWM_CHANNEL
      ensures Valid() && changeFinish && !timerArmed && Waiting(events, useIdx, used) == []
      ensures Channels() == Rows(ZEROS, ZEROS, savedDuty, ZEROS)
    {
      dutyNow, currentDuty, driverDuty := ZEROS, ZEROS, ZEROS;
      this.savedDuty := savedDuty;
      period := 1000;
      changeFinish, timerArmed, sleeping := true, false, false;
      events := seq(LIGHT_EVT_QNUM, _ => LightEvent(0, ZEROS));
      freeIdx, useIdx, used := 0, 0, 0;
    }

    ghost predicate Ring()
      reads this`events, this`freeIdx, this`useIdx, this`used
    {
      && |events| == LIGHT_EVT_QNUM && used <= LIGHT_EVT_QNUM
      && useIdx < LIGHT_EVT_QNUM && freeIdx == (useIdx + used) % LIGHT_EVT_QNUM
      && forall i :: 0 <= i < used ==> DutiesOk(Waiting(events, useIdx, used)[i].duty)
    }

    ghost predicate Arrays()
      reads this`dutyNow, this`currentDuty, this`savedDuty, this`driverDuty
    {
      && DutiesOk(dutyNow) && DutiesOk(currentDuty)
      && |savedDuty| == |driverDuty| == PWM_CHANNEL
    }

    ghost predicate Valid()
      reads this
    {
      Ring() && Arrays()
    }

    ghost function Channels(): (cs: seq<Channel>)
      reads this`dutyNow, this`currentDuty, this`savedDuty, this`driverDuty
      requires Arrays()
      ensures |cs| == PWM_CHANNEL
    {
      Rows(dutyNow, currentDuty, savedDuty, driverDuty)
    }

    ghost function View(): (f: Fade)
      reads this
      requires Valid()
      ensures |f.channels| == PWM_CHANNEL && Sized(f.queue, PWM_CHANNEL)
    {
      Fade(Channels(), Waiting(events, useIdx, used), changeFinish)
    }

    /** user_light_set_duty. */
    method SetDuty(duty: nat, channel: nat)
      requires channel < |savedDuty| == |driverDuty|
      modifies this`savedDuty, this`driverDuty
      ensures if duty == old(savedDuty[channel]) then savedDuty == old(savedDuty) && driverDuty == old(driverDuty)
              else savedDuty == old(savedDuty)[channel := duty] && driverDuty == old(driverDuty)[channel := duty]
    {
      if duty != savedDuty[channel] {
        driverDuty := driverDuty[channel := duty];
        savedDuty := savedDuty[channel := driverDuty[channel]];
      }
    }

    /** One round of the loop of light_dh_pwm_adj_proc, with its 32-bit arithmetic. */
    method TickOne(i: nat)
      requires Arrays() && i < PWM_CHANNEL
      modifies this`dutyNow, this`savedDuty, this`driverDuty
      ensures Arrays() && Channels() == old(Channels())[i := Tick(old(Channels())[i])]
    {
      hide Rows, Distance, Next, Filtered;
      var mean := Filtered(dutyNow[i], currentDuty[i]);
      ghost var next := Next(dutyNow[i], currentDuty[i]);
      FilteredIsNext(dutyNow[i], currentDuty[i]);
      RowsUpdate(dutyNow, currentDuty, savedDuty, driverDuty, i, next);
      if Distance(mean, currentDuty[i]) < 20 {
        dutyNow := dutyNow[i := currentDuty[i]];
      } else {
        dutyNow := dutyNow[i := mean];
      }
      assert dutyNow == old(dutyNow)[i := next];
      SetDuty(dutyNow[i], i);
    }

    method TickLoop()
      requires Arrays()
      modifies this`dutyNow, this`savedDuty, this`driverDuty
      ensures Arrays() && Channels() == TickAll(old(Channels()))
    {
      hide Tick, Rows;
      ghost var was := Channels();
      for i := 0 to PWM_CHANNEL
        invariant Arrays()
        invariant forall j :: 0 <= j < i ==> Channels()[j] == Tick(was[j])
        invariant forall j :: i <= j < PWM_CHANNEL ==> Channels()[j] == was[j]
      {
        TickOne(i);
      }
    }

    /** check_pwm_current_duty_diff. */
    method Differs() returns (d: bool)
      requires Arrays()
      ensures d == !Done(Channels())
    {
      for i := 0 to PWM_CHANNEL
        invariant forall j :: 0 <= j < i ==> driverDuty[j] == currentDuty[j]
      {
        if driverDuty[i] != currentDuty[i] {
          assert Channels()[i].driver != Channels()[i].aim;
          return true;
        }
      }
      d := false;
    }

    /** check_pwm_duty_zero. */
    method Dark() returns (d: bool)
      requires Arrays()
      ensures d == forall i :: 0 <= i < PWM_CHANNEL ==> driverDuty[i] == 0
    {
      for i := 0 to PWM_CHANNEL
        invariant forall j :: 0 <= j < i ==> driverDuty[j] == 0
      {
        if driverDuty[i] != 0 {
          return false;
        }
      }
      d := true;
    }

    /** light_dh_pwm_adj_proc. */
    method Adj()
      requires Valid()
      modifies this
      ensures Valid() && View() == Adjust(old(View()).channels, old(View()).queue)
      ensures timerArmed == !changeFinish
      decreases used, 2
    {
      hide Ring, TickAll, Done;
      TickLoop();
      var differs := Differs();
      if differs {
        changeFinish := false;
        timerArmed := true;
      } else {
        changeFinish := true;
        timerArmed := false;
        SmoothAdj();
      }
    }

    /** light_pwm_smooth_adj_proc. */
    method SmoothAdj()
      requires Valid() && timerArmed == !changeFinish
      modifies this
      ensures Valid() && View() == Smooth(old(View()))
      ensures timerArmed == !changeFinish
      decreases used, 1
    {
      if used > 0 {
        Pop();
        if changeFinish {
          Adj();
        }
      }
      if changeFinish {
        SaveTarget();
        var dark := Dark();
        if dark && !sleeping {
          sleeping := true;
        }
      }
    }

    /** The oldest event becomes the target. */
    method Pop()
      requires Valid() && used > 0
      modifies this`period, this`currentDuty, this`useIdx, this`used
      ensures Valid() && used == old(used) - 1 && old(View()).queue != []
      ensures View()
           == Fade(Aimed(old(View()).channels, old(View()).queue[0].duty), old(View()).queue[1..], changeFinish)
    {
      hide Waiting;
      WaitingPop(events, useIdx, used);
      period := events[useIdx].period;
      currentDuty := events[useIdx].duty;
      useIdx := useIdx + 1;
      if useIdx > LIGHT_EVT_QNUM - 1 {
        useIdx := 0;
      }
      used := used - 1;
    }

    /** light_save_target_duty. */
    method SaveTarget()
      requires Valid()
      modifies this`savedDuty
      ensures Valid() && View() == old(View()).(channels := LightFade.Saved(old(View()).channels))
    {
      savedDuty := currentDuty;
    }

    /** LightEvtMalloc, and the new slot filled in. */
    method Push(e: LightEvent) returns (ok: bool)
      requires Valid() && DutiesOk(e.duty)
      modifies this`events, this`freeIdx, this`used
      ensures Valid() && ok == (|old(View()).queue| < LIGHT_EVT_QNUM)
      ensures View() == if ok then old(View()).(queue := old(View()).queue + [e]) else old(View())
    {
      hide Waiting, Rows, DutiesOk;
      used := used + 1;
      if used > LIGHT_EVT_QNUM {
        used := used - 1;
        return false;
      }
      WaitingPush(events, useIdx, used - 1, freeIdx, e);
      events := events[freeIdx := e];
      freeIdx := freeIdx + 1;
      if freeIdx > LIGHT_EVT_QNUM - 1 {
        freeIdx := 0;
      }
      ok := true;
    }

    /** light_set_aim, for `duty` in the order of the channels. */
    method Aim(duty: seq<nat>, period: nat)
      requires Valid() && timerArmed == !changeFinish && |duty| == PWM_CHANNEL
      modifies this
      ensures Valid() && timerArmed == !changeFinish
      ensures View() == SetAim(old(View()), LightEvent(Min(period, 10000), Clamped(duty, period)))
    {
      hide Ring, Waiting, Rows, Smooth;
      var ok := Push(LightEvent(Min(period, 10000), Clamped(duty, period)));
      if ok {
        SmoothAdj();
      }
    }
  }

  function Clamped(duty: seq<nat>, period: nat): (c: seq<nat>)
    ensures |c| == |duty| && (|duty| == PWM_CHANNEL ==> DutiesOk(c))
  {
    seq(|duty|, i requires 0 <= i < |duty| => Min(duty[i], DutyLimit(period)))
  }

  /** user_light_init, from the duties and the period in flash. */
  method Init(saved: seq<nat>, period: nat) returns (lamp: Lamp)
    requires |saved| == PWM_CHANNEL
    ensures fresh(lamp) && lamp.Valid() && lamp.View() == Boot(saved, period)
    ensures lamp.timerArmed == !lamp.changeFinish
  {
    hide SetAim;
    lamp := new Lamp(saved);
    assert lamp.Channels() == BootChannels(saved);
    assert Clamped(saved, BootPeriod(period)) == BootTargets(saved, period);
    lamp.Aim(saved, BootPeriod(period));
  }
}
