/** A timed platform session: start, poll until the deadline, and stop whatever happens. */
module Session {

  // How a call ends: it returns, or it raises.
  datatype Reply = Done | Interrupted | Failed | Other

  // What a call can raise.
  type Raised = r: Reply | !r.Done? witness Interrupted

  // The calls of the orchestrator, and sleep.
  datatype Call = Start | Nap | Check | Stop

  datatype Status = Started | Failure | Stopped

  datatype Result = Exit(code: int) | Raises(reply: Reply) | ValueError

  datatype Duration = Unlimited | Seconds(value: real)

  const POLL := 0.25

  function Ceiling(x: real): (n: int)
    ensures n as real - 1.0 < x <= n as real
  {
    -((-x).Floor)
  }

  // n rounds of the loop, and the sleep of one more that did not reach its check.
  function Rounds(n: nat, cutShort: bool): (calls: seq<Call>)
    ensures |calls| == 2 * n + (if cutShort then 1 else 0)
    ensures forall i | 0 <= i < |calls| :: calls[i] == if i % 2 == 0 then Nap else Check
  {
    (if n == 0 then [] else Rounds(n - 1, false) + [Nap, Check]) + (if cutShort then [Nap] else [])
  }

  lemma RoundsSnoc(before: seq<Call>, n: nat)
    ensures before + Rounds(n, false) + [Nap] == before + Rounds(n, true)
    ensures before + Rounds(n, true) + [Check] == before + Rounds(n + 1, false)
  {
  }

  // While n quarter seconds are less than the time asked for, n checks are not yet all; and once they are
  // that much, n checks are enough.
  lemma BudgetLeft(n: nat, seconds: real)
    ensures POLL * n as real < seconds <==> n < Ceiling(4.0 * seconds)
  {
  }

  /** The orchestrator, the clock, sleep, and the output. Every call may take time and may raise. */
  class Runtime {
    // Calls other than sleep take no time, and sleep takes the time asked for.
    const exact: bool
    var now: real
    // At most this many health checks succeed from here on. The session does not know it.
    var patience: nat
    // What happened in this session.
    ghost var calls: seq<Call>
    ghost var raised: seq<Raised>
    ghost var out: seq<Status>
    // How much had been raised when stop was called.
    ghost var stoppedAt: nat

    constructor (exact: bool, now: real, patience: nat)
      ensures this.exact == exact && this.now == now && this.patience == patience
    {
      this.exact, this.now, this.patience := exact, now, patience;
      calls, raised, out, stoppedAt := [], [], [], 0;
    }

    // Time passes, and the call returns or raises.
    method Lapse() returns (r: Reply)
      modifies this`now, this`raised
      ensures now >= old(now) && (exact ==> now == old(now))
      ensures raised == if r.Done? then old(raised) else old(raised) + [r]
    {
      var t: real := *;
      if t > now && !exact {
        now := t;
      }
      var reply: Reply :| true;
      r := reply;
      if r != Done {
        raised := raised + [r];
      }
    }

    method Clock() returns (r: Reply, t: real)
      modifies this`now, this`raised
      ensures now >= old(now) && (exact ==> now == old(now))
      ensures raised == if r.Done? then old(raised) else old(raised) + [r]
      ensures t == now
    {
      r := Lapse();
      t := now;
    }

    // A sleep that is not interrupted lasts at least as long as asked; sleep refuses negative times.
    method Sleep(d: real) returns (r: Reply)
      requires d >= 0.0
      modifies this`now, this`raised, this`calls
      ensures calls == old(calls) + [Nap]
      ensures now >= old(now) && (r.Done? ==> now >= old(now) + d)
      ensures r.Done? && exact ==> now == old(now) + d
      ensures raised == if r.Done? then old(raised) else old(raised) + [r]
    {
      calls := calls + [Nap];
      r := Lapse();
      if r.Done? {
        now := now + d;
      }
    }

    method CallStart() returns (r: Reply)
      modifies this`now, this`raised, this`calls
      ensures now >= old(now) && (exact ==> now == old(now))
      ensures raised == if r.Done? then old(raised) else old(raised) + [r]
      ensures calls == old(calls) + [Start]
    {
      calls := calls + [Start];
      r := Lapse();
    }

    method CheckRunning() returns (r: Reply)
      modifies this`now, this`raised, this`calls, this`patience
      ensures now >= old(now) && (exact ==> now == old(now))
      ensures raised == if r.Done? then old(raised) else old(raised) + [r]
      ensures calls == old(calls) + [Check]
      ensures r.Done? ==> patience < old(patience)
    {
      calls := calls + [Check];
      if patience == 0 {
        r :| !r.Done?;
        raised := raised + [r];
      } else {
        patience := patience - 1;
        r := Lapse();
      }
    }

    method CallStop() returns (r: Reply)
      modifies this`now, this`raised, this`calls, this`stoppedAt
      ensures now >= old(now) && stoppedAt == |old(raised)|
      ensures raised == if r.Done? then old(raised) else old(raised) + [r]
      ensures calls == old(calls) + [Stop]
    {
      calls, stoppedAt := calls + [Stop], |raised|;
      r := Lapse();
    }

    method WriteStatus(s: Status) returns (r: Reply)
      modifies this`now, this`raised, this`out
      ensures now >= old(now) && (exact ==> now == old(now))
      ensures raised == if r.Done? then old(raised) else old(raised) + [r]
      ensures out == if r.Done? then old(out) + [s] else old(out)
    {
      r := Lapse();
      if r.Done? {
        out := out + [s];
      }
    }

    // The loop's condition, and how long to sleep: to the deadline, and a quarter second at most.
    method NextNap(seconds: Duration, deadline: real) returns (r: Reply, over: bool, nap: real)
      modifies this`now, this`raised
      ensures now >= old(now) && (exact ==> now == old(now))
      ensures raised == if r.Done? then old(raised) else old(raised) + [r]
      ensures over ==> r.Done? && seconds.Seconds? && now >= deadline
      ensures 0.0 <= nap <= POLL
      ensures r.Done? && !over ==> nap == POLL || (seconds.Seconds? && now + nap >= deadline)
      ensures r.Done? && !over && seconds.Seconds? ==> old(now) < deadline
      ensures r.Done? && exact && seconds.Seconds? ==> (over <==> now >= deadline)
      ensures r.Done? && exact && seconds.Seconds? && !over && nap != POLL ==> now + nap == deadline
      ensures r.Done? && exact && seconds.Seconds? && !over ==> now + nap <= deadline
    {
      r, over, nap := Done, false, POLL;
      if seconds.Seconds? {
        var t;
        r, t := Clock();
        if !r.Done? { return; }
        over := t >= deadline;
        if over { return; }
        r, t := Clock();
        if !r.Done? { return; }
        var remaining := if deadline - t < POLL then deadline - t else POLL;
        nap := if remaining < 0.0 then 0.0 else remaining;
      }
    }

    // The loop. It returns Done when the deadline has passed, and otherwise what a call raised.
    method Poll(seconds: Duration, deadline: real) returns (r: Reply, ghost n: nat, ghost cutShort: bool)
      requires seconds.Seconds? ==> seconds.value >= 0.0 && deadline <= now + seconds.value
      requires seconds.Seconds? && exact ==> deadline == now + seconds.value
      modifies this`now, this`raised, this`calls, this`patience
      ensures now >= old(now)
      ensures raised == if r.Done? then old(raised) else old(raised) + [r]
      ensures calls == old(calls) + Rounds(n, cutShort) && (r.Done? ==> !cutShort)
      ensures seconds.Seconds? ==> n <= Ceiling(4.0 * seconds.value)
      ensures seconds.Unlimited? ==> !r.Done?
      ensures r.Done? ==> now >= deadline
      ensures r.Done? && exact ==> n == Ceiling(4.0 * seconds.value)
    {
      ghost var budget := if seconds.Seconds? then Ceiling(4.0 * seconds.value) else 0;
      n, cutShort := 0, false;
      while true
        invariant now >= old(now) && raised == old(raised)
        invariant calls == old(calls) + Rounds(n, false) && !cutShort
        invariant seconds.Seconds? ==> n <= budget
        invariant seconds.Seconds? ==> now >= deadline || now >= old(now) + POLL * n as real
        invariant seconds.Seconds? && exact ==>
                    now == if POLL * n as real <= seconds.value then old(now) + POLL * n as real else deadline
        decreases if seconds.Unlimited? then patience else budget - n
      {
        var over, nap;
        r, over, nap := NextNap(seconds, deadline);
        if !r.Done? { return; }
        if seconds.Seconds? {
          BudgetLeft(n, seconds.value);
        }
        if over { return; }
        r := Sleep(nap);
        if !r.Done? {
          cutShort := true;
          return;
        }
        RoundsSnoc(calls[..|old(calls)|], n);
        n := n + 1;
        r := CheckRunning();
        if !r.Done? { return; }
      }
    }

    // The try block.
    method Body(seconds: Duration) returns (r: Reply, ghost n: nat, ghost cutShort: bool, ghost since: real)
      requires seconds.Seconds? ==> seconds.value >= 0.0
      requires calls == [] && out == [] && raised == []
      modifies this
      ensures calls == [Start] + Rounds(n, cutShort) && (r.Done? ==> !cutShort)
      ensures raised == if r.Done? then [] else [r]
      ensures out == [Started] || (out == [] && n == 0 && !r.Done?)
      ensures seconds.Seconds? ==> n <= Ceiling(4.0 * seconds.value)
      ensures seconds.Unlimited? ==> !r.Done?
      ensures since >= old(now)
      ensures r.Done? ==> now >= since + seconds.value
      ensures r.Done? && exact ==> n == Ceiling(4.0 * seconds.value)
    {
      n, cutShort, since := 0, false, now;
      r := CallStart();
      if !r.Done? { return; }
      r := WriteStatus(Started);
      if !r.Done? { return; }
      var deadline := 0.0;
      if seconds.Seconds? {
        var t;
        r, t := Clock();
        if !r.Done? { return; }
        since := t;
        deadline := t + seconds.value;
      }
      r, n, cutShort := Poll(seconds, deadline);
    }

    // The except clauses.
    method Handle(body: Reply) returns (result: Result)
      modifies this`now, this`raised, this`out
      ensures now >= old(now)
      ensures body.Done? ==> result == Exit(0)
      ensures body.Interrupted? ==> result == Exit(130)
      ensures body.Other? ==> result == Raises(Other)
      ensures !body.Failed? ==> raised == old(raised) && out == old(out)
      ensures body.Failed? && raised == old(raised) ==> result == Exit(1) && out == old(out) + [Failure]
      ensures body.Failed? && raised != old(raised) ==>
                result.Raises? && raised == old(raised) + [result.reply] && out == old(out)
    {
      result := if body.Done? then Exit(0) else Raises(body);
      if body.Interrupted? {
        result := Exit(130);
      } else if body.Failed? {
        var written := WriteStatus(Failure);
        result := if written.Done? then Exit(1) else Raises(written);
      }
    }

    // A session that is admitted: the try statement.
    method RunAdmitted(seconds: Duration) returns (result: Result, ghost n: nat, ghost cutShort: bool)
      requires seconds.Seconds? ==> seconds.value >= 0.0
      requires calls == [] && out == [] && raised == []
      modifies this
      ensures calls == [Start] + Rounds(n, cutShort) + [Stop]
      ensures stoppedAt <= |raised| && stoppedAt <= 2 && (stoppedAt == 2 ==> raised[0] == Failed)
      ensures stoppedAt < |raised| ==> result == Raises(raised[stoppedAt])
      ensures stoppedAt == |raised| ==>
                && (raised == [] ==> result == Exit(0) && out == [Started, Stopped])
                && (raised == [Interrupted] ==> result == Exit(130))
                && (raised == [Failed] ==>
                      && result == Exit(1)
                      && (out == [Started, Failure, Stopped] || (out == [Failure, Stopped] && n == 0)))
                && (raised == [Other] ==> result == Raises(Other))
                && (|raised| == 2 ==> result == Raises(raised[1]))
                && (raised != [Failed] ==> out == [Started, Stopped] || (out == [Stopped] && n == 0))
      ensures seconds.Seconds? ==> n <= Ceiling(4.0 * seconds.value)
      ensures raised == [] ==> seconds.Seconds? && now >= old(now) + seconds.value
      ensures raised == [] && exact ==> n == Ceiling(4.0 * seconds.value)
    {
      var body;
      ghost var since;
      body, n, cutShort, since := Body(seconds);
      result := Handle(body);
      ghost var before, printed := raised, out;
      result := Finish(result);
      assert raised[..stoppedAt] == before;
      assert stoppedAt == |raised| ==> raised == before && out == printed + [Stopped];
    }

    /** run_platform_session. An admitted session calls start once and first and stop once and last,
        whatever is raised in between, and sleeps and health checks alternate between them; a finite
        session makes at most four checks a second, rounded up, and exactly that many when it is not
        disturbed. With nothing raised from stop on: exit code 0 means that the whole time has passed and
        nothing was raised; an interrupt gives 130; an orchestration error gives 1, with its status line
        once, just before that of stop; and what else is raised is the result. What is raised from stop on
        replaces all of these. */
    method RunPlatformSession(seconds: Duration)
      returns (result: Result, ghost n: nat, ghost cutShort: bool)
      modifies this
      ensures seconds.Seconds? && seconds.value < 0.0 <==> result == ValueError
      ensures result == ValueError ==> now == old(now) && calls == [] && raised == [] && out == []
      ensures result != ValueError ==>
                && calls == [Start] + Rounds(n, cutShort) + [Stop]
                && stoppedAt <= |raised| && stoppedAt <= 2 && (stoppedAt == 2 ==> raised[0] == Failed)
                && (stoppedAt < |raised| ==> result == Raises(raised[stoppedAt]))
                && (seconds.Seconds? ==> n <= Ceiling(4.0 * seconds.value))
      ensures result != ValueError && stoppedAt == |raised| ==>
                && (raised == [] ==> result == Exit(0) && out == [Started, Stopped])
                && (raised == [Interrupted] ==> result == Exit(130))
                && (raised == [Failed] ==>
                      && result == Exit(1)
                      && (out == [Started, Failure, Stopped] || (out == [Failure, Stopped] && n == 0)))
                && (raised == [Other] ==> result == Raises(Other))
                && (|raised| == 2 ==> result == Raises(raised[1]))
                && (raised != [Failed] ==> out == [Started, Stopped] || (out == [Stopped] && n == 0))
      ensures result == Exit(0) ==> seconds.Seconds? && raised == [] && now >= old(now) + seconds.value
      ensures result == Exit(0) && exact ==> n == Ceiling(4.0 * seconds.value)
      ensures result.Exit? ==> result.code in {0, 1, 130}
    {
      n, cutShort, calls, raised, out := 0, false, [], [], [];
      if seconds.Seconds? && seconds.value < 0.0 {
        return ValueError, n, cutShort;
      }
      result, n, cutShort := RunAdmitted(seconds);
      assert |raised| == 1 ==> raised == [raised[0]];
    }

    // The finally block: what it raises replaces the result.
    method Finish(result: Result) returns (r: Result)
      modifies this`now, this`calls, this`raised, this`out, this`stoppedAt
      ensures now >= old(now) && stoppedAt == |old(raised)|
      ensures calls == old(calls) + [Stop]
      ensures old(raised) <= raised
      ensures r == if raised == old(raised) then result else Raises(raised[|old(raised)|])
      ensures raised == old(raised) ==> out == old(out) + [Stopped]
    {
      var reply := CallStop();
      if reply.Done? {
        reply := WriteStatus(Stopped);
      }
      r := if reply.Done? then result else Raises(reply);
    }
  }
}
