/** Whole runs of `ticket_internal_updater` (`src/ssl.c`): repeated `update_tickets` on the
    list that starts empty, with a clock that advances at least 60 seconds between calls. */
module TicketRuns {
  import opened Options
  import opened Tickets

  datatype Call = Call(now: nat, draw: Draw)

  /** The list after the calls, or None once the process has aborted. */
  function State(calls: seq<Call>, lifetime: nat): Option<seq<Ticket>> {
    if calls == [] then Some([])
    else
      var last := calls[|calls| - 1];
      match State(calls[..|calls| - 1], lifetime)
      case None => None
      case Some(ts) => Updated(ts, lifetime, last.now, last.draw)
  }

  /** Consecutive calls are at least 60 seconds apart. */
  ghost predicate Spaced(calls: seq<Call>) {
    forall i :: 0 < i < |calls| ==> calls[i - 1].now + 60 <= calls[i].now
  }

  /** ... and at most `most` seconds apart. */
  ghost predicate Prompt(calls: seq<Call>, most: nat) {
    forall i :: 0 < i < |calls| ==> calls[i].now <= calls[i - 1].now + most
  }

  // ---------------------------------------------------------------- the invariant

  ghost predicate Rotation(ts: seq<Ticket>, lifetime: nat, t: nat) {
    && ts != []
    && DistinctNames(ts)
    && (forall i :: 0 <= i < |ts| ==> ts[i].notAfter == ts[i].notBefore + lifetime - 1)
    && (forall i :: 0 < i < |ts| ==> ts[i].notBefore + lifetime / 4 + 61 <= ts[i - 1].notBefore)
    && t <= ts[0].notBefore + lifetime / 4
    && ts[0].notBefore <= t + ACTIVATION_DELAY
    && t <= ts[|ts| - 1].notAfter
    && (t < ts[0].notBefore ==> 2 <= |ts|)
    && (2 <= |ts| ==> ts[1].notBefore <= t)
  }

  lemma {:induction false} Sorted(ts: seq<Ticket>, lifetime: nat, i: nat, j: nat)
    requires forall i :: 0 < i < |ts| ==> ts[i].notBefore + lifetime / 4 + 61 <= ts[i - 1].notBefore
    requires i < j < |ts|
    ensures ts[j].notBefore < ts[i].notBefore
    decreases j
  {
    if j - 1 <= i {
    } else {
      Sorted(ts, lifetime, i, j - 1);
    }
  }

  lemma ExpireKeeps(ts: seq<Ticket>, lifetime: nat, t: nat, now: nat)
    requires Rotation(ts, lifetime, t) && t + 60 <= now
    ensures var kept := Expire(ts, now);
            && DistinctNames(kept) && Decollide(kept) == kept
            && (kept != [] ==> FindForEncryption(kept, now) == Some(kept[0]))
  {
    var kept := Expire(ts, now);
    DecollideIdle(kept);
    if |kept| > 1 {
      Sorted(ts, lifetime, 0, |kept| - 1);
    }
  }

  /** What a call does to a rotating list: nothing left means a ticket active at once, an
      aging newest ticket means one that becomes active in a minute. */
  ghost predicate Step(kept: seq<Ticket>, r: seq<Ticket>, lifetime: nat, now: nat) {
    if kept == [] then |r| == 1 && r[0].notBefore == now && r[0].notAfter == now + lifetime - 1
    else if kept[0].notBefore + lifetime / 4 < now then
      && |r| == |kept| + 1 && r[1..] == kept
      && r[0].notBefore == now + ACTIVATION_DELAY && r[0].notAfter == r[0].notBefore + lifetime - 1
    else r == kept
  }

  lemma CallSteps(ts: seq<Ticket>, lifetime: nat, t: nat, call: Call)
    requires Rotation(ts, lifetime, t) && t + 60 <= call.now
    ensures var kept := Expire(ts, call.now);
            && Decollide(kept) == kept
            && Updated(ts, lifetime, call.now, call.draw).Some?
            && DistinctNames(Updated(ts, lifetime, call.now, call.draw).value)
            && Step(kept, Updated(ts, lifetime, call.now, call.draw).value, lifetime, call.now)
  {
    AtMostFour(ts, lifetime, t);
    ExpireKeeps(ts, lifetime, t, call.now);
    UpdatedDistinct(ts, lifetime, call.now, call.draw);
  }

  lemma StepKeeps(ts: seq<Ticket>, kept: seq<Ticket>, r: seq<Ticket>, lifetime: nat, t: nat, now: nat)
    requires 1 <= lifetime && Rotation(ts, lifetime, t) && t + 60 <= now
    requires kept <= ts && (kept != [] ==> now <= kept[|kept| - 1].notAfter)
    requires Step(kept, r, lifetime, now) && DistinctNames(r)
    ensures Rotation(r, lifetime, now)
  {
    if kept != [] && kept[0].notBefore + lifetime / 4 < now {
      assert forall i :: 0 < i < |r| ==> r[i] == ts[i - 1];
    }
  }

  /** One call keeps the invariant, aborts nothing and loses nothing to name collisions. */
  lemma RotationStep(ts: seq<Ticket>, lifetime: nat, t: nat, call: Call)
    requires 1 <= lifetime && Rotation(ts, lifetime, t) && t + 60 <= call.now
    ensures Updated(ts, lifetime, call.now, call.draw).Some?
    ensures Rotation(Updated(ts, lifetime, call.now, call.draw).value, lifetime, call.now)
  {
    CallSteps(ts, lifetime, t, call);
    StepKeeps(ts, Expire(ts, call.now), Updated(ts, lifetime, call.now, call.draw).value, lifetime, t, call.now);
  }

  lemma AtMostFour(ts: seq<Ticket>, lifetime: nat, t: nat)
    requires Rotation(ts, lifetime, t)
    ensures |ts| <= 4
  {
    if |ts| >= 5 {
      FiveSpan(ts, lifetime);
      if |ts| > 5 {
        Sorted(ts, lifetime, 4, |ts| - 1);
      }
    }
  }

  lemma FiveSpan(ts: seq<Ticket>, lifetime: nat)
    requires forall i :: 0 < i < |ts| ==> ts[i].notBefore + lifetime / 4 + 61 <= ts[i - 1].notBefore
    requires 5 <= |ts|
    ensures ts[4].notBefore + lifetime + 240 < ts[0].notBefore
  {
    var gap := lifetime / 4 + 61;
    assert ts[1].notBefore + gap <= ts[0].notBefore;
    assert ts[2].notBefore + gap <= ts[1].notBefore;
    assert ts[3].notBefore + gap <= ts[2].notBefore;
    assert ts[4].notBefore + gap <= ts[3].notBefore;
  }

  lemma {:induction false} RunInvariant(calls: seq<Call>, lifetime: nat)
    requires calls != [] && Spaced(calls) && 1 <= lifetime
    ensures State(calls, lifetime).Some?
    ensures Rotation(State(calls, lifetime).value, lifetime, calls[|calls| - 1].now)
  {
    var last := calls[|calls| - 1];
    var init := calls[..|calls| - 1];
    if init == [] {
      assert State(init, lifetime) == Some([]);
      FirstCall(lifetime, last);
    } else {
      RunInvariant(init, lifetime);
      var ts := State(init, lifetime).value;
      RotationStep(ts, lifetime, init[|init| - 1].now, last);
    }
  }

  lemma FirstCall(lifetime: nat, call: Call)
    requires 1 <= lifetime
    ensures var r := Updated([], lifetime, call.now, call.draw);
            && r.Some? && |r.value| == 1
            && r.value[0].notBefore == call.now && r.value[0].notAfter == call.now + lifetime - 1
  {
    assert Expire([], call.now) == [] && Decollide([]) == [];
  }

  /** Strictly sorted from newer to older, distinct names, nothing expired, at most four. */
  ghost predicate Tidy(ts: seq<Ticket>, now: nat) {
    && 1 <= |ts| <= 4
    && DistinctNames(ts)
    && (forall i, j :: 0 <= i < j < |ts| ==> ts[j].notBefore < ts[i].notBefore)
    && (forall i :: 0 <= i < |ts| ==> now <= ts[i].notAfter)
  }

  lemma RotationTidy(ts: seq<Ticket>, lifetime: nat, now: nat)
    requires Rotation(ts, lifetime, now)
    ensures Tidy(ts, now)
  {
    AtMostFour(ts, lifetime, now);
    forall i, j | 0 <= i < j < |ts| ensures ts[j].notBefore < ts[i].notBefore {
      Sorted(ts, lifetime, i, j);
    }
  }

  /** Every run: no call aborts the process and every call leaves a tidy list. */
  lemma RunSafe(calls: seq<Call>, lifetime: nat)
    requires calls != [] && Spaced(calls) && 1 <= lifetime
    ensures State(calls, lifetime).Some? && Tidy(State(calls, lifetime).value, calls[|calls| - 1].now)
  {
    RunInvariant(calls, lifetime);
    RotationTidy(State(calls, lifetime).value, lifetime, calls[|calls| - 1].now);
  }

  /** ... and the collision pass of the next call, whenever it comes, removes nothing. */
  lemma NothingCollides(calls: seq<Call>, lifetime: nat, now: nat)
    requires calls != [] && Spaced(calls) && 1 <= lifetime && calls[|calls| - 1].now + 60 <= now
    ensures State(calls, lifetime).Some?
    ensures var alive := Expire(State(calls, lifetime).value, now); Decollide(alive) == alive
  {
    RunInvariant(calls, lifetime);
    ExpireKeeps(State(calls, lifetime).value, lifetime, calls[|calls| - 1].now, now);
  }

  // ---------------------------------------------------------------- no gap in encryption

  /** The latest second, not later than b, at which a call can come that is some calls later
      than one at second 0, with 60 to most seconds from each to the next. */
  function Latest(b: nat, most: nat): (x: nat)
    ensures x <= b && x <= Times(most, b / 60)
  {
    if Times(most, b / 60) <= b then Times(most, b / 60) else b
  }

  function Times(a: nat, b: nat): nat {
    a * b
  }

  lemma TimesNext(most: nat, k: nat)
    ensures Times(most, k + 1) == Times(most, k) + most
  {
  }

  lemma {:induction false} TimesGrows(a: nat, b: nat, k: nat, n: nat)
    requires a <= b && k <= n
    ensures Times(a, k) <= Times(b, n)
    decreases n
  {
    if n == 0 {
    } else if k == 0 {
      TimesGrows(a, b, 0, n - 1);
      TimesNext(b, n - 1);
    } else {
      TimesGrows(a, b, k - 1, n - 1);
      TimesNext(a, k - 1);
      TimesNext(b, n - 1);
    }
  }

  /** `Latest` is such a second, and the latest. */
  lemma LatestSpec(b: nat, most: nat, k: nat, x: nat)
    requires 60 <= most
    ensures 60 * (b / 60) <= Latest(b, most) <= Times(most, b / 60)
    ensures 60 * k <= x <= Times(most, k) && x <= b ==> x <= Latest(b, most)
    ensures b < Latest(b, most) + 60
  {
    TimesGrows(60, most, b / 60, b / 60);
    if 60 * k <= x <= Times(most, k) && x <= b {
      TimesGrows(most, most, k, b / 60);
    }
  }

  /** The successor of a ticket is made by the first call later than a quarter of the lifetime
      after it became active, and is active a minute later. The first call that can come that
      late must still leave that minute. */
  predicate GapFree(lifetime: nat, most: nat) {
    if most < 60 then most < lifetime else most + Latest(60 + lifetime / 4, most) <= lifetime
  }

  /** Calls have come since a minute before the newest ticket became active. */
  ghost predicate Aged(ts: seq<Ticket>, t: nat, most: nat) {
    ts != [] && exists k: nat :: 60 * k <= t + 60 - ts[0].notBefore <= Times(most, k)
  }

  lemma AgedStep(ts: seq<Ticket>, lifetime: nat, t: nat, call: Call, most: nat)
    requires 1 <= lifetime && Rotation(ts, lifetime, t) && Aged(ts, t, most)
    requires t + 60 <= call.now <= t + most && Updated(ts, lifetime, call.now, call.draw).Some?
    ensures Aged(Updated(ts, lifetime, call.now, call.draw).value, call.now, most)
  {
    CallSteps(ts, lifetime, t, call);
    var r := Updated(ts, lifetime, call.now, call.draw).value;
    var k: nat :| 60 * k <= t + 60 - ts[0].notBefore <= Times(most, k);
    TimesNext(most, k);
    TimesNext(most, 0);
    var age := call.now + 60 - r[0].notBefore;
    assert age == 0 || age == 60 || r[0] == ts[0];
    assert 60 * 0 <= age <= Times(most, 0) || 60 * 1 <= age <= Times(most, 1) || 60 * (k + 1) <= age <= Times(most, k + 1);
  }

  /** Whenever the next call comes, it is in time. */
  lemma InTime(ts: seq<Ticket>, lifetime: nat, t: nat, most: nat)
    requires 60 <= most && GapFree(lifetime, most) && Rotation(ts, lifetime, t) && Aged(ts, t, most)
    ensures t + most + 60 <= ts[0].notBefore + lifetime
  {
    var k: nat :| 60 * k <= t + 60 - ts[0].notBefore <= Times(most, k);
    LatestSpec(60 + lifetime / 4, most, k, t + 60 - ts[0].notBefore);
  }

  /** While a new ticket waits to become active, the previous one lasts. */
  ghost predicate Bridged(ts: seq<Ticket>, t: nat) {
    2 <= |ts| && t < ts[0].notBefore ==> t + 59 <= ts[1].notAfter
  }

  lemma BridgedStep(ts: seq<Ticket>, lifetime: nat, t: nat, call: Call, most: nat)
    requires 1 <= lifetime && Rotation(ts, lifetime, t) && t + 60 <= call.now <= t + most
    requires t + most + 60 <= ts[0].notBefore + lifetime
    requires Updated(ts, lifetime, call.now, call.draw).Some?
    ensures Bridged(Updated(ts, lifetime, call.now, call.draw).value, call.now)
  {
    CallSteps(ts, lifetime, t, call);
  }

  lemma Covered(ts: seq<Ticket>, lifetime: nat, t: nat, most: nat, s: nat)
    requires 1 <= lifetime && Rotation(ts, lifetime, t) && Bridged(ts, t) && t <= s <= t + most
    requires t + most < ts[0].notBefore + lifetime
    ensures FindForEncryption(ts, s).Some?
  {
    if s < ts[0].notBefore {
      assert ts[1..][0] == ts[1];
    }
  }

  lemma {:induction false} RunBridged(calls: seq<Call>, lifetime: nat, most: nat)
    requires calls != [] && Spaced(calls) && Prompt(calls, most) && 1 <= lifetime
    requires 60 <= most && GapFree(lifetime, most)
    ensures State(calls, lifetime).Some?
    ensures Aged(State(calls, lifetime).value, calls[|calls| - 1].now, most)
    ensures Bridged(State(calls, lifetime).value, calls[|calls| - 1].now)
  {
    var last, init := calls[|calls| - 1], calls[..|calls| - 1];
    RunInvariant(calls, lifetime);
    if init == [] {
      FirstCall(lifetime, last);
      TimesNext(most, 0);
      assert 60 * 1 <= 60 <= Times(most, 1);
    } else {
      var t, ts := init[|init| - 1].now, State(init, lifetime).value;
      RunInvariant(init, lifetime);
      RunBridged(init, lifetime, most);
      InTime(ts, lifetime, t, most);
      AgedStep(ts, lifetime, t, last, most);
      BridgedStep(ts, lifetime, t, last, most);
    }
  }

  lemma TwoCalls(calls: seq<Call>, most: nat, i: nat)
    requires Spaced(calls) && Prompt(calls, most) && 0 < i < |calls|
    ensures 60 <= most
  {
    assert calls[i - 1].now + 60 <= calls[i].now <= calls[i - 1].now + most;
  }

  lemma OneCall(calls: seq<Call>, lifetime: nat, most: nat, s: nat)
    requires calls != [] && Spaced(calls) && Prompt(calls, most) && most < 60
    requires 1 <= lifetime && calls[|calls| - 1].now <= s <= calls[|calls| - 1].now + most < calls[|calls| - 1].now + lifetime
    ensures State(calls, lifetime).Some? && FindForEncryption(State(calls, lifetime).value, s).Some?
  {
    if |calls| > 1 {
      TwoCalls(calls, most, 1);
    }
    assert State(calls[..0], lifetime) == Some([]);
    FirstCall(lifetime, calls[0]);
  }

  /** A run whose calls are never more than `most` seconds apart can encrypt at every second
      from the first call on, as long as the lifetime meets the bound. */
  lemma NoGap(calls: seq<Call>, lifetime: nat, most: nat, k: nat, s: nat)
    requires Spaced(calls) && Prompt(calls, most) && 1 <= lifetime && k < |calls|
    requires calls[k].now <= s <= calls[k].now + most
    requires GapFree(lifetime, most)
    ensures State(calls[..k + 1], lifetime).Some?
    ensures FindForEncryption(State(calls[..k + 1], lifetime).value, s).Some?
  {
    var run := calls[..k + 1];
    if most < 60 {
      OneCall(run, lifetime, most, s);
    } else {
      RunInvariant(run, lifetime);
      RunBridged(run, lifetime, most);
      InTime(State(run, lifetime).value, lifetime, calls[k].now, most);
      Covered(State(run, lifetime).value, lifetime, calls[k].now, most, s);
    }
  }

  // ---------------------------------------------------------------- and a gap otherwise

  const ANY_DRAW: Draw := Draw(0, 0)

  ghost predicate Gap(calls: seq<Call>, lifetime: nat, most: nat, s: nat) {
    && calls != [] && Spaced(calls) && Prompt(calls, most)
    && calls[|calls| - 1].now <= s <= calls[|calls| - 1].now + most
    && State(calls, lifetime).Some?
    && FindForEncryption(State(calls, lifetime).value, s).None?
  }

  lemma StateSnoc(calls: seq<Call>, call: Call, lifetime: nat)
    requires State(calls, lifetime).Some?
    ensures State(calls + [call], lifetime) == Updated(State(calls, lifetime).value, lifetime, call.now, call.draw)
  {
    assert (calls + [call])[..|calls|] == calls;
  }

  /** A run so far, with its newest ticket. */
  ghost predicate Reaches(calls: seq<Call>, lifetime: nat, most: nat, now: nat, head: Ticket) {
    && calls != [] && Spaced(calls) && Prompt(calls, most) && calls[|calls| - 1].now == now
    && State(calls, lifetime).Some? && State(calls, lifetime).value != []
    && State(calls, lifetime).value[0] == head
  }

  /** One call that finds the newest ticket still young leaves it the newest. */
  lemma IdleCall(calls: seq<Call>, lifetime: nat, most: nat, t: nat, head: Ticket, now: nat)
    returns (more: seq<Call>)
    requires Reaches(calls, lifetime, most, t, head) && 1 <= lifetime
    requires t + 60 <= now <= t + most && now <= head.notBefore + lifetime / 4
    ensures Reaches(more, lifetime, most, now, head)
  {
    more := calls + [Call(now, ANY_DRAW)];
    RunInvariant(calls, lifetime);
    StateSnoc(calls, Call(now, ANY_DRAW), lifetime);
    Young(State(calls, lifetime).value, lifetime, t, Call(now, ANY_DRAW));
  }

  /** k calls that leave the newest ticket the newest, to any second they can reach. */
  lemma {:induction false} Idle(calls: seq<Call>, lifetime: nat, most: nat, t: nat, head: Ticket, k: nat, target: nat)
    returns (more: seq<Call>)
    requires Reaches(calls, lifetime, most, t, head) && 1 <= lifetime && 60 <= most
    requires t + 60 * k <= target <= t + Times(most, k) && target <= head.notBefore + lifetime / 4
    ensures Reaches(more, lifetime, most, target, head)
    decreases k
  {
    if k == 0 {
      more := calls;
    } else {
      var now := if target - 60 * (k - 1) <= t + most then target - 60 * (k - 1) else t + most;
      TimesNext(most, k - 1);
      TimesGrows(60, most, k - 1, k - 1);
      more := IdleCall(calls, lifetime, most, t, head, now);
      more := Idle(more, lifetime, most, now, head, k - 1, target);
    }
  }

  lemma Young(ts: seq<Ticket>, lifetime: nat, t: nat, call: Call)
    requires 1 <= lifetime && Rotation(ts, lifetime, t) && t + 60 <= call.now
    requires call.now <= ts[0].notBefore + lifetime / 4
    ensures Updated(ts, lifetime, call.now, call.draw).Some?
    ensures var r := Updated(ts, lifetime, call.now, call.draw).value; r != [] && r[0] == ts[0]
  {
    CallSteps(ts, lifetime, t, call);
  }

  /** When a call is late enough, the ticket runs out before its successor is active. */
  lemma RunsOut(calls: seq<Call>, lifetime: nat, most: nat, t: nat, head: Ticket) returns (more: seq<Call>, s: nat)
    requires Reaches(calls, lifetime, most, t, head) && 1 <= lifetime && 60 <= most
    requires t <= head.notBefore + lifetime / 4 < t + most && head.notBefore + lifetime < t + most + 60
    ensures Gap(more, lifetime, most, s)
  {
    RunInvariant(calls, lifetime);
    var ts := State(calls, lifetime).value;
    s := head.notBefore + lifetime;
    if s <= t + most {
      more := calls;
    } else {
      var call := Call(t + most, ANY_DRAW);
      more := calls + [call];
      NextCall(calls, call, lifetime);
      TooLate(ts, State(more, lifetime).value, lifetime, t, call.now, s);
    }
  }

  lemma NextCall(calls: seq<Call>, call: Call, lifetime: nat)
    requires calls != [] && Spaced(calls) && 1 <= lifetime && calls[|calls| - 1].now + 60 <= call.now
    ensures State(calls, lifetime).Some? && State(calls + [call], lifetime).Some?
    ensures Step(Expire(State(calls, lifetime).value, call.now), State(calls + [call], lifetime).value, lifetime, call.now)
  {
    RunInvariant(calls, lifetime);
    CallSteps(State(calls, lifetime).value, lifetime, calls[|calls| - 1].now, call);
    StateSnoc(calls, call, lifetime);
  }

  lemma TooLate(ts: seq<Ticket>, r: seq<Ticket>, lifetime: nat, t: nat, now: nat, s: nat)
    requires 1 <= lifetime && Rotation(ts, lifetime, t) && t + 60 <= now
    requires Step(Expire(ts, now), r, lifetime, now)
    requires ts[0].notBefore + lifetime / 4 < now < s == ts[0].notBefore + lifetime < now + 60
    ensures FindForEncryption(r, s).None?
  {
    var kept := Expire(ts, now);
    assert kept != [];
    assert r[1..][0] == ts[0];
  }

  /** The first ticket, and the call that makes it. */
  lemma FirstTicket(lifetime: nat, most: nat) returns (first: seq<Call>, head: Ticket)
    requires 1 <= lifetime
    ensures Reaches(first, lifetime, most, 0, head) && head.notBefore == 0
    ensures |State(first, lifetime).value| == 1 && head.notAfter == lifetime - 1
  {
    first := [Call(0, ANY_DRAW)];
    assert first == [] + [Call(0, ANY_DRAW)];
    StateSnoc([], Call(0, ANY_DRAW), lifetime);
    FirstCall(lifetime, first[0]);
    head := State(first, lifetime).value[0];
  }

  /** A call that finds the newest ticket old, but valid, makes one for a minute later. */
  lemma NextTicket(calls: seq<Call>, lifetime: nat, most: nat, t: nat, head: Ticket, now: nat)
    returns (more: seq<Call>, next: Ticket)
    requires Reaches(calls, lifetime, most, t, head) && 1 <= lifetime && t + 60 <= now <= t + most
    requires head.notBefore + lifetime / 4 < now < head.notBefore + lifetime
    ensures Reaches(more, lifetime, most, now, next) && next.notBefore == now + 60
  {
    var call := Call(now, ANY_DRAW);
    RunInvariant(calls, lifetime);
    NextCall(calls, call, lifetime);
    more := calls + [call];
    assert Expire(State(calls, lifetime).value, now) != [];
    next := State(more, lifetime).value[0];
  }

  /** Below the bound some run has a second at which nothing can encrypt: that of the first
      ticket, or else of the second, with the call behind a quarter of its lifetime as late as
      can be. */
  lemma GapBelowBound(lifetime: nat, most: nat) returns (calls: seq<Call>, s: nat)
    requires 1 <= lifetime && !GapFree(lifetime, most)
    ensures Gap(calls, lifetime, most, s)
  {
    var first, head := FirstTicket(lifetime, most);
    if most < 60 {
      calls, s := first, lifetime;
    } else {
      var quarter := lifetime / 4;
      var last := Latest(quarter, most);
      LatestSpec(quarter, most, 0, 0);
      calls := Idle(first, lifetime, most, 0, head, quarter / 60, last);
      if lifetime < last + most + 60 {
        calls, s := RunsOut(calls, lifetime, most, last, head);
      } else {
        calls, s := SecondGap(calls, lifetime, most, last, head);
      }
    }
  }

  lemma SecondGap(calls: seq<Call>, lifetime: nat, most: nat, t: nat, head: Ticket) returns (more: seq<Call>, s: nat)
    requires Reaches(calls, lifetime, most, t, head) && 1 <= lifetime && 60 <= most && !GapFree(lifetime, most)
    requires head.notBefore + lifetime / 4 < t + 60 < head.notBefore + lifetime
    ensures Gap(more, lifetime, most, s)
  {
    var now, late := t + 60, 60 + lifetime / 4;
    var next;
    more, next := NextTicket(calls, lifetime, most, t, head, now);
    LatestSpec(late, most, 0, 0);
    more := Idle(more, lifetime, most, now, next, late / 60, now + Latest(late, most));
    more, s := RunsOut(more, lifetime, most, now + Latest(late, most), next);
  }

  /** The exact condition for gap-free rotation. */
  lemma NoGapIff(lifetime: nat, most: nat)
    requires 1 <= lifetime
    ensures (forall calls: seq<Call>, s: nat :: !Gap(calls, lifetime, most, s)) <==> GapFree(lifetime, most)
  {
    if GapFree(lifetime, most) {
      forall calls: seq<Call>, s: nat ensures !Gap(calls, lifetime, most, s) {
        if calls != [] && Spaced(calls) && Prompt(calls, most)
           && calls[|calls| - 1].now <= s <= calls[|calls| - 1].now + most {
          NoGap(calls, lifetime, most, |calls| - 1, s);
          assert calls[..|calls|] == calls;
        }
      }
    } else {
      var calls, s := GapBelowBound(lifetime, most);
    }
  }

  /** Once calls may be as much as 119 seconds apart, they can come at every second from a minute
      on, and the bound is three quarters of the lifetime. */
  lemma BoundFromTwoMinutes(lifetime: nat, most: nat)
    requires 119 <= most
    ensures GapFree(lifetime, most) <==> most + 60 <= lifetime - lifetime / 4
  {
    var late := 60 + lifetime / 4;
    TimesGrows(119, most, late / 60, late / 60);
    assert Times(119, late / 60) == 119 * (late / 60);
    assert late <= 119 * (late / 60);
  }

  /** Below, the bound is weaker: here no run has a gap. */
  lemma WeakerBound()
    ensures GapFree(150, 60) && !(60 + 60 <= 150 - 150 / 4)
  {
    assert Times(60, 97 / 60) == 60;
  }
}
