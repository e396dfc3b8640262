/**
 The bounded stage runner of scripts/acceptance_stage_runner.py: a polling loop with a timeout,
 heartbeats and kill escalation, against an environment that answers every call. The k-th poll,
 clock reading, wait and signal of a run are the values the environment gives at k.
 */
module StageRunner {
  import opened Common

  datatype SignalOutcome = Delivered | NoSuchProcess | OsError(kind: string)

  datatype TaskkillOutcome = ExitStatus(code: string) | TaskkillError(kind: string)

  datatype World = World(
    windows: bool,
    poll: nat -> Option<int>,            // process.poll()
    clock: nat -> real,                  // time.monotonic()
    wait: nat -> bool,                   // process.wait(timeout=5): true when the process exited
    taskkill: nat -> TaskkillOutcome,    // Windows: taskkill on the tree
    sigterm: nat -> SignalOutcome,       // elsewhere: SIGTERM to the group
    kill: nat -> SignalOutcome)          // SIGKILL to the group, or process.kill() on Windows

  datatype StageResult = StageResult(
    ok: bool, returncode: int, timedOut: bool, elapsed: real, termination: string, printedState: string)

  /** What one termination does to the process, in order. */
  datatype Action = Polled(exited: bool) | SentTerm | Waited(exited: bool) | SentKill

  const POLL_INTERVAL := 0.2
  const MIN_SLEEP := 0.01
  const NO_RETURN_CODE := -999

  /** `min(0.2, max(0.01, timeout - elapsed))`. */
  function SleepFor(timeout: real, elapsed: real): real {
    var left := timeout - elapsed;
    var wanted := if left > MIN_SLEEP then left else MIN_SLEEP;
    if wanted < POLL_INTERVAL then wanted else POLL_INTERVAL
  }

  /** An exited process stays exited with the same code. */
  ghost predicate StaysExited(w: World) {
    forall k: nat :: w.poll(k).Some? ==> w.poll(k + 1) == w.poll(k)
  }

  /** The exit codes of the platform do not include the marker for a missing one. */
  ghost predicate NoMarkerCode(w: World) {
    forall k: nat :: w.poll(k) != Some(NO_RETURN_CODE)
  }

  /** Elapsed time at the k-th reading. */
  function ElapsedAt(w: World, k: nat): real {
    w.clock(k) - w.clock(0)
  }

  /** The clock does not run backwards and a sleep takes at least as long as requested. */
  ghost predicate SleepsFully(w: World, timeout: real) {
    && ElapsedAt(w, 1) >= 0.0
    && forall k: nat :: k >= 1 && ElapsedAt(w, k) < timeout ==>
         ElapsedAt(w, k + 1) >= ElapsedAt(w, k) + SleepFor(timeout, ElapsedAt(w, k))
  }

  /** Nothing between two readings takes more than `d` beyond the requested sleep. */
  ghost predicate Overshoots(w: World, timeout: real, d: real) {
    && ElapsedAt(w, 1) <= d
    && forall k: nat :: k >= 1 && ElapsedAt(w, k) < timeout ==>
         ElapsedAt(w, k + 1) <= ElapsedAt(w, k) + SleepFor(timeout, ElapsedAt(w, k)) + d
  }

  /** `",".join(details)`. */
  function Join(details: seq<string>): string {
    if details == [] then "" else if |details| == 1 then details[0] else details[0] + "," + Join(details[1..])
  }

  function TermDetail(w: World, k: nat): string {
    if w.windows then
      match w.taskkill(k)
      case ExitStatus(code) => "taskkill_rc=" + code
      case TaskkillError(kind) => "taskkill_error=" + kind
    else
      match w.sigterm(k)
      case Delivered => "sigterm=sent"
      case NoSuchProcess => "sigterm=already_exited"
      case OsError(kind) => "sigterm_error=" + kind
  }

  function KillDetail(w: World, k: nat): string {
    match w.kill(k)
    case Delivered => if w.windows then "kill=sent" else "sigkill=sent"
    case NoSuchProcess => (if w.windows then "kill_error=" else "sigkill_error=") + "ProcessLookupError"
    case OsError(kind) => (if w.windows then "kill_error=" else "sigkill_error=") + kind
  }

  /** What a termination does, given the p-th poll and the waits from k on. */
  function Escalation(w: World, p: nat, k: nat): seq<Action> {
    if w.poll(p).Some? then [Polled(true)]
    else if w.wait(k) then [Polled(false), SentTerm, Waited(true)]
    else [Polled(false), SentTerm, Waited(false), SentKill, Waited(w.wait(k + 1))]
  }

  /** A termination is gentle first: the kill signal comes only after an unheeded request and a timed-out wait. */
  predicate GentleFirst(actions: seq<Action>) {
    forall i :: 0 <= i < |actions| && actions[i] == SentKill ==>
      i == 3 && actions[0] == Polled(false) && actions[1] == SentTerm && actions[2] == Waited(false)
  }

  /** The kill signal comes last and late; a running process is asked to end, and killed exactly when it does not in time. */
  lemma EscalationIsGentle(w: World, p: nat, k: nat)
    ensures GentleFirst(Escalation(w, p, k))
    ensures SentTerm in Escalation(w, p, k) <==> w.poll(p).None?
    ensures SentKill in Escalation(w, p, k) <==> w.poll(p).None? && !w.wait(k)
  {
  }

  lemma JoinTwo(a: string, b: string)
    ensures Join([a, b]) == a + ("," + b)
  {
    assert [a, b][1..] == [b];
  }

  lemma JoinThree(a: string, b: string, c: string)
    ensures Join([a, b, c]) == a + "," + b + ("," + c)
  {
    assert [a, b, c][1..] == [b, c];
    JoinTwo(b, c);
  }

  /** What a termination reports, given the p-th poll, the waits from k on and the signals from g on. */
  ghost function TerminationText(w: World, p: nat, k: nat, g: nat): string {
    if w.poll(p).Some? then "already_exited"
    else if w.wait(k) then TermDetail(w, g) + ",wait=exited"
    else TermDetail(w, g) + "," + KillDetail(w, g + 1) + (if w.wait(k + 1) then ",final_wait=exited" else ",final_wait=timeout")
  }

  lemma ExitedText(w: World, p: nat, k: nat, g: nat)
    ensures w.poll(p).Some? ==> TerminationText(w, p, k, g) == "already_exited"
  {
  }

  /** The details of a termination of a running process. */
  ghost function Details(w: World, k: nat, g: nat): seq<string> {
    if w.wait(k) then [TermDetail(w, g), "wait=exited"]
    else [TermDetail(w, g), KillDetail(w, g + 1), if w.wait(k + 1) then "final_wait=exited" else "final_wait=timeout"]
  }

  lemma DetailsText(w: World, p: nat, k: nat, g: nat)
    requires w.poll(p).None?
    ensures Join(Details(w, k, g)) == TerminationText(w, p, k, g)
  {
    hide TermDetail, KillDetail, Join;
    var d := Details(w, k, g);
    if w.wait(k) {
      JoinTwo(d[0], d[1]);
      assert "," + "wait=exited" == ",wait=exited";
    } else {
      JoinThree(d[0], d[1], d[2]);
      assert "," + "final_wait=exited" == ",final_wait=exited" && "," + "final_wait=timeout" == ",final_wait=timeout";
    }
  }

  /** The waits, and the signals, of a termination. */
  ghost function CallsOf(w: World, p: nat, k: nat): nat {
    if w.poll(p).Some? then 0 else if w.wait(k) then 1 else 2
  }

  lemma TextIsNotNone(w: World, p: nat, k: nat, g: nat)
    ensures TerminationText(w, p, k, g) != "none"
    ensures TerminationText(w, p, k, g) == "already_exited" <==> w.poll(p).Some?
  {
    assert TermDetail(w, g) != "" && TermDetail(w, g)[0] != 'n' && TermDetail(w, g)[0] != 'a';
    if w.poll(p).None? {
      assert TerminationText(w, p, k, g)[0] == TermDetail(w, g)[0];
    }
  }

  /** The details tell what became of a signal. */
  lemma DetailsTellOutcome(w: World, k: nat)
    requires !w.windows
    ensures TermDetail(w, k) == "sigterm=sent" <==> w.sigterm(k).Delivered?
    ensures TermDetail(w, k) == "sigterm=already_exited" <==> w.sigterm(k).NoSuchProcess?
    ensures KillDetail(w, k) == "sigkill=sent" <==> w.kill(k).Delivered?
  {
    assert w.sigterm(k).OsError? ==> TermDetail(w, k)[7] == '_' && "sigterm=sent"[7] == '=' && "sigterm=already_exited"[7] == '=';
    assert !w.kill(k).Delivered? ==> KillDetail(w, k)[7] == '_' && "sigkill=sent"[7] == '=';
  }

  // ----- heartbeats

  /** What the i-th heartbeat is measured from: the one before it, or the start. */
  function Previous(beats: seq<real>, started: real, i: nat): real
    requires i <= |beats|
  {
    if i == 0 then started else beats[i - 1]
  }

  /** The heartbeats due over the first n loop readings: every reading an interval or more after the one before. */
  function DueBeats(w: World, interval: real, n: nat): seq<real> {
    if n == 0 then [] else
      var beats := DueBeats(w, interval, n - 1);
      if w.clock(n) >= interval + Previous(beats, w.clock(0), |beats|) then beats + [w.clock(n)] else beats
  }

  lemma NoBeatsYet(w: World, interval: real)
    ensures DueBeats(w, interval, 0) == []
  {
  }

  ghost predicate Spaced(beats: seq<real>, started: real, interval: real) {
    forall i :: 0 <= i < |beats| ==> beats[i] >= interval + Previous(beats, started, i)
  }

  /** Polls and readings of n iterations that neither saw an exit nor the timeout. */
  ghost predicate RanFor(w: World, timeout: real, n: nat) {
    forall k: nat :: k < n ==> Idle(w, timeout, k)
  }

  predicate Idle(w: World, timeout: real, k: nat) {
    w.poll(k).None? && ElapsedAt(w, k + 1) < timeout
  }

  /** A fifth of a second, or what is left if that is less, but at least a hundredth. */
  ghost predicate IsSleepFor(sleep: real, left: real) {
    && 0.01 <= sleep <= 0.2 && (left >= 0.2 ==> sleep == 0.2) && (left <= 0.01 ==> sleep == 0.01)
    && (0.01 <= left <= 0.2 ==> sleep == left)
  }

  lemma SleepsAreWithin(w: World, timeout: real, sleeps: seq<real>)
    requires SleptAsAsked(w, timeout, sleeps)
    ensures forall k :: 0 <= k < |sleeps| ==> IsSleepFor(sleeps[k], timeout - ElapsedAt(w, k + 1))
  {
  }

  /** `returncode`, or the marker when the process still runs. */
  function CodeOf(poll: Option<int>): int {
    if poll.None? then -999 else poll.value
  }

  /** The termination reported after n sleeps: none, the first, or the second if the process survived the first. */
  ghost function Reported(w: World, timedOut: bool, n: nat): string {
    if !timedOut then "none"
    else if w.poll(n + 2).Some? then TerminationText(w, n + 1, 0, 0)
    else var used := CallsOf(w, n + 1, 0); TerminationText(w, n + 3, used, used)
  }

  lemma ReportedNone(w: World, timedOut: bool, n: nat)
    ensures Reported(w, timedOut, n) == "none" <==> !timedOut
  {
    TextIsNotNone(w, n + 1, 0, 0);
    var used := CallsOf(w, n + 1, 0);
    TextIsNotNone(w, n + 3, used, used);
  }

  /** The k-th sleep asks for what is left, between the least and the poll interval. */
  ghost predicate SleptAsAsked(w: World, timeout: real, sleeps: seq<real>) {
    forall k :: 0 <= k < |sleeps| ==> sleeps[k] == SleepFor(timeout, ElapsedAt(w, k + 1))
  }

  /** A heartbeat, or the start, less than an interval before the k-th reading. */
  ghost predicate BeatBefore(w: World, interval: real, beats: seq<real>, k: nat) {
    exists m: nat :: m <= k && RecentBeat(w, interval, beats, m, k)
  }

  ghost predicate RecentBeat(w: World, interval: real, beats: seq<real>, m: nat, k: nat) {
    (m == 0 || w.clock(m) in beats) && w.clock(k) < w.clock(m) + interval
  }

  lemma {:induction false} LastBeatIsReading(w: World, interval: real, n: nat) returns (m: nat)
    ensures var beats := DueBeats(w, interval, n);
            m <= n && w.clock(m) == Previous(beats, w.clock(0), |beats|) && (m == 0 || w.clock(m) in beats)
  {
    if n == 0 {
      m := 0;
    } else {
      m := LastBeatIsReading(w, interval, n - 1);
      if DueBeats(w, interval, n) != DueBeats(w, interval, n - 1) {
        m := n;
      }
    }
  }

  /** No due heartbeat is left out: after the start and before the timeout there is always a recent one. */
  lemma {:induction false} NoBeatIsMissed(w: World, interval: real, n: nat, k: nat)
    requires interval > 0.0 && k <= n
    ensures BeatBefore(w, interval, DueBeats(w, interval, n), k)
  {
    var beats := DueBeats(w, interval, n);
    if k < n {
      NoBeatIsMissed(w, interval, n - 1, k);
      var m: nat :| m <= k && RecentBeat(w, interval, DueBeats(w, interval, n - 1), m, k);
      assert RecentBeat(w, interval, beats, m, k);
    } else if n == 0 {
      assert RecentBeat(w, interval, beats, 0, k);
    } else {
      var m := LastBeatIsReading(w, interval, n - 1);
      if w.clock(n) >= interval + w.clock(m) {
        assert w.clock(n) in beats;
        assert RecentBeat(w, interval, beats, n, k);
      } else {
        assert RecentBeat(w, interval, beats, m, k);
      }
    }
  }

  lemma {:induction false} BeatsAreSpaced(w: World, interval: real, timeout: real, n: nat)
    requires RanFor(w, timeout, n)
    ensures var beats := DueBeats(w, interval, n);
            && Spaced(beats, w.clock(0), interval)
            && forall i :: 0 <= i < |beats| ==> beats[i] < w.clock(0) + timeout
  {
    if n > 0 {
      BeatsAreSpaced(w, interval, timeout, n - 1);
      var beats := DueBeats(w, interval, n - 1);
      assert Idle(w, timeout, n - 1) && w.clock(n) < w.clock(0) + timeout;
      hide Idle, Spaced;
      if w.clock(n) >= interval + Previous(beats, w.clock(0), |beats|) {
        SpacedSnoc(beats, w.clock(0), interval, w.clock(n));
      }
    }
  }

  lemma SpacedSnoc(beats: seq<real>, started: real, interval: real, next: real)
    requires Spaced(beats, started, interval) && next >= interval + Previous(beats, started, |beats|)
    ensures Spaced(beats + [next], started, interval)
  {
    assert forall i :: 0 <= i <= |beats| ==> Previous(beats + [next], started, i) == Previous(beats, started, i);
  }

  /** Spaced heartbeats are few: their number times the interval stays below the timeout. */
  lemma {:induction false} HeartbeatsAreFew(beats: seq<real>, started: real, interval: real, timeout: real)
    requires interval > 0.0 && timeout > 0.0
    requires Spaced(beats, started, interval)
    requires forall i :: 0 <= i < |beats| ==> beats[i] < started + timeout
    ensures |beats| as real * interval < timeout
    ensures beats != [] ==> |beats| as real * interval <= beats[|beats| - 1] - started
  {
    if beats != [] {
      var front := beats[..|beats| - 1];
      assert forall i :: 0 <= i < |front| ==> Previous(front, started, i) == Previous(beats, started, i);
      HeartbeatsAreFew(front, started, interval, timeout);
      assert beats[|beats| - 1] >= interval + Previous(beats, started, |front|);
      assert |beats| as real == |front| as real + 1.0;
      assert |beats| as real * interval == |front| as real * interval + interval;
    }
  }

  // ----- pace

  /** Before the next reading, after n sleeps: n intervals have passed or the timeout has, and not much more. */
  ghost predicate OnPace(w: World, timeout: real, d: real, n: nat) {
    && n <= (timeout / POLL_INTERVAL).Floor + 1
    && (ElapsedAt(w, n + 1) >= timeout || ElapsedAt(w, n + 1) >= n as real * POLL_INTERVAL)
    && (d >= 0.0 && Overshoots(w, timeout, d) ==> ElapsedAt(w, n + 1) < timeout + MIN_SLEEP + d)
  }

  lemma FirstReading(w: World, timeout: real, d: real)
    requires SleepsFully(w, timeout) && timeout > 0.0
    ensures OnPace(w, timeout, d, 0)
  {
  }

  lemma SleepKeepsPace(w: World, timeout: real, d: real, n: nat)
    requires SleepsFully(w, timeout) && OnPace(w, timeout, d, n) && ElapsedAt(w, n + 1) < timeout
    ensures OnPace(w, timeout, d, n + 1)
  {
    assert n + 1 >= 1 && n + 1 + 1 == n + 2;
    assert n as real < timeout / POLL_INTERVAL;
  }

  class StageRun {
    const world: World
    var polls: nat
    var readings: nat
    var waits: nat
    var signals: nat
    var sleeps: seq<real>                // requested durations
    var heartbeats: seq<real>            // clock readings at which one was printed
    var terminations: seq<seq<Action>>
    ghost var detectedAt: real           // elapsed time when the timeout was seen

    constructor (w: World)
      ensures world == w && polls == readings == waits == signals == 0
      ensures sleeps == [] && heartbeats == [] && terminations == []
    {
      world := w;
      polls, readings, waits, signals := 0, 0, 0, 0;
      sleeps, heartbeats, terminations := [], [], [];
      detectedAt := 0.0;
    }

    method Poll() returns (code: Option<int>)
      modifies this`polls
      ensures polls == old(polls) + 1 && code == world.poll(old(polls))
    {
      code := world.poll(polls);
      polls := polls + 1;
    }

    method ReadClock() returns (now: real)
      modifies this`readings
      ensures readings == old(readings) + 1 && now == world.clock(old(readings))
    {
      now := world.clock(readings);
      readings := readings + 1;
    }

    /** `_terminate_process_tree`. */
    method Terminate() returns (details: string)
      modifies this`polls, this`waits, this`signals, this`terminations
      ensures polls == old(polls) + 1
      ensures waits - old(waits) == signals - old(signals) == CallsOf(world, old(polls), old(waits))
      ensures details == TerminationText(world, old(polls), old(waits), old(signals))
      ensures terminations == old(terminations) + [Escalation(world, old(polls), old(waits))]
    {
      hide TermDetail, KillDetail, Join, TerminationText;
      ExitedText(world, polls, waits, signals);
      var code := Poll();
      if code.Some? {
        terminations := terminations + [[Polled(true)]];
        return "already_exited";
      }
      var actions := [Polled(false), SentTerm];
      var parts := [TermDetail(world, signals)];
      signals := signals + 1;
      var exited := world.wait(waits);
      waits := waits + 1;
      actions := actions + [Waited(exited)];
      if exited {
        parts := parts + ["wait=exited"];
      } else {
        parts := parts + [KillDetail(world, signals)];
        signals := signals + 1;
        exited := world.wait(waits);
        waits := waits + 1;
        actions := actions + [SentKill, Waited(exited)];
        parts := parts + [if exited then "final_wait=exited" else "final_wait=timeout"];
      }
      assert actions == Escalation(world, old(polls), old(waits));
      terminations := terminations + [actions];
      details := Join(parts);
      assert parts == Details(world, old(waits), old(signals));
      DetailsText(world, old(polls), old(waits), old(signals));
    }

    /** The heartbeat test of one iteration, after n others. */
    method Beat(now: real, interval: real, next: real, ghost n: nat) returns (next': real)
      requires heartbeats == DueBeats(world, interval, n) && now == world.clock(n + 1)
      requires next == interval + Previous(heartbeats, world.clock(0), |heartbeats|)
      modifies this`heartbeats
      ensures heartbeats == DueBeats(world, interval, n + 1)
      ensures next' == interval + Previous(heartbeats, world.clock(0), |heartbeats|)
    {
      next' := next;
      if now >= next {
        heartbeats := heartbeats + [now];
        next' := now + interval;
      }
    }

    /**
     The polling loop: it ends at the first poll that sees an exit, or at the first reading that sees
     the timeout, and then the tree is terminated once.
     */
    method PollUntilDone(timeout: real, heartbeat: real, started: real, ghost d: real) returns (timedOut: bool, termination: string)
      requires polls == waits == signals == 0 && readings == 1 && sleeps == [] && heartbeats == [] && terminations == []
      requires started == world.clock(0) && SleepsFully(world, timeout) && timeout > 0.0
      modifies this
      ensures RanFor(world, timeout, |sleeps|) && OnPace(world, timeout, d, |sleeps|)
      ensures SleptAsAsked(world, timeout, sleeps)
      ensures heartbeats == DueBeats(world, heartbeat, |sleeps|)
      ensures timedOut ==>
                && world.poll(|sleeps|).None? && detectedAt == ElapsedAt(world, |sleeps| + 1) >= timeout
                && polls == readings == |sleeps| + 2 && waits == signals == CallsOf(world, |sleeps| + 1, 0)
                && termination == TerminationText(world, |sleeps| + 1, 0, 0)
                && terminations == [Escalation(world, |sleeps| + 1, 0)]
      ensures !timedOut ==>
                && world.poll(|sleeps|).Some? && polls == readings == |sleeps| + 1 && waits == signals == 0
                && termination == "none" && terminations == []
    {
      hide SleepsFully, OnPace, Escalation, DueBeats, SleepFor, TerminationText;
      assert DueBeats(world, heartbeat, 0) == [] by { NoBeatsYet(world, heartbeat); }
      var nextHeartbeat := started + heartbeat;
      FirstReading(world, timeout, d);
      timedOut, termination := false, "none";
      var code := Poll();
      while code.None?
        invariant readings == polls == |sleeps| + 1 && code == world.poll(|sleeps|) && waits == signals == 0
        invariant !timedOut && termination == "none" && terminations == []
        invariant RanFor(world, timeout, |sleeps|) && OnPace(world, timeout, d, |sleeps|)
        invariant SleptAsAsked(world, timeout, sleeps)
        invariant heartbeats == DueBeats(world, heartbeat, |sleeps|)
        invariant nextHeartbeat == heartbeat + Previous(heartbeats, started, |heartbeats|)
        decreases (timeout / POLL_INTERVAL).Floor + 2 - |sleeps|
      {
        var now := ReadClock();
        var elapsed := now - started;
        assert elapsed == ElapsedAt(world, |sleeps| + 1);
        if elapsed >= timeout {
          detectedAt := elapsed;
          timedOut := true;
          termination := Terminate();
          break;
        }
        nextHeartbeat := Beat(now, heartbeat, nextHeartbeat, |sleeps|);
        assert Idle(world, timeout, |sleeps|);
        SleepKeepsPace(world, timeout, d, |sleeps|);
        PaceIsBounded(world, timeout, d, |sleeps| + 1);
        sleeps := sleeps + [SleepFor(timeout, elapsed)];
        code := Poll();
      }
    }

    static lemma PaceIsBounded(w: World, timeout: real, d: real, n: nat)
      requires OnPace(w, timeout, d, n)
      ensures n <= (timeout / POLL_INTERVAL).Floor + 1
      ensures d >= 0.0 && Overshoots(w, timeout, d) ==> ElapsedAt(w, n + 1) < timeout + MIN_SLEEP + d
    {
    }

    /** `run_stage`. `d` is any bound on the overshoot of a sleep. */
    method Run(timeout: real, heartbeat: real, ghost d: real) returns (r: Result<StageResult, string>)
      requires polls == readings == waits == signals == 0 && sleeps == [] && heartbeats == [] && terminations == []
      requires StaysExited(world) && SleepsFully(world, timeout)
      modifies this
      ensures r.Err? <==> timeout <= 0.0 || heartbeat <= 0.0
      // the loop ends at the first exit or the first reading past the timeout
      ensures r.Ok? ==> RanFor(world, timeout, |sleeps|)
      ensures r.Ok? && !r.value.timedOut ==> world.poll(|sleeps|) == Some(r.value.returncode)
      ensures r.Ok? && r.value.timedOut ==>
                world.poll(|sleeps|).None? && detectedAt == ElapsedAt(world, |sleeps| + 1) >= timeout
      // bounded polling, and prompt detection of the timeout
      ensures r.Ok? ==> |sleeps| <= (timeout / POLL_INTERVAL).Floor + 1 && SleptAsAsked(world, timeout, sleeps)
      ensures r.Ok? && r.value.timedOut && d >= 0.0 && Overshoots(world, timeout, d) ==>
                detectedAt < timeout + MIN_SLEEP + d
      ensures r.Ok? ==> forall k :: 0 <= k < |sleeps| ==> IsSleepFor(sleeps[k], timeout - ElapsedAt(world, k + 1))
      // heartbeats: exactly the due ones, spaced and bounded, none missed
      ensures r.Ok? ==> heartbeats == DueBeats(world, heartbeat, |sleeps|)
      ensures r.Ok? ==> forall k: nat :: k <= |sleeps| ==> BeatBefore(world, heartbeat, heartbeats, k)
      ensures r.Ok? ==> Spaced(heartbeats, world.clock(0), heartbeat) && |heartbeats| as real * heartbeat < timeout
      // termination of the process tree: on a timeout, again exactly when the process survives it, always gentle first
      ensures r.Ok? ==> (terminations == [] <==> !r.value.timedOut) && |terminations| <= 2
      ensures r.Ok? ==> (|terminations| == 2 <==> r.value.timedOut && world.poll(|sleeps| + 2).None?)
      ensures r.Ok? ==> r.value.termination == Reported(world, r.value.timedOut, |sleeps|)
      ensures r.Ok? && r.value.timedOut ==> terminations[0] == Escalation(world, |sleeps| + 1, 0)
      ensures r.Ok? && |terminations| == 2 ==> terminations[1] == Escalation(world, |sleeps| + 3, CallsOf(world, |sleeps| + 1, 0))
      ensures r.Ok? ==> forall i :: 0 <= i < |terminations| ==> GentleFirst(terminations[i])
      ensures r.Ok? ==> (r.value.termination == "none" <==> !r.value.timedOut)
      // return code and duration: the last poll and the last reading
      ensures r.Ok? ==> r.value.returncode == CodeOf(world.poll(|sleeps| + 2 + |terminations|))
      ensures r.Ok? ==> r.value.elapsed == world.clock(|sleeps| + if r.value.timedOut then 2 else 1) - world.clock(0)
      // the verdict
      ensures r.Ok? ==> (r.value.ok <==> !r.value.timedOut && r.value.returncode == 0)
      ensures r.Ok? ==> (r.value.printedState == "PASS" <==> r.value.ok)
      ensures r.Ok? ==> (r.value.printedState == "TIMEOUT" <==> r.value.timedOut)
      ensures r.Ok? ==> r.value.printedState in {"PASS", "FAIL", "TIMEOUT"}
      ensures r.Ok? && NoMarkerCode(world) && r.value.returncode == NO_RETURN_CODE ==> r.value.timedOut
    {
      hide *;
      if timeout <= 0.0 {
        return Err("timeout_seconds must be positive");
      }
      if heartbeat <= 0.0 {
        return Err("heartbeat_seconds must be positive");
      }
      var started := ReadClock();
      var timedOut, termination := PollUntilDone(timeout, heartbeat, started, d);
      PaceIsBounded(world, timeout, d, |sleeps|);
      BeatsAreSpaced(world, heartbeat, timeout, |sleeps|);
      HeartbeatsAreFew(heartbeats, started, heartbeat, timeout);
      forall k: nat | k <= |sleeps|
        ensures BeatBefore(world, heartbeat, heartbeats, k)
      {
        NoBeatIsMissed(world, heartbeat, |sleeps|, k);
      }
      SleepsAreWithin(world, timeout, sleeps);
      EscalationIsGentle(world, |sleeps| + 1, 0);
      EscalationIsGentle(world, |sleeps| + 3, CallsOf(world, |sleeps| + 1, 0));
      ReportedNone(world, timedOut, |sleeps|);
      var result := Conclude(started, timedOut, termination, |sleeps|);
      return Ok(result);
    }

    /** After the loop: a last termination if the process still runs, the return code and the verdict. */
    method Conclude(started: real, timedOut: bool, cause: string, ghost n: nat) returns (r: StageResult)
      requires StaysExited(world)
      requires started == world.clock(0)
      requires timedOut ==>
                 && polls == readings == n + 2 && waits == signals == CallsOf(world, n + 1, 0)
                 && cause == TerminationText(world, n + 1, 0, 0) && terminations == [Escalation(world, n + 1, 0)]
      requires !timedOut ==>
                 && polls == readings == n + 1 && waits == signals == 0
                 && cause == "none" && terminations == [] && world.poll(n).Some?
      modifies this`polls, this`readings, this`waits, this`signals, this`terminations
      ensures r.timedOut == timedOut
      ensures terminations == if !timedOut then [] else
                if world.poll(n + 2).Some? then [Escalation(world, n + 1, 0)]
                else [Escalation(world, n + 1, 0), Escalation(world, n + 3, CallsOf(world, n + 1, 0))]
      ensures r.termination == Reported(world, timedOut, n)
      ensures r.returncode == CodeOf(world.poll(n + 2 + |terminations|))
      ensures r.elapsed == world.clock(n + if timedOut then 2 else 1) - world.clock(0)
      ensures r.ok <==> !timedOut && r.returncode == 0
      ensures r.printedState == "PASS" <==> r.ok
      ensures r.printedState == "TIMEOUT" <==> timedOut
      ensures r.printedState in {"PASS", "FAIL", "TIMEOUT"}
      ensures !timedOut ==> world.poll(n) == Some(r.returncode)
      ensures NoMarkerCode(world) && r.returncode == NO_RETURN_CODE ==> timedOut
    {
      hide Escalation, TerminationText, CallsOf;
      var termination := cause;
      assert !timedOut ==> world.poll(n + 1) == world.poll(n) && world.poll(n + 1 + 1) == world.poll(n + 1);
      var code := Poll();
      if code.None? {
        termination := Terminate();
      }
      code := Poll();
      var returncode := if code.None? then NO_RETURN_CODE else code.value;
      var finished := ReadClock();
      var state := if timedOut then "TIMEOUT" else if returncode == 0 then "PASS" else "FAIL";
      r := StageResult(!timedOut && returncode == 0, returncode, timedOut, finished - started, termination, state);
    }
  }
}
