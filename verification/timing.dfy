/**
 * The measurement engine `timeit` of timeit.js, for integer loop counts.
 *
 * The candidate function f is observed, not run: every run produces a trace
 * of events (f called, f finished, a deferral to the event loop, the printed
 * report, the callback). The clock readings t1 and t2 taken around the timed
 * region, and the overhead constants that calibration would measure, are
 * parameters. An asynchronous f is taken to invoke its continuation exactly
 * once, before anything else happens.
 */
module Timing {
  import opened Wrappers

  /** Identifies a JavaScript function value passed in as an argument. */
  type Handle = nat

  /** The `nloops` argument: null, or a number. */
  datatype LoopArg = Null | Num(x: real)

  /** The `msg` argument: absent, a string, or a function (then it is the callback). */
  datatype MsgArg = NoMsg | Text(s: string) | Func(f: Handle)

  /** The label that switches reporting off. */
  const Silent: string := "/* NOOUTPUT */"

  /** The chain defers to the event loop once its depth counter exceeds this. */
  const MaxDepth: nat := 500

  /** What the argument checks decide: return at once, run a counted loop, or run for a duration. */
  datatype Mode = Skip | Counted(n: nat) | Timed

  /** `__timerOverhead`, `__loopOverhead` and `__loopOverheadCb`: seconds, and seconds per million calls. */
  datatype Overheads = Overheads(timer: real, loop: real, loopCb: real)

  /**
   * What a run does that can be observed. `Call(depth)` is a call of f; depth
   * is the chain's `__depth` counter after it was bumped for this call, and 0
   * for calls outside the chain. `Done` is f returning, or invoking its
   * continuation. `Defer` is a `setImmediate` hand-over to the event loop.
   */
  datatype Event =
    | Call(depth: nat)
    | Done
    | Defer
    | Report(text: string, count: nat, duration: real)
    | Callback(target: Handle, count: nat, duration: real)

  predicate IsCall(e: Event) { e.Call? }
  predicate IsDone(e: Event) { e.Done? }
  predicate IsDefer(e: Event) { e.Defer? }
  predicate IsReport(e: Event) { e.Report? }
  predicate IsCallback(e: Event) { e.Callback? }

  /** How many events of a trace satisfy p. */
  function Count(t: seq<Event>, p: Event -> bool): nat {
    if t == [] then 0 else Count(t[..|t| - 1], p) + (if p(t[|t| - 1]) then 1 else 0)
  }

  lemma {:induction false} CountAppend(a: seq<Event>, b: seq<Event>, p: Event -> bool)
    ensures Count(a + b, p) == Count(a, p) + Count(b, p)
  {
    if b != [] {
      assert (a + b)[..|a + b| - 1] == a + b[..|b| - 1];
      CountAppend(a, b[..|b| - 1], p);
    } else {
      assert a + b == a;
    }
  }

  lemma CountPair(x: Event, y: Event, p: Event -> bool)
    ensures Count([x, y], p) == (if p(x) then 1 else 0) + (if p(y) then 1 else 0)
  {
    assert [x, y][..1] == [x];
    assert [x][..0] == [];
    assert Count([x], p) == (if p(x) then 1 else 0);
  }

  /** No event of t satisfies p, so none is counted. */
  lemma {:induction false} CountNone(t: seq<Event>, p: Event -> bool)
    requires forall i :: 0 <= i < |t| ==> !p(t[i])
    ensures Count(t, p) == 0
  {
    if t != [] {
      CountNone(t[..|t| - 1], p);
    }
  }

  /**
   * Calls never overlap: every call of f is followed at once by its
   * completion, and every completion comes right after a call.
   */
  predicate Sequential(t: seq<Event>) {
    (forall i :: 0 <= i < |t| && t[i].Call? ==> i + 1 < |t| && t[i + 1].Done?) &&
    (forall i :: 0 <= i < |t| && t[i].Done? ==> 0 < i && t[i - 1].Call?)
  }

  lemma SequentialAppend(a: seq<Event>, b: seq<Event>)
    requires Sequential(a) && Sequential(b)
    ensures Sequential(a + b)
  {
    var t := a + b;
    forall i | 0 <= i < |t| && t[i].Call? ensures i + 1 < |t| && t[i + 1].Done? {
      if i < |a| { assert a[i].Call?; } else { assert b[i - |a|].Call?; }
    }
    forall i | 0 <= i < |t| && t[i].Done? ensures 0 < i && t[i - 1].Call? {
      if i < |a| { assert a[i].Done?; } else { assert b[i - |a|].Done?; }
    }
  }

  // ---------------------------------------------------------------------------
  // Argument handling

  /** A function passed in the msg slot replaces the callback, and msg becomes absent. */
  function Normalize(msg: MsgArg, callback: Option<Handle>): (r: (MsgArg, Option<Handle>))
    ensures !r.0.Func?
    ensures msg.Func? ==> r.0 == NoMsg && r.1 == Some(msg.f)
    ensures !msg.Func? ==> r.0 == msg && r.1 == callback
  {
    if msg.Func? then (NoMsg, Some(msg.f)) else (msg, callback)
  }

  /** JavaScript's truncation toward zero of a finite number. */
  function Trunc(x: real): int {
    if x < 0.0 then -((-x).Floor) else x.Floor
  }

  /** JavaScript's ToInt32, which a bitwise OR with 0 applies: truncate, then wrap into 32-bit two's complement. */
  function ToInt32(x: real): (r: int)
    ensures -0x8000_0000 <= r < 0x8000_0000
    ensures (Trunc(x) - r) % 0x1_0000_0000 == 0
  {
    var m := Trunc(x) % 0x1_0000_0000;
    if m >= 0x8000_0000 then m - 0x1_0000_0000 else m
  }

  predicate IsWhole(x: real) {
    x == x.Floor as real
  }

  /**
   * The argument checks as written: a number at or below zero is turned away
   * by the guard; then every number that differs from its ToInt32 image, that
   * is every number that is not a 32-bit integer, goes to duration mode, and
   * so does null, whose image 0 differs from it.
   */
  function ModeAsWritten(nloops: LoopArg): Mode {
    match nloops
    case Null => Timed
    case Num(x) =>
      if x <= 0.0 then Skip
      else if x == ToInt32(x) as real then Counted(x.Floor)
      else Timed
  }

  /** The argument checks with the count test reading "a whole number". */
  function ModeOf(nloops: LoopArg): Mode {
    match nloops
    case Null => Timed
    case Num(x) =>
      if x <= 0.0 then Skip
      else if IsWhole(x) then Counted(x.Floor)
      else Timed
  }

  /** A count of 2^31 is a whole number, yet the code as written runs it in duration mode. */
  lemma LargeCountMisread()
    ensures IsWhole(2147483648.0)
    ensures ModeAsWritten(Num(2147483648.0)) == Timed
    ensures ModeOf(Num(2147483648.0)) == Counted(2147483648)
  {
    assert (2147483648.0).Floor == 2147483648;
    assert Trunc(2147483648.0) == 2147483648;
    assert ToInt32(2147483648.0) == -2147483648;
  }

  /** Below 2^31 the code as written and the corrected count test agree. */
  lemma ModeAsWrittenBelowLimit(x: real)
    requires x < 2147483648.0
    ensures ModeAsWritten(Num(x)) == ModeOf(Num(x))
  {
    if x > 0.0 {
      assert Trunc(x) == x.Floor;
      assert 0 <= x.Floor < 0x8000_0000;
      assert ToInt32(x) == x.Floor;
    }
  }

  /**
   * A number is run as a counted loop exactly when it is a positive whole
   * number, and the loop count is that number; the guard catches exactly
   * the numbers at or below zero.
   */
  lemma ModeOfNumber(x: real)
    ensures ModeOf(Num(x)).Counted? <==> x > 0.0 && IsWhole(x)
    ensures ModeOf(Num(x)).Counted? ==> ModeOf(Num(x)).n as real == x
    ensures ModeOf(Num(x)) == Skip <==> x <= 0.0
  {
  }
  /**
   * As written, a number runs as a counted loop exactly when it is a whole
   * number from 1 to 2^31 - 1, and the loop count is that number; every
   * larger whole number goes to duration mode.
   */
  lemma ModeAsWrittenNumber(x: real)
    ensures ModeAsWritten(Num(x)).Counted? <==> 0.0 < x < 2147483648.0 && IsWhole(x)
    ensures ModeAsWritten(Num(x)).Counted? ==> ModeAsWritten(Num(x)).n as real == x
    ensures ModeAsWritten(Num(x)) == Skip <==> x <= 0.0
  {
    if x < 2147483648.0 {
      ModeAsWrittenBelowLimit(x);
      ModeOfNumber(x);
    } else {
      assert ToInt32(x) < 0x8000_0000;
    }
  }


  // ---------------------------------------------------------------------------
  // The duration formula and the report

  /**
   * The wall time of the timed region less the cost of one clock read and
   * the loop's own cost per million calls, scaled to the calls made.
   */
  function CorrectedDuration(t1: real, t2: real, timerOverhead: real, perMillion: real, callCount: nat): (d: real)
    ensures d == 0.0 <==> t2 - t1 == timerOverhead + perMillion * callCount as real / 1000000.0
    ensures timerOverhead >= 0.0 && perMillion >= 0.0 ==> d <= t2 - t1
    ensures d + timerOverhead + perMillion * callCount as real / 1000000.0 == t2 - t1
  {
    t2 - t1 - timerOverhead - perMillion * callCount as real * 0.000001
  }

  /** A report is printed unless msg is the silent label. */
  predicate Reports(msg: MsgArg) {
    msg != Text(Silent)
  }

  /** The label reportit prints: the message text, or empty when there is none. */
  function Label(msg: MsgArg): string {
    if msg.Text? then msg.s else ""
  }

  /** The report line, unless the run is silent. */
  function ReportEvents(msg: MsgArg, count: nat, duration: real): (t: seq<Event>)
    ensures |t| == (if Reports(msg) then 1 else 0)
    ensures Reports(msg) ==> t[0] == Report(Label(msg), count, duration)
  {
    if Reports(msg) then [Report(Label(msg), count, duration)] else []
  }

  lemma ReportCounts(msg: MsgArg, count: nat, duration: real)
    ensures var t := ReportEvents(msg, count, duration);
      Count(t, IsReport) == (if Reports(msg) then 1 else 0) &&
      Count(t, IsCall) == 0 && Count(t, IsDone) == 0 && Count(t, IsCallback) == 0 && Count(t, IsDefer) == 0 &&
      Sequential(t)
  {
    var t := ReportEvents(msg, count, duration);
    if Reports(msg) { assert t[..0] == []; }
  }

  // ---------------------------------------------------------------------------
  // The synchronous counted loop

  /** n turns of the counted loop: each calls f, which returns. */
  function CallsAndReturns(n: nat): seq<Event> {
    if n == 0 then [] else CallsAndReturns(n - 1) + [Call(0), Done]
  }

  lemma {:induction false} CallsAndReturnsCounts(n: nat)
    ensures var t := CallsAndReturns(n);
      Count(t, IsCall) == n && Count(t, IsDone) == n && Count(t, IsReport) == 0 &&
      Count(t, IsCallback) == 0 && Count(t, IsDefer) == 0 && Sequential(t)
  {
    if n > 0 {
      CallsAndReturnsCounts(n - 1);
      var p := [Call(0), Done];
      CountAppend(CallsAndReturns(n - 1), p, IsCall);
      CountAppend(CallsAndReturns(n - 1), p, IsDone);
      CountAppend(CallsAndReturns(n - 1), p, IsReport);
      CountAppend(CallsAndReturns(n - 1), p, IsCallback);
      CountAppend(CallsAndReturns(n - 1), p, IsDefer);
      CountPair(Call(0), Done, IsCall);
      CountPair(Call(0), Done, IsDone);
      CountPair(Call(0), Done, IsReport);
      CountPair(Call(0), Done, IsCallback);
      CountPair(Call(0), Done, IsDefer);
      SequentialAppend(CallsAndReturns(n - 1), p);
    }
  }

  /** The synchronous counted loop: each turn bumps the call counter, then calls f. */
  method CountedLoop(nloops: nat) returns (trace: seq<Event>, callCount: nat)
    ensures callCount == nloops
    ensures trace == CallsAndReturns(nloops)
  {
    trace, callCount := [], 0;
    var i := 0;
    while i < nloops
      invariant 0 <= i <= nloops
      invariant callCount == i
      invariant trace == CallsAndReturns(i)
    {
      callCount := callCount + 1;
      trace := trace + [Call(0), Done];
      i := i + 1;
    }
  }

  // ---------------------------------------------------------------------------
  // The asynchronous chain

  /**
   * The events `__launchNext` produces from the state (`__nleft`, `__depth`)
   * until `__nleft` is 0: bump the counters, call f, and when f's
   * continuation runs either recurse at once or, past MaxDepth, reset the
   * depth and defer through `setImmediate`.
   */
  function ChainEvents(nleft: nat, depth: nat): seq<Event>
    decreases nleft
  {
    if nleft == 0 then []
    else
      var d := depth + 1;
      [Call(d), Done] + if d > MaxDepth then [Defer] + ChainEvents(nleft - 1, 0) else ChainEvents(nleft - 1, d)
  }

  /** The chain holds nothing but calls, completions and deferrals. */
  lemma {:induction false} ChainKinds(nleft: nat, depth: nat)
    ensures forall e :: e in ChainEvents(nleft, depth) ==> e.Call? || e.Done? || e.Defer?
  {
    if nleft > 0 {
      var d := depth + 1;
      var next := if d > MaxDepth then 0 else d;
      ChainKinds(nleft - 1, next);
      var t, tail := ChainEvents(nleft, depth), ChainEvents(nleft - 1, next);
      var head := if d > MaxDepth then [Call(d), Done, Defer] else [Call(d), Done];
      assert t == head + tail;
      forall i | 0 <= i < |t| ensures t[i].Call? || t[i].Done? || t[i].Defer? {
        if i >= |head| { assert t[i] == tail[i - |head|]; }
        else if i == 0 { assert t[i] == Call(d); }
        else { assert t[i] == head[i]; }
      }
    }
  }

  /** The chain calls f once per remaining count, one call at a time. */
  lemma {:induction false} ChainCounts(nleft: nat, depth: nat)
    ensures var t := ChainEvents(nleft, depth);
      Count(t, IsCall) == nleft && Count(t, IsDone) == nleft && Sequential(t)
  {
    if nleft > 0 {
      var d := depth + 1;
      var head := [Call(d), Done];
      var next := if d > MaxDepth then 0 else d;
      var tail := ChainEvents(nleft - 1, next);
      var rest := if d > MaxDepth then [Defer] + tail else tail;
      ChainCounts(nleft - 1, next);
      if d > MaxDepth {
        CountAppend([Defer], tail, IsCall);
        CountAppend([Defer], tail, IsDone);
        assert [Defer][..0] == [];
        SequentialAppend([Defer], tail);
      }
      CountAppend(head, rest, IsCall);
      CountAppend(head, rest, IsDone);
      CountPair(Call(d), Done, IsCall);
      CountPair(Call(d), Done, IsDone);
      SequentialAppend(head, rest);
    }
  }

  /** The chain reports nothing and calls back nobody by itself. */
  lemma ChainSilent(nleft: nat, depth: nat)
    ensures var t := ChainEvents(nleft, depth);
      Count(t, IsReport) == 0 && Count(t, IsCallback) == 0
  {
    ChainKinds(nleft, depth);
    var t := ChainEvents(nleft, depth);
    forall i | 0 <= i < |t| ensures !IsReport(t[i]) && !IsCallback(t[i]) {
      assert t[i] in t;
    }
    CountNone(ChainEvents(nleft, depth), IsReport);
    CountNone(ChainEvents(nleft, depth), IsCallback);
  }

  /** Started from a depth within bounds, no call of f happens deeper than MaxDepth + 1. */
  lemma {:induction false} ChainDepthBound(nleft: nat, depth: nat)
    requires depth <= MaxDepth
    ensures forall e :: e in ChainEvents(nleft, depth) && e.Call? ==> 1 <= e.depth <= MaxDepth + 1
  {
    if nleft > 0 {
      var d := depth + 1;
      var t := ChainEvents(nleft, depth);
      var next := if d > MaxDepth then 0 else d;
      ChainDepthBound(nleft - 1, next);
      var tail := ChainEvents(nleft - 1, next);
      var head := if d > MaxDepth then [Call(d), Done, Defer] else [Call(d), Done];
      assert t == head + tail;
      forall i | 0 <= i < |t| && t[i].Call? ensures 1 <= t[i].depth <= MaxDepth + 1 {
        if i >= |head| { assert t[i] == tail[i - |head|]; }
        else { assert t[i] == head[i]; }
      }
    }
  }

  /**
   * The chain defers once per MaxDepth + 1 calls: from depth `depth`, it
   * hands over to the event loop (depth + nleft) / (MaxDepth + 1) times.
   */
  lemma {:induction false} ChainDeferrals(nleft: nat, depth: nat)
    requires depth <= MaxDepth
    ensures Count(ChainEvents(nleft, depth), IsDefer) == (depth + nleft) / (MaxDepth + 1)
  {
    if nleft > 0 {
      var d := depth + 1;
      var head := [Call(d), Done];
      CountPair(Call(d), Done, IsDefer);
      if d > MaxDepth {
        var tail := ChainEvents(nleft - 1, 0);
        ChainDeferrals(nleft - 1, 0);
        CountAppend([Defer], tail, IsDefer);
        assert [Defer][..0] == [];
        CountAppend(head, [Defer] + tail, IsDefer);
        assert d == MaxDepth + 1;
        assert (depth + nleft) / (MaxDepth + 1) == 1 + (nleft - 1) / (MaxDepth + 1) by {
          assert depth + nleft == (MaxDepth + 1) + (nleft - 1);
        }
      } else {
        ChainDeferrals(nleft - 1, d);
        CountAppend(head, ChainEvents(nleft - 1, d), IsDefer);
        assert d + (nleft - 1) == depth + nleft;
      }
    }
  }

  /**
   * The `__launchNext` chain run as a loop over its closure state
   * `__nleft`, `__depth` and `__callCount`.
   */
  method LaunchChain(nloops: nat) returns (trace: seq<Event>, callCount: nat)
    ensures callCount == nloops
    ensures trace == ChainEvents(nloops, 0)
  {
    var nleft, depth := nloops, 0;
    trace, callCount := [], 0;
    while nleft != 0
      invariant callCount + nleft == nloops
      invariant depth <= MaxDepth
      invariant trace + ChainEvents(nleft, depth) == ChainEvents(nloops, 0)
    {
      ChainStep(trace, nleft, depth);
      nleft, depth, callCount := nleft - 1, depth + 1, callCount + 1;
      trace := trace + [Call(depth), Done];
      if depth > MaxDepth {
        depth := 0;
        trace := trace + [Defer];
      }
    }
  }

  /** One turn of the chain, seen from the events already produced. */
  lemma ChainStep(before: seq<Event>, nleft: nat, depth: nat)
    requires nleft > 0
    ensures var d := depth + 1;
      var now := before + [Call(d), Done];
      before + ChainEvents(nleft, depth) ==
        if d > MaxDepth then (now + [Defer]) + ChainEvents(nleft - 1, 0) else now + ChainEvents(nleft - 1, d)
  {
    var d := depth + 1;
    var now := before + [Call(d), Done];
    if d > MaxDepth {
      assert before + ChainEvents(nleft, depth) == before + ([Call(d), Done] + ([Defer] + ChainEvents(nleft - 1, 0)));
    }
  }

  // ---------------------------------------------------------------------------
  // The two paths and the whole of timeit

  /** The synchronous path: one untimed call, the counted loop, the report. */
  function SyncEvents(n: nat, o: Overheads, msg: MsgArg, t1: real, t2: real): seq<Event> {
    [Call(0), Done] + CallsAndReturns(n) + ReportEvents(msg, n, CorrectedDuration(t1, t2, o.timer, o.loop, n))
  }

  /** The asynchronous path: two chained untimed calls, the chain, the report, the callback. */
  function AsyncEvents(n: nat, o: Overheads, msg: MsgArg, callback: Handle, t1: real, t2: real): seq<Event> {
    var d := CorrectedDuration(t1, t2, o.timer, o.loopCb, n);
    [Call(0), Done, Call(0), Done] + ChainEvents(n, 0) + ReportEvents(msg, n, d) + [Callback(callback, n, d)]
  }

  /**
   * Everything timeit does for a loop count that the count test as written
   * does not send to duration mode.
   */
  function TimeitEvents(nloops: LoopArg, msg: MsgArg, callback: Option<Handle>, o: Overheads, t1: real, t2: real): seq<Event>
    requires ModeAsWritten(nloops) != Timed
  {
    var (m, cb) := Normalize(msg, callback);
    match ModeAsWritten(nloops)
    case Skip => if cb.Some? then [Callback(cb.value, 0, 0.0)] else []
    case Counted(n) => if cb.None? then SyncEvents(n, o, m, t1, t2) else AsyncEvents(n, o, m, cb.value, t1, t2)
  }

  /** The synchronous path of timeit, with the clock readings around the loop given. */
  method TimeSync(n: nat, o: Overheads, msg: MsgArg, t1: real, t2: real) returns (trace: seq<Event>)
    ensures trace == SyncEvents(n, o, msg, t1, t2)
  {
    trace := [Call(0), Done];
    var loop, callCount := CountedLoop(n);
    trace := trace + loop;
    var duration := t2 - t1 - o.timer - o.loop * callCount as real * 0.000001;
    assert duration == CorrectedDuration(t1, t2, o.timer, o.loop, n);
    if msg != Text(Silent) {
      trace := trace + [Report(Label(msg), callCount, duration)];
    }
    assert trace == [Call(0), Done] + CallsAndReturns(n) + ReportEvents(msg, n, duration);
  }

  /** The asynchronous path of timeit, with the clock readings around the chain given. */
  method TimeAsync(n: nat, o: Overheads, msg: MsgArg, callback: Handle, t1: real, t2: real) returns (trace: seq<Event>)
    ensures trace == AsyncEvents(n, o, msg, callback, t1, t2)
  {
    trace := [Call(0), Done, Call(0), Done];
    var chain, callCount := LaunchChain(n);
    trace := trace + chain;
    var duration := t2 - t1 - o.timer - o.loopCb * callCount as real * 0.000001;
    assert duration == CorrectedDuration(t1, t2, o.timer, o.loopCb, n);
    if msg != Text(Silent) {
      trace := trace + [Report(Label(msg), callCount, duration)];
    }
    assert trace == [Call(0), Done, Call(0), Done] + ChainEvents(n, 0) + ReportEvents(msg, n, duration);
    trace := trace + [Callback(callback, callCount, duration)];
  }

  /**
   * A count at or below zero: f is never called, nothing is reported, and
   * the callback (from either slot) fires once with a zero count and
   * duration.
   */
  lemma GuardSkipsCalls(nloops: LoopArg, msg: MsgArg, callback: Option<Handle>, o: Overheads, t1: real, t2: real)
    requires ModeAsWritten(nloops) == Skip
    ensures var t := TimeitEvents(nloops, msg, callback, o, t1, t2);
      var cb := Normalize(msg, callback).1;
      Count(t, IsCall) == 0 && Count(t, IsReport) == 0 &&
      Count(t, IsCallback) == (if cb.Some? then 1 else 0) &&
      (cb.Some? ==> t == [Callback(cb.value, 0, 0.0)])
  {
    var cb := Normalize(msg, callback).1;
    if cb.Some? { assert [Callback(cb.value, 0, 0.0)][..0] == []; }
  }

  /**
   * Synchronous path: f is called nloops + 1 times (one untimed call), one
   * at a time, no callback fires, and the report, when there is one, gives
   * the loop count and the corrected duration.
   */
  lemma SyncCallCount(nloops: LoopArg, msg: MsgArg, callback: Option<Handle>, o: Overheads, t1: real, t2: real)
    requires ModeAsWritten(nloops).Counted? && Normalize(msg, callback).1.None?
    ensures var n := ModeAsWritten(nloops).n;
      var t := TimeitEvents(nloops, msg, callback, o, t1, t2);
      Count(t, IsCall) == n + 1 && Count(t, IsCallback) == 0 && Sequential(t) &&
      (Reports(msg) ==> t[|t| - 1] == Report(Label(msg), n, CorrectedDuration(t1, t2, o.timer, o.loop, n)))
  {
    var n := ModeAsWritten(nloops).n;
    var m := Normalize(msg, callback).0;
    var pre, loop, rep := [Call(0), Done], CallsAndReturns(n), ReportEvents(m, n, CorrectedDuration(t1, t2, o.timer, o.loop, n));
    CountPair(Call(0), Done, IsCall);
    CountPair(Call(0), Done, IsCallback);
    CallsAndReturnsCounts(n);
    ReportCounts(m, n, CorrectedDuration(t1, t2, o.timer, o.loop, n));
    CountAppend(pre, loop, IsCall);
    CountAppend(pre, loop, IsCallback);
    CountAppend(pre + loop, rep, IsCall);
    CountAppend(pre + loop, rep, IsCallback);
    SequentialAppend(pre, loop);
    SequentialAppend(pre + loop, rep);
  }

  lemma PrimingCounts()
    ensures var pre := [Call(0), Done, Call(0), Done];
      Count(pre, IsCall) == 2 && Count(pre, IsCallback) == 0 && Count(pre, IsDefer) == 0 && Sequential(pre)
  {
    var pre := [Call(0), Done, Call(0), Done];
    assert pre == [Call(0), Done] + [Call(0), Done];
    CountPair(Call(0), Done, IsCall);
    CountPair(Call(0), Done, IsCallback);
    CountPair(Call(0), Done, IsDefer);
    CountAppend([Call(0), Done], [Call(0), Done], IsCall);
    CountAppend([Call(0), Done], [Call(0), Done], IsCallback);
    CountAppend([Call(0), Done], [Call(0), Done], IsDefer);
  }

  /** The asynchronous path's events: how often f is called and the callback fires, and what comes last. */
  lemma AsyncEventCounts(n: nat, o: Overheads, m: MsgArg, cb: Handle, t1: real, t2: real)
    ensures var d := CorrectedDuration(t1, t2, o.timer, o.loopCb, n);
      var t := AsyncEvents(n, o, m, cb, t1, t2);
      Count(t, IsCall) == n + 2 && Count(t, IsCallback) == 1 && t[|t| - 1] == Callback(cb, n, d)
  {
    var d := CorrectedDuration(t1, t2, o.timer, o.loopCb, n);
    var pre, chain, rep, last := [Call(0), Done, Call(0), Done], ChainEvents(n, 0), ReportEvents(m, n, d), [Callback(cb, n, d)];
    PrimingCounts();
    ChainCounts(n, 0);
    ChainSilent(n, 0);
    ReportCounts(m, n, d);
    assert last[..0] == [];
    CountAppend(pre, chain, IsCall);
    CountAppend(pre, chain, IsCallback);
    CountAppend(pre + chain, rep, IsCall);
    CountAppend(pre + chain, rep, IsCallback);
    CountAppend(pre + chain + rep, last, IsCall);
    CountAppend(pre + chain + rep, last, IsCallback);
  }

  /** The asynchronous path's calls never overlap and stay within the depth bound. */
  lemma AsyncEventOrder(n: nat, o: Overheads, m: MsgArg, cb: Handle, t1: real, t2: real)
    ensures var t := AsyncEvents(n, o, m, cb, t1, t2);
      Sequential(t) && forall i :: 0 <= i < |t| && t[i].Call? ==> t[i].depth <= MaxDepth + 1
  {
    var d := CorrectedDuration(t1, t2, o.timer, o.loopCb, n);
    var pre, chain, rep, last := [Call(0), Done, Call(0), Done], ChainEvents(n, 0), ReportEvents(m, n, d), [Callback(cb, n, d)];
    var t := pre + chain + rep + last;
    PrimingCounts();
    ChainCounts(n, 0);
    ChainDepthBound(n, 0);
    ReportCounts(m, n, d);
    SequentialAppend(pre, chain);
    SequentialAppend(pre + chain, rep);
    SequentialAppend(pre + chain + rep, last);
    var after := rep + last;
    assert t == pre + chain + after;
    assert forall e: Event :: e in after ==> !e.Call?;
    assert forall e: Event :: e in pre && e.Call? ==> e.depth <= MaxDepth + 1;
    forall i | 0 <= i < |t| ensures t[i].Call? ==> t[i].depth <= MaxDepth + 1 {
      assert t[i] in pre || t[i] in chain || t[i] in after;
    }
  }

  /**
   * Asynchronous path: f is called nloops + 2 times (two untimed calls),
   * one at a time, never deeper than MaxDepth + 1 in the chain; and the
   * callback fires exactly once, last, with the loop count and the
   * duration corrected by the callback-loop overhead.
   */
  lemma AsyncCallCount(nloops: LoopArg, msg: MsgArg, callback: Option<Handle>, o: Overheads, t1: real, t2: real)
    requires ModeAsWritten(nloops).Counted? && Normalize(msg, callback).1.Some?
    ensures var n := ModeAsWritten(nloops).n;
      var cb := Normalize(msg, callback).1.value;
      var t := TimeitEvents(nloops, msg, callback, o, t1, t2);
      Count(t, IsCall) == n + 2 && Sequential(t) &&
      (forall i :: 0 <= i < |t| && t[i].Call? ==> t[i].depth <= MaxDepth + 1) &&
      Count(t, IsCallback) == 1 &&
      t[|t| - 1] == Callback(cb, n, CorrectedDuration(t1, t2, o.timer, o.loopCb, n))
  {
    var n := ModeAsWritten(nloops).n;
    var (m, cb) := Normalize(msg, callback);
    assert TimeitEvents(nloops, msg, callback, o, t1, t2) == AsyncEvents(n, o, m, cb.value, t1, t2);
    AsyncEventCounts(n, o, m, cb.value, t1, t2);
    AsyncEventOrder(n, o, m, cb.value, t1, t2);
  }

  lemma SyncReports(n: nat, o: Overheads, m: MsgArg, t1: real, t2: real)
    ensures Count(SyncEvents(n, o, m, t1, t2), IsReport) == (if Reports(m) then 1 else 0)
  {
    var pre, loop, rep := [Call(0), Done], CallsAndReturns(n), ReportEvents(m, n, CorrectedDuration(t1, t2, o.timer, o.loop, n));
    CountPair(Call(0), Done, IsReport);
    CallsAndReturnsCounts(n);
    ReportCounts(m, n, CorrectedDuration(t1, t2, o.timer, o.loop, n));
    CountAppend(pre, loop, IsReport);
    CountAppend(pre + loop, rep, IsReport);
  }

  lemma AsyncReports(n: nat, o: Overheads, m: MsgArg, cb: Handle, t1: real, t2: real)
    ensures Count(AsyncEvents(n, o, m, cb, t1, t2), IsReport) == (if Reports(m) then 1 else 0)
  {
    var d := CorrectedDuration(t1, t2, o.timer, o.loopCb, n);
    var pre, chain, rep, last := [Call(0), Done, Call(0), Done], ChainEvents(n, 0), ReportEvents(m, n, d), [Callback(cb, n, d)];
    var pair := [Call(0), Done];
    CountPair(Call(0), Done, IsReport);
    CountAppend(pair, pair, IsReport);
    assert pre == pair + pair;
    ChainSilent(n, 0);
    ReportCounts(m, n, d);
    assert last[..0] == [];
    CountAppend(pre, chain, IsReport);
    CountAppend(pre + chain, rep, IsReport);
    CountAppend(pre + chain + rep, last, IsReport);
  }

  /**
   * A run that gets past the guard prints exactly one report, unless msg is
   * the silent sentinel, and then none.
   */
  lemma SilentSentinel(nloops: LoopArg, msg: MsgArg, callback: Option<Handle>, o: Overheads, t1: real, t2: real)
    requires ModeAsWritten(nloops).Counted?
    ensures Count(TimeitEvents(nloops, msg, callback, o, t1, t2), IsReport) == (if msg == Text(Silent) then 0 else 1)
  {
    var n := ModeAsWritten(nloops).n;
    var (m, cb) := Normalize(msg, callback);
    assert Reports(m) <==> msg != Text(Silent);
    if cb.None? {
      SyncReports(n, o, m, t1, t2);
    } else {
      AsyncReports(n, o, m, cb.value, t1, t2);
    }
  }

  /**
   * The module state of timeit.js: the three overhead globals, undefined
   * until the first run that gets past the guard calibrates them.
   */
  class Engine {
    var overheads: Option<Overheads>

    constructor ()
      ensures overheads == None
    {
      overheads := None;
    }

    /**
     * Calibration runs only while the overheads are still undefined;
     * `measured` stands for what calibration would measure.
     */
    method EnsureCalibrated(measured: Overheads)
      modifies this
      ensures overheads == Some(old(overheads).GetOr(measured))
    {
      if overheads.None? {
        overheads := Some(measured);
      }
    }

    /**
     * `timeit(nloops, f, msg, callback)`: normalise the arguments, return at
     * once for a count at or below zero, else calibrate if need be and run
     * the synchronous or the asynchronous path.
     */
    method Timeit(nloops: LoopArg, msg: MsgArg, callback: Option<Handle>, measured: Overheads, t1: real, t2: real)
      returns (trace: seq<Event>)
      requires ModeAsWritten(nloops) != Timed
      modifies this
      ensures overheads == if ModeAsWritten(nloops) == Skip then old(overheads) else Some(old(overheads).GetOr(measured))
      ensures trace == TimeitEvents(nloops, msg, callback, old(overheads).GetOr(measured), t1, t2)
    {
      var m, cb := msg, callback;
      if msg.Func? {
        cb := Some(msg.f);
        m := NoMsg;
      }
      if nloops.Num? && nloops.x <= 0.0 {
        trace := if cb.Some? then [Callback(cb.value, 0, 0.0)] else [];
        return;
      }
      var n: nat := nloops.x.Floor;
      EnsureCalibrated(measured);
      var o := overheads.value;
      if cb.None? {
        trace := TimeSync(n, o, m, t1, t2);
      } else {
        trace := TimeAsync(n, o, m, cb.value, t1, t2);
      }
    }
  }
}
