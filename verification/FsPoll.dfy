/** Polling a file by stat: libuv-dll/src/fs-poll.c.  The event loop completes stat requests, fires
    timers and finishes closing them in any order; the user may stop and restart the handle at any time,
    from within the callback too.
  */
module FsPoll {
  import opened Bits

  // ---------- what is reported ----------

  datatype Timespec = Timespec(sec: int, nsec: int)

  /** uv_stat_t */
  datatype Stat = Stat(
    dev: int, mode: int, nlink: int, uid: int, gid: int, rdev: int, ino: int, size: int, blksize: int,
    blocks: int, flags: int, gen: int, atim: Timespec, mtim: Timespec, ctim: Timespec, birthtim: Timespec)

  const ZERO_TIME := Timespec(0, 0)
  const ZERO_STAT := Stat(0, 0, 0, 0, 0, 0, 0, 0, 0, 0, 0, 0, ZERO_TIME, ZERO_TIME, ZERO_TIME, ZERO_TIME)

  /** statbuf_eq */
  predicate StatEq(a: Stat, b: Stat) {
    && a.ctim.nsec == b.ctim.nsec && a.mtim.nsec == b.mtim.nsec && a.birthtim.nsec == b.birthtim.nsec
    && a.ctim.sec == b.ctim.sec && a.mtim.sec == b.mtim.sec && a.birthtim.sec == b.birthtim.sec
    && a.size == b.size && a.mode == b.mode && a.uid == b.uid && a.gid == b.gid && a.ino == b.ino
    && a.dev == b.dev && a.flags == b.flags && a.gen == b.gen
  }

  /** Two files are told apart by everything but the link count, the device number of a special file, the
      blocks and the time of the last access. */
  lemma StatEqIgnores(a: Stat, b: Stat)
    ensures StatEq(a, b) <==>
      a == b.(nlink := a.nlink, rdev := a.rdev, blksize := a.blksize, blocks := a.blocks, atim := a.atim)
  {
  }

  /** How a stat request ended. */
  datatype Result = Failed(code: int) | Success(buf: Stat)

  /** One call of the user's callback. */
  datatype Report = Report(status: int, prev: Stat, curr: Stat)

  /** The last file status that was got. */
  function LastGood(rs: seq<Result>): Stat {
    if rs == [] then ZERO_STAT
    else match rs[|rs| - 1]
      case Success(buf) => buf
      case Failed(_) => LastGood(rs[..|rs| - 1])
  }

  /** Whether the result `r` after the results `rs` is reported: an error unless the last result was the
      same error; a success after an error, or when it differs from the last one, but never the first. */
  predicate Reported(rs: seq<Result>, r: Result) {
    match r
    case Failed(code) => rs == [] || rs[|rs| - 1] != r
    case Success(buf) => rs != [] && (rs[|rs| - 1].Failed? || !StatEq(LastGood(rs), buf))
  }

  function ReportOf(rs: seq<Result>, r: Result): Report {
    match r
    case Failed(code) => Report(code, LastGood(rs), ZERO_STAT)
    case Success(buf) => Report(0, LastGood(rs), buf)
  }

  /** The calls of the callback that a sequence of results leads to. */
  function Reports(rs: seq<Result>): seq<Report> {
    if rs == [] then []
    else
      var before, r := rs[..|rs| - 1], rs[|rs| - 1];
      Reports(before) + if Reported(before, r) then [ReportOf(before, r)] else []
  }

  /** The status got last is that of the last success, if there has been one. */
  lemma {:induction false} LastGoodIs(rs: seq<Result>)
    ensures (forall i :: 0 <= i < |rs| ==> rs[i].Failed?) ==> LastGood(rs) == ZERO_STAT
    ensures forall i :: 0 <= i < |rs| && rs[i].Success? && (forall j :: i < j < |rs| ==> rs[j].Failed?) ==> LastGood(rs) == rs[i].buf
    decreases |rs|
  {
    hide LastGood;
    LastGoodStep(rs);
    if rs != [] {
      var before, n := rs[..|rs| - 1], |rs| - 1;
      LastGoodIs(before);
      assert forall i :: 0 <= i < n ==> before[i] == rs[i];
      forall i | 0 <= i < |rs| && rs[i].Success? && (forall j :: i < j < |rs| ==> rs[j].Failed?) ensures LastGood(rs) == rs[i].buf {
        if i < n {
          assert rs[n].Failed?;
          assert before[i] == rs[i];
        }
      }
    }
  }

  lemma LastGoodStep(rs: seq<Result>)
    ensures LastGood(rs) == if rs == [] then ZERO_STAT else if rs[|rs| - 1].Success? then rs[|rs| - 1].buf else LastGood(rs[..|rs| - 1])
  {
  }

  /** Report `r` tells of result `i`: an error with its code and an empty status, a success with zero and its status;
      before it, it gives the status of the last success, and an empty one when there is none. */
  ghost predicate TellsOf(r: Report, rs: seq<Result>, i: nat)
    requires i < |rs|
  {
    && (if rs[i].Failed? then r.status == rs[i].code && r.curr == ZERO_STAT else r.status == 0 && r.curr == rs[i].buf)
    && ((forall j :: 0 <= j < i ==> rs[j].Failed?) ==> r.prev == ZERO_STAT)
    && (forall j :: 0 <= j < i && rs[j].Success? && (forall k :: j < k < i ==> rs[k].Failed?) ==> r.prev == rs[j].buf)
  }

  lemma TellsPrefix(r: Report, rs: seq<Result>, i: nat, n: nat)
    requires i < n <= |rs| && TellsOf(r, rs[..n], i)
    ensures TellsOf(r, rs, i)
  {
  }

  lemma TellsLast(rs: seq<Result>)
    requires rs != []
    ensures TellsOf(ReportOf(rs[..|rs| - 1], rs[|rs| - 1]), rs, |rs| - 1)
  {
    var before := rs[..|rs| - 1];
    LastGoodIs(before);
    assert forall j :: 0 <= j < |before| ==> before[j] == rs[j];
  }

  /** The reports are about the results, in their order. */
  lemma {:induction false} ReportsTell(rs: seq<Result>) returns (about: seq<nat>)
    ensures |about| == |Reports(rs)|
    ensures forall n :: 0 <= n < |about| ==> about[n] < |rs| && TellsOf(Reports(rs)[n], rs, about[n])
    ensures forall m, n :: 0 <= m < n < |about| ==> about[m] < about[n]
    decreases |rs|
  {
    hide Reported;
    hide TellsOf;
    hide ReportOf;
    if rs == [] {
      about := [];
    } else {
      var before := rs[..|rs| - 1];
      about := ReportsTell(before);
      forall n | 0 <= n < |about| ensures about[n] < |rs| && TellsOf(Reports(before)[n], rs, about[n]) {
        TellsPrefix(Reports(before)[n], rs, about[n], |rs| - 1);
      }
      if Reported(before, rs[|rs| - 1]) {
        TellsLast(rs);
        about := about + [|rs| - 1];
      }
    }
  }

  /** busy_polling after the results `rs`. */
  function Outcome(rs: seq<Result>): int {
    if rs == [] then 0
    else match rs[|rs| - 1]
      case Success(_) => 1
      case Failed(code) => code
  }

  predicate Errors(rs: seq<Result>) {
    forall i :: 0 <= i < |rs| ==> rs[i].Failed? ==> rs[i].code < 0
  }

  // ---------- contexts and handles ----------

  datatype Request = NoRequest | InFlight | Handling

  datatype Timer = Stopped | Armed(due: nat) | Closing | Closed

  /** What the user may do from the callback. */
  datatype Call = StartCall(interval: nat) | StopCall | UpdateTime(delay: nat)

  /** Whether the handle is active after these calls. */
  function ActiveAfter(active: bool, calls: seq<Call>): bool {
    if calls == [] then active
    else match calls[|calls| - 1]
      case StartCall(_) => true
      case StopCall => false
      case UpdateTime(_) => ActiveAfter(active, calls[..|calls| - 1])
  }

  /** How many contexts they make: each start of a handle that is not active makes one. */
  function Made(active: bool, calls: seq<Call>): nat {
    if calls == [] then 0
    else
      var before := calls[..|calls| - 1];
      Made(active, before) + if calls[|calls| - 1].StartCall? && !ActiveAfter(active, before) then 1 else 0
  }

  function Delays(calls: seq<Call>): nat {
    if calls == [] then 0
    else Delays(calls[..|calls| - 1]) + if calls[|calls| - 1].UpdateTime? then calls[|calls| - 1].delay else 0
  }

  lemma NoCalls()
    ensures forall active :: ActiveAfter(active, []) == active && Made(active, []) == 0
    ensures Delays([]) == 0
  {
  }

  lemma OneCall(active: bool, calls: seq<Call>, i: nat)
    requires i < |calls|
    ensures var before, now := calls[..i], calls[..i + 1];
      && ActiveAfter(active, now) == (if calls[i].StartCall? then true else if calls[i].StopCall? then false else ActiveAfter(active, before))
      && Made(active, now) == Made(active, before) + (if calls[i].StartCall? && !ActiveAfter(active, before) then 1 else 0)
      && Delays(now) == Delays(before) + (if calls[i].UpdateTime? then calls[i].delay else 0)
      && (StopCall in now <==> StopCall in before || calls[i].StopCall?)
  {
    assert calls[..i + 1][..i] == calls[..i];
  }

  class Ctx {
    var parent: Handle?
    var busyPolling: int
    const interval: nat
    var startTime: nat
    var statbuf: Stat
    var req: Request
    var timer: Timer
    /** The results handled, and the calls of the callback. */
    ghost var results: seq<Result>
    ghost var reports: seq<Report>

    constructor (h: Handle, i: nat, now: nat)
      ensures parent == h && busyPolling == 0 && interval == (if i == 0 then 1 else i) && startTime == now
      ensures statbuf == ZERO_STAT && req == InFlight && timer == Stopped && results == [] && reports == []
    {
      parent, busyPolling, startTime, statbuf := h, 0, now, ZERO_STAT;
      interval := if i == 0 then 1 else i;
      req, timer, results, reports := InFlight, Stopped, [], [];
    }

    /** Exactly one thing is going on: a stat request, a timer, or the end. */
    predicate OneThing()
      reads this
    {
      match timer
      case Stopped => req != NoRequest
      case Armed(_) => req == NoRequest
      case Closing => req == NoRequest
      case Closed => req == NoRequest
    }

    /** The calls made are those the results lead to. */
    ghost predicate Told()
      reads this
    {
      && Errors(results) && busyPolling == Outcome(results) && statbuf == LastGood(results)
      && reports == Reports(results)
    }
  }

  class Handle {
    var active: bool
    var pollCtx: Ctx?
    /** All contexts there have been, as the event loop knows them. */
    var ctxs: seq<Ctx>
    /** The time of the loop. */
    var now: nat

    /** A context of this handle is in one of its states: it has the handle exactly when it is the
        handle's context, it has the handle while its timer is armed, and has lost it when the timer is
        closing. */
    ghost predicate Good(c: Ctx)
      reads this, c
    {
      && c.interval >= 1 && c.OneThing() && c.startTime <= now
      && (c.parent == this <==> pollCtx == c) && (c.parent == null || c.parent == this)
      && (c.timer.Armed? ==> c.parent == this) && (c.timer in {Closing, Closed} ==> c.parent == null)
    }

    ghost predicate Shape()
      reads this, ctxs
    {
      && (active <==> pollCtx != null) && (pollCtx != null ==> pollCtx in ctxs)
      && (forall c :: c in ctxs ==> Good(c))
    }

    ghost predicate Valid()
      reads this, ctxs
    {
      && Shape()
      && (forall c :: c in ctxs ==> c.req != Handling && c.Told())
    }

    /** uv_fs_poll_init */
    constructor (time: nat)
      ensures Valid() && !active && ctxs == [] && now == time
    {
      active, pollCtx, ctxs, now := false, null, [], time;
    }

    /** Nothing that the callbacks tell of `c` has changed. */
    twostate predicate SameTrace(c: Ctx)
      reads c
    {
      && c.busyPolling == old(c.busyPolling) && c.statbuf == old(c.statbuf)
      && c.results == old(c.results) && c.reports == old(c.reports) && c.req == old(c.req)
      && c.startTime == old(c.startTime)
    }

    /** A context only ever adds to what it has told; one that has been stopped tells nothing more, and
        one that has been freed is never touched again. */
    twostate predicate Later(c: Ctx)
      reads c
    {
      && old(c.results) <= c.results && old(c.reports) <= c.reports
      && (old(c.parent) == null ==> c.parent == null && c.results == old(c.results) && c.reports == old(c.reports))
      && (old(c.timer) == Closed ==> c.timer == Closed && SameTrace(c))
    }

    /** uv_fs_poll_start */
    method Start(interval: nat)
      requires Shape()
      modifies this
      ensures Shape() && active && now == old(now)
      ensures old(active) ==> ctxs == old(ctxs) && pollCtx == old(pollCtx)
      ensures !old(active) ==> fresh(pollCtx) && ctxs == old(ctxs) + [pollCtx] && pollCtx.Told() && pollCtx.req == InFlight
      ensures !old(active) ==> pollCtx.interval == (if interval == 0 then 1 else interval) && pollCtx.startTime == now && pollCtx.timer == Stopped
    {
      if active {
        return;
      }
      var ctx := new Ctx(this, interval, now);
      ctxs := ctxs + [ctx];
      pollCtx := ctx;
      active := true;
    }

    /** uv_close on the timer of a context, which must not be closing already. */
    method CloseTimer(ctx: Ctx)
      requires ctx.timer.Stopped? || ctx.timer.Armed?
      modifies ctx`timer
      ensures ctx.timer == Closing
    {
      ctx.timer := Closing;
    }

    /** uv_fs_poll_stop */
    method Stop()
      requires Shape()
      modifies this, if pollCtx == null then {} else {pollCtx}
      ensures Shape() && !active && now == old(now) && ctxs == old(ctxs)
      ensures forall c :: c in ctxs ==> SameTrace(c) && Later(c)
    {
      if !active {
        return;
      }
      var ctx := pollCtx;
      assert ctx != null;
      assert ctx.parent != null;
      ctx.parent := null;
      pollCtx := null;
      // without an armed timer a request is still to end, and its callback will close the timer
      if ctx.timer.Armed? {
        CloseTimer(ctx);
      }
      active := false;
    }

    /** What calls of the user have done: whether the handle is active, how late it is, how many contexts there are,
        and whether `ctx`, which had the handle, has lost it. */
    ghost predicate CallsDone(ctx: Ctx, calls: seq<Call>, active0: bool, now0: nat, n0: nat)
      reads this, ctx`parent
    {
      && active == ActiveAfter(active0, calls) && now == now0 + Delays(calls) && |ctxs| == n0 + Made(active0, calls)
      && (ctx.parent == null <==> StopCall in calls)
    }

    /** The user's callback: it is told `r`, and does some calls. */
    method Callback(ctx: Ctx, r: Report, calls: seq<Call>)
      requires Shape() && ctx in ctxs && ctx.parent == this && ctx.req == Handling
      modifies this, ctxs
      ensures Shape() && now >= old(now) && old(ctxs) <= ctxs
      ensures ctx.reports == old(ctx.reports) + [r] && ctx.req == Handling
      ensures ctx.busyPolling == old(ctx.busyPolling) && ctx.statbuf == old(ctx.statbuf) && ctx.results == old(ctx.results)
      ensures ctx.startTime == old(ctx.startTime)
      ensures CallsDone(ctx, calls, true, old(now), |old(ctxs)|)
      ensures forall c :: c in old(ctxs) && c != ctx ==> SameTrace(c) && Later(c)
      ensures forall n :: |old(ctxs)| <= n < |ctxs| ==> fresh(ctxs[n]) && ctxs[n].Told() && ctxs[n].req != Handling
    {
      hide LastGood;
      hide ActiveAfter;
      hide Made;
      hide Delays;
      NoCalls();
      ctx.reports := ctx.reports + [r];
      var i := 0;
      while i < |calls|
        invariant i <= |calls| && Shape() && now >= old(now) && old(ctxs) <= ctxs
        invariant ctx.reports == old(ctx.reports) + [r] && ctx.req == Handling && ctx.startTime == old(ctx.startTime)
        invariant ctx.busyPolling == old(ctx.busyPolling) && ctx.statbuf == old(ctx.statbuf) && ctx.results == old(ctx.results)
        invariant CallsDone(ctx, calls[..i], true, old(now), |old(ctxs)|)
        invariant forall c :: c in old(ctxs) && c != ctx ==> SameTrace(c) && Later(c)
        invariant forall n :: |old(ctxs)| <= n < |ctxs| ==> fresh(ctxs[n]) && ctxs[n].Told() && ctxs[n].req != Handling
        decreases |calls| - i
      {
        OneCall(true, calls, i);
        assert Good(ctx);
        match calls[i] {
          case StartCall(interval) => Start(interval);
          case StopCall => Stop();
          case UpdateTime(delay) => now := now + delay;
        }
        i := i + 1;
      }
      assert calls[..|calls|] == calls;
    }

    /** The next expiry is a multiple of the interval after the start of the stat request, and at most one
        interval away. */
    static lemma Rearm(start: nat, time: nat, interval: nat)
      requires interval >= 1 && start <= time
      ensures var wait := interval - (time - start) % interval;
        1 <= wait <= interval && (time + wait - start) % interval == 0
    {
      var d := time - start;
      var q, r := d / interval, d % interval;
      assert d == interval * q + r;
      MulDist(q, 1, interval);
      QuotientUnique(d + (interval - r), interval, q + 1, 0);
    }

    /** Tell the user what is to be told, and remember the result. */
    method Tell(ctx: Ctx, res: Result, calls: seq<Call>)
      requires Shape() && ctx in ctxs && ctx.parent == this && ctx.req == Handling && ctx.Told() && (res.Failed? ==> res.code < 0)
      modifies this, ctxs
      ensures Shape() && now >= old(now) && old(ctxs) <= ctxs && ctx in ctxs && ctx.timer.Stopped?
      ensures Later(ctx) && ctx.Told() && ctx.results == old(ctx.results) + [res] && ctx.req == Handling && ctx.startTime == old(ctx.startTime)
      ensures CallsDone(ctx, if Reported(old(ctx.results), res) then calls else [], true, old(now), |old(ctxs)|)
      ensures forall c :: c in old(ctxs) && c != ctx ==> SameTrace(c) && Later(c)
      ensures forall n :: |old(ctxs)| <= n < |ctxs| ==> fresh(ctxs[n]) && ctxs[n].Told() && ctxs[n].req != Handling
    {
      hide Reports;
      hide LastGood;
      hide Outcome;
      hide Reported;
      hide StatEq;
      hide ActiveAfter;
      hide Made;
      hide Delays;
      NoCalls();
      assert Good(ctx);
      ghost var rs := ctx.results;
      OneMore(rs, res);
      match res {
        case Failed(code) =>
          if ctx.busyPolling != code {
            Callback(ctx, Report(code, ctx.statbuf, ZERO_STAT), calls);
            ctx.busyPolling := code;
          }
        case Success(buf) =>
          if ctx.busyPolling != 0 {
            if ctx.busyPolling < 0 || !StatEq(ctx.statbuf, buf) {
              Callback(ctx, Report(0, ctx.statbuf, buf), calls);
            }
          }
          ctx.statbuf := buf;
          ctx.busyPolling := 1;
      }
      ctx.results := rs + [res];
      assert ctx in ctxs && Good(ctx);
    }

    /** The request of a context without a handle has ended: close the timer. */
    method Retire(ctx: Ctx)
      requires Shape() && ctx in ctxs && ctx.parent == null && ctx.req == Handling
      modifies ctx`timer, ctx`req
      ensures Shape() && ctx.timer == Closing && ctx.req == NoRequest
    {
      assert Good(ctx);
      CloseTimer(ctx);
      ctx.req := NoRequest;
    }

    /** Arm the timer for the next multiple of the interval since the request was made. */
    method Reschedule(ctx: Ctx)
      requires Shape() && ctx in ctxs && ctx.parent == this && ctx.req == Handling
      modifies ctx`timer, ctx`req
      ensures Shape() && ctx.req == NoRequest && ctx.timer.Armed?
      ensures now < ctx.timer.due <= now + ctx.interval && (ctx.timer.due - ctx.startTime) % ctx.interval == 0
    {
      assert Good(ctx);
      var interval := ctx.interval;
      Rearm(ctx.startTime, now, interval);
      interval := interval - (now - ctx.startTime) % interval;
      ctx.req := NoRequest;
      ctx.timer := Armed(now + interval);
    }

    /** poll_cb: a stat request has ended. */
    method PollCb(ctx: Ctx, res: Result, time: nat, calls: seq<Call>)
      requires Valid() && ctx in ctxs && ctx.req == InFlight && time >= now && (res.Failed? ==> res.code < 0)
      modifies this, ctxs
      ensures Valid() && now >= time && old(ctxs) <= ctxs
      // a stopped context tells nothing, any other remembers the result
      ensures ctx.results == if old(ctx.parent) == null then old(ctx.results) else old(ctx.results) + [res]
      ensures forall c :: c in old(ctxs) ==> Later(c)
      ensures forall n :: |old(ctxs)| <= n < |ctxs| ==> fresh(ctxs[n])
      // the calls of the callback take effect, if there is something to tell
      ensures if old(ctx.parent) != null then CallsDone(ctx, if Reported(old(ctx.results), res) then calls else [], true, time, |old(ctxs)|)
              else active == old(active) && now == time && ctxs == old(ctxs) && ctx.parent == null
      // a context that has not been stopped arms its timer, and one that has been closes it
      ensures ctx.req == NoRequest && ctx.startTime == old(ctx.startTime)
      ensures if ctx.parent == null then ctx.timer == Closing
              else ctx.timer.Armed? && now < ctx.timer.due <= now + ctx.interval && (ctx.timer.due - ctx.startTime) % ctx.interval == 0
    {
      hide Reports;
      hide LastGood;
      hide Outcome;
      hide Errors;
      hide Reported;
      hide ActiveAfter;
      hide Made;
      hide Delays;
      hide CallsDone;
      now := time;
      ctx.req := Handling;
      assert Good(ctx);
      if ctx.parent == null {
        // stopped while the request was under way
        Retire(ctx);
      } else {
        Tell(ctx, res, calls);
        assert forall n :: 0 <= n < |ctxs| ==> ctxs[n] in old(ctxs) || (ctxs[n].Told() && ctxs[n].req != Handling);
        GoOn(ctx);
      }
    }

    /** The end of a stat request that has been told. */
    method GoOn(ctx: Ctx)
      requires Shape() && ctx in ctxs && ctx.req == Handling && ctx.Told()
      requires forall c :: c in ctxs && c != ctx ==> c.req != Handling && c.Told()
      modifies ctx`timer, ctx`req
      ensures Valid() && ctx.req == NoRequest
      ensures if ctx.parent == null then ctx.timer == Closing
              else ctx.timer.Armed? && now < ctx.timer.due <= now + ctx.interval && (ctx.timer.due - ctx.startTime) % ctx.interval == 0
    {
      hide Reports;
      hide LastGood;
      hide Outcome;
      hide Errors;
      assert Good(ctx);
      if ctx.parent == null {
        // stopped from within the callback
        Retire(ctx);
      } else {
        Reschedule(ctx);
      }
    }

    /** The timer of a context has expired, which stops it, and timer_cb makes the next stat request. */
    method TimerCb(ctx: Ctx, time: nat)
      requires Valid() && ctx in ctxs && ctx.timer.Armed? && time >= now && time >= ctx.timer.due
      modifies this, ctx
      ensures Valid() && now == time && ctxs == old(ctxs) && pollCtx == old(pollCtx) == ctx
      ensures ctx.req == InFlight && ctx.timer == Stopped && ctx.startTime == time && Later(ctx)
      ensures ctx.results == old(ctx.results) && ctx.reports == old(ctx.reports)
    {
      hide Ctx.Told;
      assert Good(ctx);
      now := time;
      ctx.timer := Stopped;
      assert ctx.parent != null;
      assert ctx.parent.pollCtx == ctx;
      ctx.startTime := now;
      ctx.req := InFlight;
      StillTold(ctx);
    }

    twostate lemma StillTold(ctx: Ctx)
      requires old(ctx.Told())
      requires ctx.results == old(ctx.results) && ctx.reports == old(ctx.reports)
      requires ctx.busyPolling == old(ctx.busyPolling) && ctx.statbuf == old(ctx.statbuf)
      ensures ctx.Told()
    {
    }

    /** timer_close_cb: the timer is closed, and the context is freed. */
    method TimerCloseCb(ctx: Ctx)
      requires Valid() && ctx in ctxs && ctx.timer == Closing
      modifies ctx`timer
      ensures Valid() && ctx.timer == Closed
      ensures ctx != pollCtx && ctx.parent == null && ctx.req == NoRequest
    {
      assert Good(ctx);
      ctx.timer := Closed;
    }

    /** One event; one that cannot happen does not. */
    method Step(e: Event)
      requires Valid()
      modifies this, ctxs
      ensures Valid() && old(ctxs) <= ctxs && forall c :: c in old(ctxs) ==> Later(c)
      ensures forall n :: |old(ctxs)| <= n < |ctxs| ==> fresh(ctxs[n])
    {
      hide Ctx.Told;
      match e
      case StatEnds(n, res, delay, calls) =>
        if n < |ctxs| && ctxs[n].req == InFlight && (res.Failed? ==> res.code < 0) {
          PollCb(ctxs[n], res, now + delay, calls);
        }
      case TimerExpires(n, delay) =>
        if n < |ctxs| && ctxs[n].timer.Armed? && ctxs[n].timer.due <= now + delay {
          TimerCb(ctxs[n], now + delay);
        }
      case TimerCloses(n) =>
        if n < |ctxs| && ctxs[n].timer == Closing {
          TimerCloseCb(ctxs[n]);
        }
      case UserCalls(call) =>
        match call {
          case StartCall(interval) => Start(interval);
          case StopCall =>
            Stop();
            AllTold();
          case UpdateTime(delay) => now := now + delay;
        }
    }

    twostate lemma AllTold()
      requires old(Valid()) && ctxs == old(ctxs) && forall c :: c in ctxs ==> SameTrace(c)
      ensures forall c :: c in ctxs ==> c.Told() && c.req != Handling
    {
    }

    /** Whatever the event loop and the user do, in any order. */
    method Run(events: seq<Event>)
      requires Valid()
      modifies this, ctxs
      ensures Valid() && old(ctxs) <= ctxs && forall c :: c in old(ctxs) ==> Later(c)
    {
      hide Ctx.Told;
      var i := 0;
      while i < |events|
        invariant i <= |events| && Valid() && old(ctxs) <= ctxs && forall c :: c in old(ctxs) ==> Later(c)
        invariant forall c :: c in old(ctxs) ==> c in ctxs
        invariant forall n :: 0 <= n < |ctxs| ==> n < |old(ctxs)| || fresh(ctxs[n])
        decreases |events| - i
      {
        Step(events[i]);
        i := i + 1;
      }
    }

    /** What a run leaves: each context is in exactly one of its states, the callbacks are those that the
        results lead to, and without the handle a context is on its way to being freed. */
    lemma AtRest(c: Ctx)
      requires Valid() && c in ctxs
      ensures c.reports == Reports(c.results)
      ensures c.parent == this <==> pollCtx == c
      ensures c.parent == this ==> (c.req == InFlight && c.timer == Stopped) || (c.req == NoRequest && c.timer.Armed?)
      ensures c.parent == null ==> (c.req == InFlight && c.timer == Stopped) || (c.req == NoRequest && c.timer in {Closing, Closed})
    {
      assert Good(c);
    }
  }

  /** What may happen next, with the context that it happens to by its number. */
  datatype Event =
    | StatEnds(n: nat, res: Result, delay: nat, calls: seq<Call>)
    | TimerExpires(n: nat, delay: nat)
    | TimerCloses(n: nat)
    | UserCalls(call: Call)

  /** The state after one more result. */
  lemma OneMore(rs: seq<Result>, r: Result)
    requires Errors(rs) && (r.Failed? ==> r.code < 0)
    ensures Errors(rs + [r])
    ensures Outcome(rs + [r]) == if r.Failed? then r.code else 1
    ensures LastGood(rs + [r]) == if r.Failed? then LastGood(rs) else r.buf
    ensures Reports(rs + [r]) == Reports(rs) + if Reported(rs, r) then [ReportOf(rs, r)] else []
    ensures r.Failed? ==> (Reported(rs, r) <==> Outcome(rs) != r.code)
    ensures r.Success? ==> (Reported(rs, r) <==> Outcome(rs) != 0 && (Outcome(rs) < 0 || !StatEq(LastGood(rs), r.buf)))
  {
    assert (rs + [r])[..|rs|] == rs;
  }
}
