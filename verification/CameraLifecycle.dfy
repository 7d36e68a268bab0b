/** The life of a camera handle: operations, what drivers call back during them, and the end. */
module CameraLifecycle {
  import opened Bytes
  import opened CameraHandle
  import opened CameraOrder
  import opened CameraRuns

  // ----- Operations step by step -----

  /** Opening the driver, and then the rest of an operation. */
  lemma OperatedInSteps(h: Handle, o: Operation)
    requires !h.lh && h.used == 0 && h.refs > 0
    ensures var busy := h.(used := 1);
            var ready, events := Initialized(busy, o.opening), InitEvents(busy, o.opening);
            var exit := o.opening.Loaded? && Call.Exit in o.opening.part.callbacks;
            if Opens(o, false) then
              var after, leave := CalledBack(ready, CallbacksOpen(o)), exit || Call.Exit in CallbacksOpen(o);
              && Operated(h, o) == Unused(after, leave)
              && OperationEvents(h, o) == events + WorkEvents(o) + UnusedEvents(after, leave)
            else
              && Operated(h, o) == Unused(ready, exit)
              && OperationEvents(h, o) == events + UnusedEvents(ready, exit)
  {
    hide Ended, EndEvents, WorkEvents, CallbacksOpen, CalledBack, CalledAll, AllEvents;
    var busy := h.(used := 1);
    NothingCalledBack(busy);
    if o.opening.Loaded? {
      hide Unused, UnusedEvents;
      var ok, calls := o.opening.part.ok, o.opening.part.callbacks;
      QuietInitialize(busy, o.opening.part);
      if ok {
        CalledBackInPieces(busy, calls, CallbacksOpen(o));
        CalledBackKeeps(CalledBack(busy, calls), CallbacksOpen(o));
        OpenOrNot(CalledBack(busy, calls), ok, ok, CalledBack(busy, calls).used, CallbacksOpen(o));
      } else {
        assert Callbacks(o, h.lh) == calls;
        assert [InitBegins, InitEnds(ok)] + [] == [InitBegins, InitEnds(ok)];
      }
    } else {
      NoCallbacks(o);
    }
  }

  lemma OpenAfterwards(h: Handle, opening: Opening)
    requires h.refs > 0
    ensures var after := Initialized(h.(used := 1), opening);
            !IsGone(after) && (opening.Loaded? ==> after.used == 1)
  {
    hide CalledAll, AllEvents;
    if opening.Loaded? {
      QuietInitialize(h.(used := 1), opening.part);
    }
  }

  lemma OperatedOpen(h: Handle, o: Operation)
    requires h.lh
    ensures var after, exit := CalledBack(h.(used := 1), CallbacksOpen(o)), Call.Exit in CallbacksOpen(o);
            && Operated(h, o) == Unused(after, exit)
            && OperationEvents(h, o) == WorkEvents(o) + UnusedEvents(after, exit)
  {
    hide CalledBack, Unused, UnusedEvents, WorkEvents, CallbacksOpen;
  }

  lemma OneMoreCall(h: Handle, calls: seq<Call>, i: nat)
    requires i < |calls|
    ensures CalledAll(h, calls[..i + 1]) == Called(CalledAll(h, calls[..i]), calls[i])
    ensures AllEvents(h, calls[..i + 1]) == AllEvents(h, calls[..i]) + CallEvents(CalledAll(h, calls[..i]), calls[i])
    ensures Call.Exit in calls[..i + 1] <==> Call.Exit in calls[..i] || calls[i].Exit?
  {
    hide Called, CallEvents;
    assert calls[..i + 1][..i] == calls[..i];
    assert calls[..i + 1] == calls[..i] + [calls[i]];
  }

  lemma OneMoreStep(h: Handle, calls: seq<ClientCall>, i: nat)
    requires i < |calls|
    ensures RunTo(h, calls[..i + 1]) == Step(RunTo(h, calls[..i]), calls[i])
    ensures RunEvents(h, calls[..i + 1]) == RunEvents(h, calls[..i]) + EventsOf(RunTo(h, calls[..i]), calls[i])
  {
    hide Step, EventsOf;
    assert calls[..i + 1][..i] == calls[..i];
  }

  lemma NotCalled(h: Handle, call: Call)
    ensures IsGone(h) ==> Called(h, call) == h && CallEvents(h, call) == []
    ensures h.used > 0 ==> Called(h, call).used == h.used && CallEvents(h, call) == []
  {
  }

  lemma StoppedOnce(started: seq<nat>, stopped: seq<nat>, known: seq<nat>, i: nat)
    requires i < |known| && multiset(started) == multiset(stopped) + multiset(known)
    ensures multiset(started) == multiset(stopped + [known[i]]) + multiset(known[..i] + known[i + 1..])
  {
    assert known == known[..i] + [known[i]] + known[i + 1..];
  }

  lemma CallIs(h: Handle, call: Call)
    requires !IsGone(h)
    ensures call in {Ref, Call.Exit} || call.StartTimeout? || call.StopTimeout? ==>
              Called(h, call) == if h.used == 0 && call.Exit? then Left(h) else CalledBackOnce(h, call)
    ensures call in {Ref, Call.Exit} || call.StartTimeout? || call.StopTimeout? ==>
              CallEvents(h, call) == if h.used == 0 && call.Exit? then LeaveEvents(h) else []
    ensures call.Exit? ==> CalledBackOnce(h, call) == h
  {
    hide Operated, OperationEvents;
  }

  lemma OperateIs(h: Handle, o: Operation)
    requires !IsGone(h)
    ensures Called(h, Call.Operate(o)) == if h.used > 0 then h else Operated(h, o)
    ensures CallEvents(h, Call.Operate(o)) == if h.used > 0 then [] else OperationEvents(h, o)
  {
  }

  // ----- The handle -----

  class Camera {
    // are there functions to start and to stop timeouts?
    const timed: bool
    var used: byte
    var exitRequested: bool
    var refCount: nat
    // is the driver's library open?
    var lh: bool
    // has the driver entered its functions?
    var driver: bool
    var timeoutIds: seq<nat>
    // the timeouts that were stopped, in order
    var stopped: seq<nat>
    ghost var trace: seq<Event>
    ghost var started: seq<nat>

    constructor (timed: bool)
      ensures Valid() && Now() == New(timed) && trace == [] && started == []
    {
      this.timed := timed;
      used, exitRequested, refCount, lh, driver, timeoutIds, stopped, trace := 0, false, 1, false, false, [], [], [];
      started := [];
    }

    function Now(): Handle
      reads this
    {
      Handle(refCount, used, lh, driver, timed, timeoutIds)
    }

    ghost predicate Valid()
      reads this
    {
      Sane(Now()) && (used == 0 && lh ==> !exitRequested) && Accounted()
    }

    /** Every timeout that was started has been stopped once, or is still known. */
    ghost predicate Accounted()
      reads this`started, this`stopped, this`timeoutIds
    {
      multiset(started) == multiset(stopped) + multiset(timeoutIds)
    }

    method Ref()
      modifies this`refCount
      ensures refCount == old(refCount) + 1
    {
      refCount := refCount + 1;
    }

    method Unref() returns (r: Result)
      requires Valid()
      modifies this
      ensures Valid() && r == if old(refCount) > 0 then Ok else Failed
      ensures Now() == Called(old(Now()), Call.Unref) && trace == old(trace) + CallEvents(old(Now()), Call.Unref)
      ensures exitRequested == old(exitRequested)
    {
      if refCount == 0 {
        return Failed;
      }
      refCount := refCount - 1;
      if refCount == 0 {
        if used == 0 {
          Free();
        }
      }
      return Ok;
    }

    /** Postponed while the camera is in use. */
    method Exit()
      requires (!timed ==> timeoutIds == []) && Accounted()
      modifies this
      ensures used == old(used) && refCount == old(refCount) && Accounted()
      ensures old(used) == 0 ==> !lh && !driver && timeoutIds == []
      ensures old(used) > 0 ==> exitRequested && Now() == old(Now()) && trace == old(trace)
      ensures old(used) == 0 ==> exitRequested == old(exitRequested) && Now() == Left(old(Now()))
      ensures old(used) == 0 ==>
        trace == old(trace) + LeaveEvents(old(Now())) && stopped == old(stopped) + old(timeoutIds)
    {
      hide Accounted;
      if used > 0 {
        exitRequested := true;
        return;
      }
      while timeoutIds != []
        invariant Now() == old(Now()).(timeouts := timeoutIds)
        invariant used == 0 && trace == old(trace) && exitRequested == old(exitRequested)
        invariant stopped + timeoutIds == old(stopped) + old(timeoutIds) && Accounted()
        decreases |timeoutIds|
      {
        StopTimeout(timeoutIds[0]);
      }
      if lh || driver {
        trace := trace + [Exits];
      }
      lh, driver := false, false;
    }

    method StartTimeout(id: nat)
      requires Accounted()
      modifies this`timeoutIds, this`started
      ensures timeoutIds == (if timed then old(timeoutIds) + [id] else old(timeoutIds)) && Accounted()
    {
      if !timed {
        return;
      }
      timeoutIds, started := timeoutIds + [id], started + [id];
    }

    /** Stops a timeout that is known: removes its first entry. */
    method StopTimeout(id: nat)
      requires Accounted()
      modifies this`timeoutIds, this`stopped
      ensures Accounted()
      ensures timeoutIds == if timed then Without(old(timeoutIds), id) else old(timeoutIds)
      ensures stopped == if timed && id in old(timeoutIds) then old(stopped) + [id] else old(stopped)
    {
      hide Without;
      if !timed {
        return;
      }
      var i := 0;
      while i < |timeoutIds| && timeoutIds[i] != id
        invariant 0 <= i <= |timeoutIds| && id !in timeoutIds[..i]
      {
        i := i + 1;
      }
      if i == |timeoutIds| {
        WithoutNone(timeoutIds, id);
        return;
      }
      WithoutFirst(timeoutIds, i);
      StoppedOnce(started, stopped, timeoutIds, i);
      timeoutIds := timeoutIds[..i] + timeoutIds[i + 1..];
      stopped := stopped + [id];
    }

    method Free()
      requires used == 0 && refCount == 0 && (!timed ==> timeoutIds == []) && Accounted()
      modifies this
      ensures used == old(used)
      ensures Valid() && Now() == Released(old(Now())) && trace == old(trace) + ReleaseEvents(old(Now()))
      ensures exitRequested == old(exitRequested)
    {
      if lh {
        Exit();
      }
      trace := trace + [Freed];
    }

    /** CAMERA_UNUSED: one user less; with the last one, what was postponed is done. */
    method Release()
      requires Sane(Now()) && Accounted()
      modifies this
      ensures Valid() && used as int == (old(used) as int + 255) % 256
      ensures exitRequested == old(exitRequested) && Now() == Unused(old(Now()), old(exitRequested))
      ensures trace == old(trace) + UnusedEvents(old(Now()), old(exitRequested))
    {
      hide LeaveEvents, ReleaseEvents, Left;
      used := if used == 0 then 255 else used - 1;
      ghost var now, was := Now(), trace;
      if used == 0 {
        if exitRequested {
          Exit();
        }
        ghost var left := if exitRequested then LeaveEvents(now) else [];
        assert trace == was + left;
        if refCount == 0 {
          ghost var freed := ReleaseEvents(Now());
          Free();
          assert was + left + freed == was + (left + freed);
        }
      }
    }

    method Perform(call: Call) returns (r: Result)
      requires Valid() && !IsGone(Now())
      modifies this
      decreases if used == 0 then 1 else 0, 3
      ensures Valid() && (call.Operate? ==> r == ResultOf(old(Now()), call.operation))
      ensures Now() == Called(old(Now()), call) && trace == old(trace) + CallEvents(old(Now()), call)
      ensures old(used) > 0 ==> exitRequested == (old(exitRequested) || call.Exit?)
    {
      hide Accounted, Called, CallEvents, ResultOf;
      match call {
        case Unref => r := Unref();
        case Operate(o) => r := Operate(o);
        case _ =>
          r := Ok;
          PerformAtOnce(call);
      }
    }

    method PerformAtOnce(call: Call)
      requires Valid() && !IsGone(Now()) && !call.Unref? && !call.Operate?
      modifies this
      ensures Valid()
      ensures Now() == Called(old(Now()), call) && trace == old(trace) + CallEvents(old(Now()), call)
      ensures old(used) > 0 ==> exitRequested == (old(exitRequested) || call.Exit?)
    {
      hide Accounted, Called, CallEvents, LeaveEvents, Without;
      CallIs(Now(), call);
      match call {
        case Ref => Ref();
        case Exit => Exit();
        case StartTimeout(id) => StartTimeout(id);
        case StopTimeout(id) => StopTimeout(id);
      }
      assert Sane(Now());
    }

    /** What a driver calls back. A handle that is gone is not called any more. */
    method RunCallbacks(calls: seq<Call>)
      requires Valid()
      modifies this
      decreases if used == 0 then 1 else 0, 4
      ensures Valid() && Now() == CalledAll(old(Now()), calls) && trace == old(trace) + AllEvents(old(Now()), calls)
      ensures old(used) > 0 ==> exitRequested == (old(exitRequested) || Call.Exit in calls)
    {
      hide CalledAll, AllEvents, Called, CallEvents;
      NothingCalledBack(Now());
      for i := 0 to |calls|
        invariant Valid() && Now() == CalledAll(old(Now()), calls[..i])
        invariant trace == old(trace) + AllEvents(old(Now()), calls[..i])
        invariant old(used) > 0 ==>
          used == old(used) && exitRequested == (old(exitRequested) || Call.Exit in calls[..i])
      {
        OneMoreCall(old(Now()), calls, i);
        NotCalled(Now(), calls[i]);
        if used > 0 || refCount > 0 {
          var _ := Perform(calls[i]);
        }
      }
      assert calls[..|calls|] == calls;
    }

    /** A call into the driver, between `pre_func` and `post_func`. */
    method CallDriver(part: Part) returns (ok: bool)
      requires Valid() && used > 0
      modifies this
      decreases 0, 5
      ensures Valid() && ok == part.ok && Now() == CalledBack(old(Now()), part.callbacks) && used == old(used)
      ensures exitRequested == (old(exitRequested) || Call.Exit in part.callbacks)
      ensures trace == old(trace) + [Begins, Ends]
    {
      hide CalledBack, CalledAll, AllEvents;
      PostponedAll(Now(), part.callbacks);
      CalledBackKeeps(Now(), part.callbacks);
      trace := trace + [Begins];
      RunCallbacks(part.callbacks);
      trace := trace + [Ends];
      return part.ok;
    }

    /** Loads the driver and initialises it: for an operation, or for a client. Where the camera is not found on the
        USB, it is released, although there may be no user. */
    method Init(opening: Opening) returns (ok: bool)
      requires Valid() && refCount > 0
      modifies this
      decreases if used == 0 then 1 else 0, 5, 1
      ensures Valid() && Now() == Initialized(old(Now()), opening) &&
              trace == old(trace) + InitEvents(old(Now()), opening)
      ensures !IsGone(Now()) ==> ok == (opening.Loaded? && opening.part.ok)
      ensures old(used) > 0 ==> exitRequested == (opening.Loaded? && Call.Exit in opening.part.callbacks)
    {
      hide CalledAll, AllEvents, Called, CallEvents;
      exitRequested := false;
      match opening {
        case NoPort => return false;
        case LookupFailed =>
          trace := trace + [LookupFails];
          Release();
          return false;
        case NotLoaded =>
          lh := false;
          return false;
        case Loaded(part) =>
          lh := true;
          ok := CallInit(part);
      }
    }

    /** The driver's own initialisation, with its library loaded. */
    method CallInit(part: Part) returns (ok: bool)
      requires lh && !exitRequested && Valid() && refCount > 0
      modifies this
      decreases if used == 0 then 1 else 0, 5, 0
      ensures Valid() && (!IsGone(Now()) ==> ok == part.ok)
      ensures old(used) > 0 ==> exitRequested == (Call.Exit in part.callbacks)
      ensures var after, events := CalledAll(old(Now()), part.callbacks), AllEvents(old(Now()), part.callbacks);
              if IsGone(after) then Now() == after && trace == old(trace) + ([InitBegins] + events)
              else
                && Now() == (if part.ok then after.(driver := true) else after.(lh := false, driver := false))
                && trace == old(trace) + ([InitBegins] + events + [InitEnds(part.ok)])
    {
      hide CalledAll, AllEvents, Accounted;
      trace := trace + [InitBegins];
      RunCallbacks(part.callbacks);
      if used == 0 && refCount == 0 {
        return false;
      }
      trace := trace + [InitEnds(part.ok)];
      if part.ok {
        driver := true;
      } else {
        lh, driver := false, false;
      }
      return part.ok;
    }

    /** An operation of a client or of a driver. */
    method Operate(o: Operation) returns (r: Result)
      requires Valid() && !IsGone(Now())
      modifies this
      decreases if used == 0 then 1 else 0, 2
      ensures Valid() && r == ResultOf(old(Now()), o)
      ensures Now() == Called(old(Now()), Call.Operate(o)) &&
              trace == old(trace) + CallEvents(old(Now()), Call.Operate(o))
      ensures old(used) > 0 ==> exitRequested == old(exitRequested)
    {
      hide Unused, UnusedEvents, CallbacksOpen, WorkEvents, CalledBack, CalledAll, AllEvents, Operated, OperationEvents,
           Initialized, InitEvents, Accounted, Called, CallEvents;
      OperateIs(Now(), o);
      if used > 0 {
        return Busy;
      }
      if lh {
        OperatedOpen(Now(), o);
        used := used + 1;
        r := OperateOpen(o);
      } else {
        r := OperateClosed(o);
      }
    }

    /** An operation of a camera that is not open. */
    method OperateClosed(o: Operation) returns (r: Result)
      requires Valid() && used == 0 && refCount > 0 && !lh
      modifies this
      decreases 1, 1
      ensures Valid() && r == ResultOf(old(Now()), o)
      ensures Now() == Operated(old(Now()), o) && trace == old(trace) + OperationEvents(old(Now()), o)
    {
      hide Unused, UnusedEvents, CallbacksOpen, WorkEvents, CalledBack, CalledAll, AllEvents, Operated, OperationEvents,
           Initialized, InitEvents, Accounted;
      ghost var was := trace;
      OperatedInSteps(Now(), o);
      OpenAfterwards(Now(), o.opening);
      used := used + 1;
      ghost var events := InitEvents(Now(), o.opening);
      var ok := Init(o.opening);
      if !ok {
        ghost var last := UnusedEvents(Now(), exitRequested);
        Release();
        assert was + events + last == was + (events + last);
        return Failed;
      }
      r := OperateOpen(o);
    }

    /** The rest of an operation, with an open driver. */
    method OperateOpen(o: Operation) returns (r: Result)
      requires Valid() && used == 1
      modifies this
      decreases 0, 6
      ensures Valid() && r == if o.supported && o.pre.ok && o.run.ok && o.post.ok then Ok else Failed
      ensures Now() ==
                Unused(CalledBack(old(Now()), CallbacksOpen(o)), old(exitRequested) || Call.Exit in CallbacksOpen(o))
      ensures trace == old(trace) + WorkEvents(o) +
                UnusedEvents(CalledBack(old(Now()), CallbacksOpen(o)), old(exitRequested) ||
                             Call.Exit in CallbacksOpen(o))
    {
      hide Unused, UnusedEvents, CalledBack;
      NothingCalledBack(Now());
      if !o.supported {
        Release();
        return Failed;
      }
      var ok := CallDriver(o.pre);
      if !ok {
        assert CallbacksOpen(o) == o.pre.callbacks;
        Release();
        return Failed;
      }
      CalledBackInPieces(old(Now()), o.pre.callbacks, o.run.callbacks + o.post.callbacks);
      CalledBackInPieces(Now(), o.run.callbacks, o.post.callbacks);
      var done := CallDriver(o.run);
      ok := CallDriver(o.post);
      if !ok {
        Release();
        return Failed;
      }
      if !done {
        Release();
        return Failed;
      }
      Release();
      return Ok;
    }

    /** A client's calls, one after another, as long as it has a reference. */
    method Run(calls: seq<ClientCall>)
      requires Valid()
      modifies this
      ensures Valid() && Now() == RunTo(old(Now()), calls) && trace == old(trace) + RunEvents(old(Now()), calls)
    {
      hide RunTo, RunEvents, Called, CallEvents, Initialized, InitEvents;
      NothingCalledBack(Now());
      for i := 0 to |calls|
        invariant Valid() && Now() == RunTo(old(Now()), calls[..i]) &&
                  trace == old(trace) + RunEvents(old(Now()), calls[..i])
      {
        OneMoreStep(old(Now()), calls, i);
        if refCount > 0 {
          match calls[i] {
            case Public(call) => var _ := Perform(call);
            case Initialize(opening) => var _ := Init(opening);
          }
        }
      }
      assert calls[..|calls|] == calls;
    }
  }

  /** From a new handle on: a run is orderly, and was so all the time, exactly if no call spoils it. The handle is freed
      exactly if there are no references and the failed lookups are a multiple of 256. And drivers whose callbacks are
      quiet are left at most as often as they were initialised. */
  method Life(timed: bool, calls: seq<ClientCall>) returns (camera: Camera)
    ensures fresh(camera) && camera.Now() == RunTo(New(timed), calls)
    ensures PhaseOf(camera.trace) == if Unspoiled(New(timed), calls) then PhaseAt(camera.Now()) else Disorder
    ensures Unspoiled(New(timed), calls) ==>
      forall n :: 0 <= n <= |camera.trace| ==> PhaseOf(camera.trace[..n]) != Disorder
    ensures camera.used == (256 - Count(camera.trace, LookupFails) % 256) % 256
    ensures Count(camera.trace, Freed) ==
            Bit(camera.refCount == 0 && Count(camera.trace, LookupFails) % 256 == 0)
    ensures QuietRun(New(timed), calls) ==>
              Count(camera.trace, Exits) + Bit(camera.driver) <= Count(camera.trace, InitEnds(true))
  {
    hide RunTo, RunEvents, PhaseAt, Unspoiled, PhaseOf, Count, QuietRun, Bit;
    camera := new Camera(timed);
    camera.Run(calls);
    assert camera.trace == RunEvents(New(timed), calls);
    LifeOf(timed, calls);
  }
}
