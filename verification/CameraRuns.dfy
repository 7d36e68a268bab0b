/** What holds of every run of a client: order, counts, and the number of users. */
module CameraRuns {
  import opened CameraHandle
  import opened CameraOrder

  function Bit(b: bool): int {
    if b then 1 else 0
  }

  // ----- Handles stay proper -----

  lemma CalledSane(h: Handle, call: Call)
    requires Sane(h)
    ensures Sane(Called(h, call)) && Called(h, call).timed == h.timed
    ensures Proper(h) ==> Proper(Called(h, call))
  {
    if call.Operate? && h.refs > 0 && h.used == 0 {
      hide Operated, OperationEvents;
      OperationCases(h, call.operation);
      CalledBackKeeps(h, Callbacks(call.operation, h.lh));
    }
  }

  lemma {:induction false} CalledAllSane(h: Handle, calls: seq<Call>)
    requires Sane(h)
    ensures Sane(CalledAll(h, calls)) && CalledAll(h, calls).timed == h.timed
  {
    if calls != [] {
      CalledAllSane(h, calls[..|calls| - 1]);
      CalledSane(CalledAll(h, calls[..|calls| - 1]), calls[|calls| - 1]);
    }
  }

  lemma StepProper(h: Handle, c: ClientCall)
    requires Proper(h)
    ensures Proper(Step(h, c)) && Step(h, c).timed == h.timed
  {
    hide Called, CalledAll;
    if h.refs > 0 {
      match c {
        case Public(call) => CalledSane(h, call);
        case Initialize(opening) =>
          if opening.Loaded? {
            CalledAllSane(h.(lh := true), opening.part.callbacks);
          }
      }
    }
  }

  lemma {:induction false} RunProper(timed: bool, calls: seq<ClientCall>)
    ensures Proper(RunTo(New(timed), calls))
  {
    if calls != [] {
      RunProper(timed, calls[..|calls| - 1]);
      StepProper(RunTo(New(timed), calls[..|calls| - 1]), calls[|calls| - 1]);
    }
  }

  // ----- Events are counted -----

  /** Does this call leave a driver whose initialisation has not ended? That takes a client that initialises the camera,
      and a driver that asks for an exit, gives the last reference back, or does so in an operation it supports. */
  function Early(h: Handle, call: Call): nat {
    if h.used > 0 || h.refs == 0 || !h.lh || h.driver then 0
    else
      match call
      case Unref => if h.refs == 1 then 1 else 0
      case Exit => 1
      case Operate(o) => if Call.Exit in CallbacksOpen(o) || CalledBack(h, CallbacksOpen(o)).refs == 0 then 1 else 0
      case _ => 0
  }

  /** Does this call end an initialisation of a driver that was open? */
  function Over(h: Handle, call: Call): nat {
    if h.used == 0 && h.refs > 0 && call.Operate? && call.operation.opening.Loaded? && !h.lh && h.driver then 1 else 0
  }

  function EarlyAll(h: Handle, calls: seq<Call>): nat {
    if calls == [] then 0
    else EarlyAll(h, calls[..|calls| - 1]) + Early(CalledAll(h, calls[..|calls| - 1]), calls[|calls| - 1])
  }

  function OverAll(h: Handle, calls: seq<Call>): nat {
    if calls == [] then 0
    else OverAll(h, calls[..|calls| - 1]) + Over(CalledAll(h, calls[..|calls| - 1]), calls[|calls| - 1])
  }

  function EarlyIn(h: Handle, c: ClientCall): nat {
    if h.refs == 0 then 0
    else
      match c
      case Public(call) => Early(h, call)
      case Initialize(Loaded(part)) => EarlyAll(h.(lh := true), part.callbacks)
      case _ => 0
  }

  function OverIn(h: Handle, c: ClientCall): nat {
    if h.refs == 0 then 0
    else
      match c
      case Public(call) => Over(h, call)
      case Initialize(Loaded(part)) =>
        var after := CalledAll(h.(lh := true), part.callbacks);
        OverAll(h.(lh := true), part.callbacks) + if !IsGone(after) && after.driver then 1 else 0
      case _ => 0
  }

  /** How often, in a run, a driver was left before its initialisation had ended. */
  function EarlyRun(h: Handle, calls: seq<ClientCall>): nat {
    if calls == [] then 0
    else EarlyRun(h, calls[..|calls| - 1]) + EarlyIn(RunTo(h, calls[..|calls| - 1]), calls[|calls| - 1])
  }

  /** How often an initialisation ended for a driver that was open. */
  function OverRun(h: Handle, calls: seq<ClientCall>): nat {
    if calls == [] then 0
    else OverRun(h, calls[..|calls| - 1]) + OverIn(RunTo(h, calls[..|calls| - 1]), calls[|calls| - 1])
  }

  /** Some events fit a change of the handle: it is freed when it goes; exits and initialisations balance, but for those
      that were early or over another; and each failing lookup takes one user. */
  predicate Fits(h: Handle, events: seq<Event>, after: Handle, early: int, over: int) {
    && Count(events, Freed) == Bit(IsGone(after)) - Bit(IsGone(h))
    && Count(events, Exits) + Bit(after.driver) + over == Count(events, InitEnds(true)) + Bit(h.driver) + early
    && after.used < 256 && (after.used + Count(events, LookupFails)) % 256 == h.used
  }

  lemma FitsTogether(h: Handle, a: seq<Event>, m: Handle, b: seq<Event>, after: Handle,
                     early: int, over: int, early': int, over': int)
    requires Fits(h, a, m, early, over) && Fits(m, b, after, early', over')
    ensures Fits(h, a + b, after, early + early', over + over')
  {
    hide Count;
    CountInPieces(a, b, Freed);
    CountInPieces(a, b, Exits);
    CountInPieces(a, b, InitEnds(true));
    CountInPieces(a, b, LookupFails);
    UsersAddUp(after.used, Count(b, LookupFails), m.used, Count(a, LookupFails), h.used);
  }

  lemma UsersAddUp(u: nat, n: nat, v: nat, k: nat, w: nat)
    requires (u + n) % 256 == v && (v + k) % 256 == w
    ensures (u + (k + n)) % 256 == w
  {
  }

  lemma CountsOfWork(o: Operation, e: Event)
    requires e != Begins && e != Ends
    ensures Count(WorkEvents(o), e) == 0
  {
    hide Count;
    var calls := [Begins, Ends];
    CountOfOne(Begins, e);
    CountOfOne(Ends, e);
    CountOfTwo(Begins, Ends, e);
    CountInPieces(calls, calls, e);
    CountInPieces(calls, calls + calls, e);
    assert calls + [Begins, Ends, Begins, Ends] == calls + (calls + calls);
    assert calls + [] == calls;
  }

  lemma CountsOfEnd(h: Handle, exit: bool)
    requires h.used == 0
    ensures Count(EndEvents(h, exit), Freed) == Bit(h.refs == 0)
    ensures Count(EndEvents(h, exit), InitEnds(true)) == 0 == Count(EndEvents(h, exit), LookupFails)
    ensures Count(EndEvents(h, exit), Exits) + Bit(Ended(h, exit).driver) ==
            Bit(h.driver) + Bit(h.lh && !h.driver && (exit || h.refs == 0))
    ensures Ended(h, exit).refs == h.refs && Ended(h, exit).used == 0
  {
    hide Count;
    if h.refs == 0 {
      assert EndEvents(h, exit) == if h.lh || (exit && h.driver) then [Exits, Freed] else [Freed];
    } else {
      assert EndEvents(h, exit) == if exit && (h.lh || h.driver) then [Exits] else [];
    }
    CountsOfLast(Freed);
    CountsOfLast(InitEnds(true));
    CountsOfLast(LookupFails);
    CountsOfLast(Exits);
  }

  lemma OperationFits(h: Handle, o: Operation)
    requires h.refs > 0 && h.used == 0
    ensures Fits(h, OperationEvents(h, o), Operated(h, o), Early(h, Call.Operate(o)), Over(h, Call.Operate(o)))
  {
    hide WorkEvents, EndEvents, Ended, Count, OperationEvents, Operated, CallbacksOpen, CalledBack;
    var after, exit := CalledBack(h, Callbacks(o, h.lh)), Call.Exit in Callbacks(o, h.lh);
    OperationCases(h, o);
    CalledBackKeeps(h, Callbacks(o, h.lh));
    if h.lh {
      EventsFit(h, [], WorkEvents(o), after, exit, o);
      assert OperationEvents(h, o) == [] + WorkEvents(o) + EndEvents(after, exit);
    } else if o.opening.Loaded? {
      var ok := o.opening.part.ok;
      EventsFit(h, [InitBegins, InitEnds(ok)], if ok then WorkEvents(o) else [], after.(lh := ok, driver := ok), exit,
                o);
    } else {
      NothingFits(h);
      LookupFits(h, h.(used := 255));
    }
  }

  lemma NothingFits(h: Handle)
    ensures h.used < 256 ==> Fits(h, [], h, 0, 0)
  {
  }

  lemma LookupFits(h: Handle, after: Handle)
    requires h.used < 256 && h.refs > 0 && after == h.(used := Minus(h.used))
    ensures Fits(h, [LookupFails], after, 0, 0)
  {
    hide Count;
    CountOfOne(LookupFails, Freed);
    CountOfOne(LookupFails, Exits);
    CountOfOne(LookupFails, InitEnds(true));
    CountOfOne(LookupFails, LookupFails);
  }

  lemma EventsFit(h: Handle, opening: seq<Event>, work: seq<Event>, now: Handle, exit: bool, o: Operation)
    requires h.refs > 0 && h.used == 0 && now.used == 0 && work in {[], WorkEvents(o)}
    requires if opening == [] then now.driver == h.driver && now.lh == h.lh
             else opening == [InitBegins, InitEnds(now.driver)] && now.lh == now.driver
    ensures Fits(h, opening + work + EndEvents(now, exit), Ended(now, exit),
                 Bit(now.lh && !now.driver && (exit || now.refs == 0)), if opening == [] then 0 else Bit(h.driver))
  {
    hide WorkEvents, EndEvents, Count, Ended;
    CountsOfEnd(now, exit);
    forall e ensures Count(opening + work + EndEvents(now, exit), e) ==
                     Count(opening, e) + Count(work, e) + Count(EndEvents(now, exit), e)
    {
      CountInPieces(opening + work, EndEvents(now, exit), e);
      CountInPieces(opening, work, e);
    }
    forall e | e in {Freed, Exits, InitEnds(true), LookupFails}
      ensures Count(work, e) == 0
      ensures Count(opening, e) == if opening != [] && e == InitEnds(now.driver) then 1 else 0
    {
      CountsOfWork(o, e);
      CountOfOne(InitBegins, e);
      CountOfOne(InitEnds(now.driver), e);
      CountOfTwo(InitBegins, InitEnds(now.driver), e);
    }
  }

  lemma CallFits(h: Handle, call: Call)
    requires Sane(h)
    ensures Fits(h, CallEvents(h, call), Called(h, call), Early(h, call), Over(h, call))
  {
    hide Count;
    CountsOfLast(Freed);
    CountsOfLast(InitEnds(true));
    CountsOfLast(LookupFails);
    CountsOfLast(Exits);
    if h.refs > 0 && h.used == 0 && call.Operate? {
      hide OperationEvents, Operated;
      OperationFits(h, call.operation);
    } else {
      assert ReleaseEvents(h) == if h.lh then [Exits, Freed] else [Freed];
    }
  }

  lemma LastOfCalls(h: Handle, calls: seq<Call>)
    ensures calls == [] ==>
              CalledAll(h, calls) == h && AllEvents(h, calls) == [] && EarlyAll(h, calls) == 0 == OverAll(h, calls)
    ensures calls != [] ==>
              var before, call := calls[..|calls| - 1], calls[|calls| - 1];
              var now := CalledAll(h, before);
              && CalledAll(h, calls) == Called(now, call) &&
                 AllEvents(h, calls) == AllEvents(h, before) + CallEvents(now, call)
              && EarlyAll(h, calls) == EarlyAll(h, before) + Early(now, call)
              && OverAll(h, calls) == OverAll(h, before) + Over(now, call)
  {
    hide Called, CallEvents, Early, Over;
  }

  lemma {:induction false} CallsFit(h: Handle, calls: seq<Call>)
    requires Sane(h)
    ensures Fits(h, AllEvents(h, calls), CalledAll(h, calls), EarlyAll(h, calls), OverAll(h, calls))
  {
    hide Called, CalledAll, CallEvents, AllEvents, Early, EarlyAll, Over, OverAll;
    LastOfCalls(h, calls);
    if calls == [] {
      NothingFits(h);
    } else {
      hide Fits;
      var before, call := calls[..|calls| - 1], calls[|calls| - 1];
      CallsFit(h, before);
      CalledAllSane(h, before);
      CallFits(CalledAll(h, before), call);
      FitsTogether(h, AllEvents(h, before), CalledAll(h, before), CallEvents(CalledAll(h, before), call),
                   CalledAll(h, calls),
                   EarlyAll(h, before), OverAll(h, before), Early(CalledAll(h, before), call),
                     Over(CalledAll(h, before), call));
    }
  }

  lemma OpeningFits(h: Handle)
    requires h.used < 256 && !IsGone(h)
    ensures Fits(h, [InitBegins], h.(lh := true), 0, 0)
    ensures Fits(h, [InitEnds(true)], h.(driver := true), 0, Bit(h.driver))
    ensures Fits(h, [InitEnds(false)], h.(lh := false, driver := false), 0, Bit(h.driver))
  {
    hide Count;
    forall e ensures Count([InitBegins], e) == Bit(e == InitBegins) &&
      Count([InitEnds(true)], e) == Bit(e == InitEnds(true))
             ensures Count([InitEnds(false)], e) == Bit(e == InitEnds(false))
    {
      CountOfOne(InitBegins, e);
      CountOfOne(InitEnds(true), e);
      CountOfOne(InitEnds(false), e);
    }
  }

  lemma LoadedFits(h: Handle, part: Part)
    requires Proper(h) && h.refs > 0
    ensures var c := Initialize(Loaded(part));
            Fits(h, EventsOf(h, c), Step(h, c), EarlyIn(h, c), OverIn(h, c))
  {
    hide Fits, CalledAll, AllEvents, EarlyAll, OverAll;
    var during, calls := h.(lh := true), part.callbacks;
    var after, middle := CalledAll(during, calls), AllEvents(during, calls);
    var early, over := EarlyAll(during, calls), OverAll(during, calls);
    OpeningFits(h);
    CallsFit(during, calls);
    CalledAllSane(during, calls);
    FitsTogether(h, [InitBegins], during, middle, after, 0, 0, early, over);
    if IsGone(after) {
      assert EventsOf(h, Initialize(Loaded(part))) == [InitBegins] + middle;
    } else {
      OpeningFits(after);
      var end := if part.ok then after.(driver := true) else after.(lh := false, driver := false);
      FitsTogether(h, [InitBegins] + middle, after, [InitEnds(part.ok)], end, early, over, 0, Bit(after.driver));
    }
  }

  lemma StepFits(h: Handle, c: ClientCall)
    requires Proper(h)
    ensures Fits(h, EventsOf(h, c), Step(h, c), EarlyIn(h, c), OverIn(h, c))
  {
    NothingFits(h);
    if h.refs > 0 {
      hide Fits, Called, CallEvents, Early, Over, CalledAll, AllEvents, EarlyAll, OverAll;
      match c {
        case Public(call) => CallFits(h, call);
        case Initialize(opening) =>
          if opening.Loaded? {
            LoadedFits(h, opening.part);
          } else if opening.LookupFailed? {
            LookupFits(h, h.(used := Minus(h.used)));
            assert EventsOf(h, c) == [LookupFails];
          } else {
            SameFits(h, false);
          }
      }
    }
  }

  lemma SameFits(h: Handle, lh: bool)
    requires h.used < 256
    ensures Fits(h, [], h.(lh := lh), 0, 0) && Fits(h, [], h, 0, 0)
  {
  }

  lemma LastOfRun(h: Handle, calls: seq<ClientCall>)
    ensures calls == [] ==>
      RunTo(h, calls) == h && RunEvents(h, calls) == [] && EarlyRun(h, calls) == 0 == OverRun(h, calls)
    ensures calls != [] ==>
              var before, c := calls[..|calls| - 1], calls[|calls| - 1];
              var now := RunTo(h, before);
              && RunTo(h, calls) == Step(now, c) && RunEvents(h, calls) == RunEvents(h, before) + EventsOf(now, c)
              && EarlyRun(h, calls) == EarlyRun(h, before) + EarlyIn(now, c)
              && OverRun(h, calls) == OverRun(h, before) + OverIn(now, c)
  {
    hide Step, EventsOf, EarlyIn, OverIn;
  }

  /** The account of every run: the handle is freed once, when it goes; the driver has been left as often as it was
      initialised, but for those left before their initialisation had ended, and initialisations of drivers that were
      open; and every lookup that failed has taken one user, of 256. */
  lemma {:induction false} RunFits(timed: bool, calls: seq<ClientCall>)
    ensures var h := New(timed);
            Fits(h, RunEvents(h, calls), RunTo(h, calls), EarlyRun(h, calls), OverRun(h, calls))
  {
    hide RunTo, RunEvents, EarlyRun, OverRun, Step, EventsOf, EarlyIn, OverIn;
    var h := New(timed);
    LastOfRun(h, calls);
    if calls == [] {
      NothingFits(h);
    } else {
      hide Fits;
      var before, c := calls[..|calls| - 1], calls[|calls| - 1];
      var now := RunTo(h, before);
      RunFits(timed, before);
      RunProper(timed, before);
      StepFits(now, c);
      FitsTogether(h, RunEvents(h, before), now, EventsOf(now, c), RunTo(h, calls),
                   EarlyRun(h, before), OverRun(h, before), EarlyIn(now, c), OverIn(now, c));
    }
  }

  // ----- The number of users -----

  /** How many lookups on the USB failed in a run, of operations or of the client's own initialisations. */
  function FailedLookups(timed: bool, calls: seq<ClientCall>): nat {
    Count(RunEvents(New(timed), calls), LookupFails)
  }

  /** Between calls, the number of users is a byte that has been decremented once for each of them. */
  lemma UsersCountLookups(timed: bool, calls: seq<ClientCall>)
    ensures RunTo(New(timed), calls).used == (256 - FailedLookups(timed, calls) % 256) % 256
  {
    RunFits(timed, calls);
    hide RunTo, RunEvents, Count;
    ByteOfCount(RunTo(New(timed), calls).used, FailedLookups(timed, calls));
  }

  lemma ByteOfCount(used: nat, n: nat)
    requires used < 256 && (used + n) % 256 == 0
    ensures used == (256 - n % 256) % 256 && (used == 0 <==> n % 256 == 0)
  {
  }

  /** A handle works if and only if the number of failed lookups is a multiple of 256: otherwise every operation is
      busy, an exit does not leave the driver, and the last reference does not free the handle. */
  lemma WorksExactly(timed: bool, calls: seq<ClientCall>, o: Operation)
    requires RunTo(New(timed), calls).refs > 0
    ensures var h, works := RunTo(New(timed), calls), FailedLookups(timed, calls) % 256 == 0;
            && (ResultOf(h, o) != Busy <==> works)
            && (h.driver ==> (Exits in EventsOf(h, Public(Call.Exit)) <==> works))
            && (h.refs == 1 ==> (Freed in EventsOf(h, Public(Call.Unref)) <==> works))
  {
    hide RunTo, ResultOf, EventsOf;
    UsersCountLookups(timed, calls);
    ByteOfLookups(FailedLookups(timed, calls));
    WorksWithoutUsers(RunTo(New(timed), calls), o);
  }

  lemma ByteOfLookups(n: nat)
    ensures (256 - n % 256) % 256 == 0 <==> n % 256 == 0
  {
  }

  lemma WorksWithoutUsers(h: Handle, o: Operation)
    requires h.refs > 0
    ensures ResultOf(h, o) != Busy <==> h.used == 0
    ensures h.driver ==> (Exits in EventsOf(h, Public(Call.Exit)) <==> h.used == 0)
    ensures h.refs == 1 ==> (Freed in EventsOf(h, Public(Call.Unref)) <==> h.used == 0)
  {
  }

  /** A camera that is not found once: the next operation is busy, and the handle stays when it is given back. */
  lemma StuckHandle(o: Operation)
    requires o.opening.LookupFailed?
    ensures forall first :: first in {Public(Call.Operate(o)), Initialize(LookupFailed)} ==>
              var after := RunTo(New(false), [first]);
              && after.used == 255 && ResultOf(after, o) == Busy
              && RunTo(New(false), [first, Public(Call.Unref)]) == after.(refs := 0)
              && Freed !in RunEvents(New(false), [first, Public(Call.Unref)])
  {
    forall first | first in {Public(Call.Operate(o)), Initialize(LookupFailed)}
      ensures var after := RunTo(New(false), [first]);
              && after.used == 255 && ResultOf(after, o) == Busy
              && RunTo(New(false), [first, Public(Call.Unref)]) == after.(refs := 0)
              && Freed !in RunEvents(New(false), [first, Public(Call.Unref)])
    {
      NothingCalledBack(New(false));
      var calls := [first, Public(Call.Unref)];
      assert calls[..1] == [first] && [first][..0] == [];
      OneCall(New(false), first);
      OneCall(Step(New(false), first), Public(Call.Unref));
      OperationCases(New(false), o);
    }
  }

  lemma OneCall(h: Handle, c: ClientCall)
    ensures RunTo(h, [c]) == Step(h, c) && RunEvents(h, [c]) == EventsOf(h, c)
  {
    hide Step, EventsOf;
    assert [c][..0] == [];
  }

  // ----- Order -----

  /** The last call of a run ends its order, or leads to the phase of the handle. */
  lemma LastInOrder(timed: bool, calls: seq<ClientCall>)
    requires calls != []
    ensures var before, c := calls[..|calls| - 1], calls[|calls| - 1];
            var h, was := RunTo(New(timed), before), PhaseOf(RunEvents(New(timed), before));
            var now := PhaseOf(RunEvents(New(timed), calls));
            && (was == Disorder ==> now == Disorder)
            && (was == PhaseAt(h) ==> now == if Spoils(h, c) then Disorder else PhaseAt(RunTo(New(timed), calls)))
  {
    hide Spoils, Step, EventsOf, PhaseAt, PhaseFrom, Proper;
    var before, c := calls[..|calls| - 1], calls[|calls| - 1];
    var h := RunTo(New(timed), before);
    RunProper(timed, before);
    StepInOrder(h, c);
    PhaseInPieces(Closed, RunEvents(New(timed), before), EventsOf(h, c));
    DisorderStays(EventsOf(h, c));
  }

  /** No call of a run spoils it. */
  predicate Unspoiled(h: Handle, calls: seq<ClientCall>) {
    forall k :: 0 <= k < |calls| ==> !Spoils(RunTo(h, calls[..k]), calls[k])
  }

  lemma UnspoiledStep(h: Handle, calls: seq<ClientCall>)
    requires calls != []
    ensures var before, c := calls[..|calls| - 1], calls[|calls| - 1];
            Unspoiled(h, calls) <==> Unspoiled(h, before) && !Spoils(RunTo(h, before), c)
  {
    hide Spoils, RunTo;
    var before := calls[..|calls| - 1];
    assert forall k :: 0 <= k < |before| ==> before[..k] == calls[..k];
    if Unspoiled(h, before) && !Spoils(RunTo(h, before), calls[|calls| - 1]) {
      forall k | 0 <= k < |calls| ensures !Spoils(RunTo(h, calls[..k]), calls[k]) {
        if k < |before| {
          assert before[k] == calls[k];
        }
      }
    }
  }

  /** A run is orderly exactly if no call in it spoils it; then it is in the phase of its handle. */
  lemma {:induction false} RunInOrder(timed: bool, calls: seq<ClientCall>)
    ensures PhaseOf(RunEvents(New(timed), calls)) ==
            if Unspoiled(New(timed), calls) then PhaseAt(RunTo(New(timed), calls)) else Disorder
  {
    if calls != [] {
      hide Unspoiled, Spoils, RunTo, RunEvents, PhaseOf, PhaseAt;
      RunInOrder(timed, calls[..|calls| - 1]);
      LastInOrder(timed, calls);
      UnspoiledStep(New(timed), calls);
      NeverGone(RunTo(New(timed), calls[..|calls| - 1]));
    }
  }

  lemma NeverGone(h: Handle)
    ensures PhaseAt(h) != Disorder
  {
  }

  lemma CallTogether(h: Handle, call: Call)
    requires Proper(h) && h.lh == h.driver
    ensures Called(h, call).lh == Called(h, call).driver && !Spoils(h, Public(call))
  {
    if call.Operate? && h.refs > 0 && h.used == 0 {
      hide Operated, OperationEvents;
      OperationCases(h, call.operation);
      CalledBackKeeps(h, Callbacks(call.operation, h.lh));
    }
  }

  /** A client that leaves initialisation to the operations has orderly runs only, lookups that fail or not. */
  lemma {:induction false} WithoutInitialize(timed: bool, calls: seq<ClientCall>)
    requires forall k :: 0 <= k < |calls| ==> calls[k].Public?
    ensures var after, events := RunTo(New(timed), calls), RunEvents(New(timed), calls);
            && PhaseOf(events) == PhaseAt(after) != Disorder && after.lh == after.driver
            && Count(events, InitEnds(true)) == Count(events, Exits) + Bit(after.lh)
  {
    RunProper(timed, calls);
    if calls != [] {
      hide RunEvents, Called, CallEvents, Count, PhaseFrom;
      var before := calls[..|calls| - 1];
      var h := RunTo(New(timed), before);
      WithoutInitialize(timed, before);
      RunProper(timed, before);
      CallTogether(h, calls[|calls| - 1].call);
      LastInOrder(timed, calls);
    }
    OrderlyCounts(RunEvents(New(timed), calls));
  }

  /** What an operation leaves, unless a lookup fails: it is closed if that was asked for, and gone exactly if there are
      no references. A failing lookup leaves 255 users, and nothing else. */
  lemma OperationOutcome(h: Handle, o: Operation)
    requires Proper(h) && h.refs > 0 && h.used == 0 && (h.driver ==> h.lh)
    ensures var after, exit := Operated(h, o), Call.Exit in Callbacks(o, h.lh);
            if !h.lh && o.opening.LookupFailed? then after == h.(used := 255)
            else
              && after.used == 0 && after.refs == CalledBack(h, Callbacks(o, h.lh)).refs
              && after.lh == after.driver == (Opens(o, h.lh) && !exit && after.refs > 0)
              && (exit ==> after.timeouts == [])
              && (!exit && after.refs > 0 ==> after.timeouts == CalledBack(h, Callbacks(o, h.lh)).timeouts)
  {
    hide Operated, OperationEvents, CalledBack;
    OperationCases(h, o);
    CalledBackKeeps(h, Callbacks(o, h.lh));
    if !h.lh && !o.opening.Loaded? {
      NoCallbacks(o);
      NothingCalledBack(h);
    }
  }

  // ----- Counts -----

  /** The handle is freed if and only if there are no references and its users have been counted well; and drivers are
      left at most as often as they were initialised if and only if no more of them were left early than initialised
      over. */
  lemma RunCounts(timed: bool, calls: seq<ClientCall>)
    ensures var h, after, events := New(timed), RunTo(New(timed), calls), RunEvents(New(timed), calls);
            && Count(events, Freed) == Bit(after.refs == 0 && FailedLookups(timed, calls) % 256 == 0)
            && (Count(events, Exits) + Bit(after.driver) <= Count(events, InitEnds(true)) <==>
                EarlyRun(h, calls) <= OverRun(h, calls))
  {
    hide RunTo, RunEvents, Count, EarlyRun, OverRun;
    RunFits(timed, calls);
    UsersCountLookups(timed, calls);
  }

  /** Does the driver make quiet calls only, whenever the client initialises a camera that does not count as in use? */
  predicate QuietStep(h: Handle, c: ClientCall) {
    h.refs > 0 && h.used == 0 && c.Initialize? && c.opening.Loaded? ==> AllQuiet(h, c.opening.part.callbacks)
  }

  predicate QuietRun(h: Handle, calls: seq<ClientCall>) {
    calls == [] || (QuietRun(h, calls[..|calls| - 1]) && QuietStep(RunTo(h, calls[..|calls| - 1]), calls[|calls| - 1]))
  }

  /** Quiet drivers are never left early. */
  lemma {:induction false} QuietIsNotEarly(timed: bool, calls: seq<ClientCall>)
    requires QuietRun(New(timed), calls)
    ensures EarlyRun(New(timed), calls) == 0
  {
    if calls != [] {
      hide RunTo, EarlyIn;
      var before, c := calls[..|calls| - 1], calls[|calls| - 1];
      QuietIsNotEarly(timed, before);
      RunProper(timed, before);
      QuietStepIsNotEarly(RunTo(New(timed), before), c);
    }
  }

  lemma QuietStepIsNotEarly(h: Handle, c: ClientCall)
    requires Proper(h) && QuietStep(h, c)
    ensures EarlyIn(h, c) == 0
  {
    if h.refs > 0 && c.Initialize? && c.opening.Loaded? {
      var during, calls := h.(lh := true), c.opening.part.callbacks;
      if h.used == 0 {
        QuietDoesNotDepend(h, during, calls);
      }
      QuietCallsAreNotEarly(during, calls);
    }
  }

  lemma {:induction false} QuietCallsAreNotEarly(h: Handle, calls: seq<Call>)
    requires h.refs > 0 && h.lh && (h.used == 0 ==> AllQuiet(h, calls))
    ensures EarlyAll(h, calls) == 0
  {
    if calls != [] {
      hide Called, CallEvents, CalledAll, AllEvents;
      var before := calls[..|calls| - 1];
      QuietCallsAreNotEarly(h, before);
      if h.used == 0 {
        QuietExactly(h, before);
      } else {
        PostponedAll(h, before);
      }
      CalledBackKeeps(h, before);
    }
  }

  /** The bound can be broken: a driver that asks for an exit while the client initialises it is left, entered again,
      and left once more. */
  lemma LeftTooOften()
    ensures var calls := [Initialize(Loaded(Part(true, [Call.Exit]))), Public(Call.Exit)];
            var events := RunEvents(New(false), calls);
            Count(events, Exits) == 2 && Count(events, InitEnds(true)) == 1
  {
    hide RunEvents, Count;
    EventsTooMany();
    CountsTooMany();
  }

  lemma EventsTooMany()
    ensures RunEvents(New(false), [Initialize(Loaded(Part(true, [Call.Exit]))), Public(Call.Exit)]) ==
            [InitBegins] + [Exits] + [InitEnds(true)] + [Exits]
  {
    var first, second := Initialize(Loaded(Part(true, [Call.Exit]))), Public(Call.Exit);
    var h := New(false);
    var during := h.(lh := true);
    assert [first, second][..1] == [first] && [Call.Exit][..0] == [];
    NothingCalledBack(during);
    assert CalledAll(during, [Call.Exit]) == Left(during) && AllEvents(during, [Call.Exit]) == [Exits];
    hide CalledAll, AllEvents;
    OneCall(h, first);
    assert EventsOf(h, first) == [InitBegins] + [Exits] + [InitEnds(true)];
    assert EventsOf(Step(h, first), second) == [Exits];
  }

  lemma CountsTooMany()
    ensures var events := [InitBegins] + [Exits] + [InitEnds(true)] + [Exits];
            Count(events, Exits) == 2 && Count(events, InitEnds(true)) == 1
  {
    hide Count;
    forall e ensures Count([InitBegins] + [Exits] + [InitEnds(true)] + [Exits], e) ==
                     Count([InitBegins], e) + Count([Exits], e) + Count([InitEnds(true)], e) + Count([Exits], e)
    {
      CountInPieces([InitBegins] + [Exits] + [InitEnds(true)], [Exits], e);
      CountInPieces([InitBegins] + [Exits], [InitEnds(true)], e);
      CountInPieces([InitBegins], [Exits], e);
    }
    forall e, x ensures Count([x], e) == Bit(x == e) {
      CountOfOne(x, e);
    }
  }

  /** All of this together. */
  lemma LifeOf(timed: bool, calls: seq<ClientCall>)
    ensures var after, trace := RunTo(New(timed), calls), RunEvents(New(timed), calls);
            var lookups := Count(trace, LookupFails);
            && PhaseOf(trace) == (if Unspoiled(New(timed), calls) then PhaseAt(after) else Disorder)
            && (Unspoiled(New(timed), calls) ==> forall n :: 0 <= n <= |trace| ==> PhaseOf(trace[..n]) != Disorder)
            && after.used == (256 - lookups % 256) % 256
            && Count(trace, Freed) == Bit(after.refs == 0 && lookups % 256 == 0)
            && (QuietRun(New(timed), calls) ==> Count(trace, Exits) + Bit(after.driver) <= Count(trace, InitEnds(true)))
  {
    hide RunTo, RunEvents, PhaseAt, Unspoiled, PhaseOf, Count, QuietRun;
    RunInOrder(timed, calls);
    RunCounts(timed, calls);
    UsersCountLookups(timed, calls);
    if QuietRun(New(timed), calls) {
      QuietIsNotEarly(timed, calls);
    }
    NeverGone(RunTo(New(timed), calls));
    var trace := RunEvents(New(timed), calls);
    if Unspoiled(New(timed), calls) {
      forall n | 0 <= n <= |trace| ensures PhaseOf(trace[..n]) != Disorder {
        OrderlyBefore(trace, n);
      }
    }
  }
}
