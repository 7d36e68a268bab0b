/** Which runs of clients and drivers are orderly. */
module CameraOrder {
  import opened CameraHandle

  // ----- Which runs are orderly -----

  /** May the driver call this back, while the client initialises the camera and holds so many references? Anything but
      leaving the camera, giving the last reference back, and an operation that the driver supports already. */
  predicate Quiet(refs: nat, call: Call) {
    match call
    case Unref => refs > 1
    case Exit => false
    case Operate(o) => !o.supported
    case _ => true
  }

  predicate AllQuiet(h: Handle, calls: seq<Call>) {
    calls == [] ||
    (AllQuiet(h, calls[..|calls| - 1]) && Quiet(CalledBack(h, calls[..|calls| - 1]).refs, calls[|calls| - 1]))
  }

  lemma PhaseOfOne(p: Phase, x: Event, y: Event)
    ensures PhaseFrom(p, []) == p && PhaseFrom(p, [x]) == After(p, x) && PhaseFrom(p, [x, y]) == After(After(p, x), y)
  {
    assert [x][..0] == [] && [x, y][..1] == [x];
  }

  lemma CountOfOne(x: Event, e: Event)
    ensures Count([], e) == 0 && Count([x], e) == if x == e then 1 else 0
  {
    assert [x][..0] == [];
  }

  lemma CountOfTwo(x: Event, y: Event, e: Event)
    ensures Count([x, y], e) == Count([x], e) + Count([y], e)
  {
    CountInPieces([x], [y], e);
    assert [x] + [y] == [x, y];
  }

  /** The events at the end of an operation or of a handle. */
  lemma CountsOfLast(e: Event)
    ensures Count([], e) == 0 && Count([Exits], e) == (if e == Exits then 1 else 0)
    ensures Count([Freed], e) == (if e == Freed then 1 else 0)
    ensures Count([Exits, Freed], e) == if e in {Exits, Freed} then 1 else 0
  {
    hide Count;
    CountOfOne(Exits, e);
    CountOfOne(Freed, e);
    CountOfTwo(Exits, Freed, e);
  }

  lemma PhaseOfWork(o: Operation)
    ensures PhaseFrom(Open, WorkEvents(o)) == Open
    ensures o.supported ==> PhaseFrom(Initializing, WorkEvents(o)) == Disorder
  {
    PhaseOfOne(Open, Begins, Ends);
    PhaseOfOne(Initializing, Begins, Ends);
    var calls := [Begins, Ends];
    var all := calls + calls;
    PhaseInPieces(Open, calls, calls);
    PhaseInPieces(Open, calls, all);
    PhaseInPieces(Initializing, calls, all);
    DisorderStays(all);
    assert [Begins, Ends, Begins, Ends] == all;
    assert o.supported && o.pre.ok ==> WorkEvents(o) == calls + all;
  }

  /** What is open, and the number of users, make no difference to callbacks during an operation. */
  lemma {:induction false} OpenOrNot(h: Handle, lh: bool, driver: bool, used: nat, calls: seq<Call>)
    ensures CalledBack(h.(lh := lh, driver := driver, used := used), calls) ==
            CalledBack(h, calls).(lh := lh, driver := driver, used := used)
  {
    hide CalledBack, CalledBackOnce;
    CalledBackLast(h, calls);
    CalledBackLast(h.(lh := lh, driver := driver, used := used), calls);
    if calls != [] {
      var before, call := calls[..|calls| - 1], calls[|calls| - 1];
      OpenOrNot(h, lh, driver, used, before);
      OpenOrNotOnce(CalledBack(h, before), lh, driver, used, call);
    }
  }

  lemma CalledBackLast(h: Handle, calls: seq<Call>)
    ensures calls == [] ==> CalledBack(h, calls) == h
    ensures calls != [] ==>
      CalledBack(h, calls) == CalledBackOnce(CalledBack(h, calls[..|calls| - 1]), calls[|calls| - 1])
  {
  }

  lemma OpenOrNotOnce(h: Handle, lh: bool, driver: bool, used: nat, call: Call)
    ensures CalledBackOnce(h.(lh := lh, driver := driver, used := used), call) ==
            CalledBackOnce(h, call).(lh := lh, driver := driver, used := used)
  {
  }

  lemma LastUser(h: Handle, exit: bool)
    requires h.used == 1
    ensures Unused(h, exit) == Ended(h.(used := 0), exit) && UnusedEvents(h, exit) == EndEvents(h.(used := 0), exit)
  {
    hide Ended, EndEvents;
  }

  /** What an operation does when the camera is not in use, case by case. */
  lemma OperationCases(h: Handle, o: Operation)
    requires h.refs > 0 && h.used == 0
    ensures var after, exit := CalledBack(h, Callbacks(o, h.lh)), Call.Exit in Callbacks(o, h.lh);
            if h.lh then Operated(h, o) == Ended(after, exit) &&
              OperationEvents(h, o) == WorkEvents(o) + EndEvents(after, exit)
            else
              match o.opening
              case NoPort => Operated(h, o) == h && OperationEvents(h, o) == []
              case NotLoaded => Operated(h, o) == h && OperationEvents(h, o) == []
              case LookupFailed => Operated(h, o) == h.(used := 255) && OperationEvents(h, o) == [LookupFails]
              case Loaded(part) =>
                var ready := after.(lh := part.ok, driver := part.ok);
                && Operated(h, o) == Ended(ready, exit)
                && OperationEvents(h, o) ==
                     [InitBegins, InitEnds(part.ok)] + (if part.ok then WorkEvents(o) else []) + EndEvents(ready, exit)
  {
    var calls := Callbacks(o, h.lh);
    var after, busy := CalledBack(h, calls), CalledBack(h.(used := 1), calls);
    OpenOrNot(h, h.lh, h.driver, 1, calls);
    CalledBackKeeps(h, calls);
    NothingCalledBack(h);
    hide CalledBack, WorkEvents, Callbacks;
    if h.lh {
      hide Ended, EndEvents, Unused, UnusedEvents;
      LastUser(busy, Call.Exit in calls);
    } else if o.opening.Loaded? {
      hide Ended, EndEvents, Unused, UnusedEvents;
      var ok := o.opening.part.ok;
      LastUser(busy.(lh := ok, driver := ok), Call.Exit in calls);
    } else {
      assert calls == [] by {
        NoCallbacks(o);
      }
    }
  }

  lemma NoCallbacks(o: Operation)
    requires !o.opening.Loaded?
    ensures Callbacks(o, false) == []
  {
  }

  lemma NothingCalledBack(h: Handle)
    ensures CalledBack(h, []) == h == CalledAll(h, []) && AllEvents(h, []) == []
    ensures RunTo(h, []) == h && RunEvents(h, []) == []
  {
  }

  /** During the use of the camera, everything is postponed. */
  lemma {:induction false} PostponedAll(h: Handle, calls: seq<Call>)
    requires h.used > 0
    ensures CalledAll(h, calls) == CalledBack(h, calls) && AllEvents(h, calls) == []
  {
    if calls != [] {
      PostponedAll(h, calls[..|calls| - 1]);
      CalledBackKeeps(h, calls[..|calls| - 1]);
    }
  }

  /** The end of an operation is orderly, whether the driver is open or not, and was asked to be left or not. */
  lemma PhaseOfEnd(h: Handle, exit: bool)
    requires h.lh == h.driver && h.used == 0
    ensures PhaseFrom(if h.driver then Open else Closed, EndEvents(h, exit)) == PhaseAt(Ended(h, exit))
  {
    var p := if h.driver then Open else Closed;
    PhaseOfOne(p, Exits, Freed);
    PhaseOfOne(p, Freed, Freed);
    if h.refs == 0 {
      assert EndEvents(h, exit) == if h.lh then [Exits, Freed] else [Freed];
    } else {
      assert EndEvents(h, exit) == if exit && h.lh then [Exits] else [];
    }
  }

  /** Where an orderly run is. */
  function PhaseAt(h: Handle): Phase {
    if IsGone(h) then Gone else if h.driver then Open else Closed
  }

  /** While a client initialises the camera, quiet callbacks go unnoticed, and any other one ends the order. */
  lemma {:induction false} QuietExactly(h: Handle, calls: seq<Call>)
    requires h.refs > 0 && h.used == 0 && h.lh
    ensures AllQuiet(h, calls) ==>
              AllEvents(h, calls) == [] && CalledAll(h, calls) == CalledBack(h, calls) && CalledBack(h, calls).refs > 0
    ensures !AllQuiet(h, calls) ==> PhaseFrom(Initializing, AllEvents(h, calls)) == Disorder
  {
    if calls != [] {
      var before, call := calls[..|calls| - 1], calls[|calls| - 1];
      QuietExactly(h, before);
      CalledBackKeeps(h, before);
      var now := CalledAll(h, before);
      PhaseInPieces(Initializing, AllEvents(h, before), CallEvents(now, call));
      if AllQuiet(h, before) {
        LoudCall(now, call);
      } else {
        DisorderStays(CallEvents(now, call));
      }
    }
  }

  lemma LoudCall(h: Handle, call: Call)
    requires h.refs > 0 && h.used == 0 && h.lh
    ensures Quiet(h.refs, call) ==>
              CallEvents(h, call) == [] && Called(h, call) == CalledBackOnce(h, call) &&
              CalledBackOnce(h, call).refs > 0
    ensures !Quiet(h.refs, call) ==> PhaseFrom(Initializing, CallEvents(h, call)) == Disorder
  {
    hide PhaseFrom, CallbacksOpen, CalledBack, WorkEvents, Ended, EndEvents, Operated, OperationEvents;
    PhaseOfOne(Initializing, Exits, Freed);
    if call.Operate? {
      var o := call.operation;
      OperationCases(h, o);
      if o.supported {
        var end := EndEvents(CalledBack(h, CallbacksOpen(o)), Call.Exit in CallbacksOpen(o));
        PhaseOfWork(o);
        PhaseInPieces(Initializing, WorkEvents(o), end);
        DisorderStays(end);
      } else {
        NotSupported(h, o);
      }
    } else {
      assert ReleaseEvents(h) == [Exits, Freed];
    }
  }

  lemma NotSupported(h: Handle, o: Operation)
    requires h.refs > 0 && !o.supported
    ensures WorkEvents(o) == [] && CallbacksOpen(o) == []
    ensures Ended(CalledBack(h, []), false) == h && EndEvents(CalledBack(h, []), false) == []
  {
  }

  /** The calls that end the order: initialising a driver that is open, or whose library answers with a call that is not
      quiet. And, where a failed attempt has lost the library of an open driver: an operation that opens it again, and
      the end of the handle, which does not leave it. */
  predicate Spoils(h: Handle, c: ClientCall) {
    h.refs > 0 &&
    match c
    case Initialize(opening) => opening.Loaded? && (h.driver || (h.used == 0 && !AllQuiet(h, opening.part.callbacks)))
    case Public(Operate(o)) => h.used == 0 && o.opening.Loaded? && h.driver && !h.lh
    case Public(Unref) => h.used == 0 && h.refs == 1 && h.driver && !h.lh
    case _ => false
  }

  lemma {:induction false} QuietDoesNotDepend(h: Handle, k: Handle, calls: seq<Call>)
    requires h.refs == k.refs
    ensures AllQuiet(h, calls) == AllQuiet(k, calls) && CalledBack(h, calls).refs == CalledBack(k, calls).refs
  {
    if calls != [] {
      QuietDoesNotDepend(h, k, calls[..|calls| - 1]);
    }
  }

  lemma OperationInOrder(h: Handle, o: Operation)
    requires Proper(h) && h.refs > 0 && h.used == 0
    ensures h.driver && !h.lh && o.opening.Loaded? ==> PhaseFrom(Open, OperationEvents(h, o)) == Disorder
    ensures !(h.driver && !h.lh && o.opening.Loaded?) ==>
              PhaseFrom(PhaseAt(h), OperationEvents(h, o)) == PhaseAt(Operated(h, o))
  {
    hide WorkEvents, EndEvents, Ended, CalledBack, PhaseFrom, CallbacksOpen, Operated, OperationEvents;
    var after, exit := CalledBack(h, Callbacks(o, h.lh)), Call.Exit in Callbacks(o, h.lh);
    OperationCases(h, o);
    CalledBackKeeps(h, Callbacks(o, h.lh));
    PhaseOfWork(o);
    PhaseOfOne(PhaseAt(h), LookupFails, LookupFails);
    if h.lh {
      PhaseInPieces(Open, WorkEvents(o), EndEvents(after, exit));
      PhaseOfEnd(after, exit);
    } else if o.opening.Loaded? {
      var ok := o.opening.part.ok;
      var ready, work := after.(lh := ok, driver := ok), if ok then WorkEvents(o) else [];
      var end := EndEvents(ready, exit);
      PhaseOfOne(Closed, InitBegins, InitEnds(ok));
      PhaseOfOne(Open, InitBegins, InitEnds(ok));
      assert OperationEvents(h, o) == [InitBegins, InitEnds(ok)] + (work + end);
      PhaseInPieces(PhaseAt(h), [InitBegins, InitEnds(ok)], work + end);
      DisorderStays(work + end);
      PhaseInPieces(if ok then Open else Closed, work, end);
      PhaseOfEnd(ready, exit);
      PhaseOfOne(if ok then Open else Closed, LookupFails, LookupFails);
    }
  }

  /** Each call ends the order, or leads from the phase of the handle to that of the handle afterwards. */
  lemma StepInOrder(h: Handle, c: ClientCall)
    requires Proper(h)
    ensures PhaseFrom(PhaseAt(h), EventsOf(h, c)) == if Spoils(h, c) then Disorder else PhaseAt(Step(h, c))
  {
    PhaseOfOne(PhaseAt(h), Exits, Freed);
    PhaseOfOne(PhaseAt(h), Freed, Freed);
    if h.refs == 0 {
    } else if c.Initialize? {
      hide Initialized, InitEvents;
      InitializeInOrder(h, c.opening);
    } else if h.used > 0 {
      hide PhaseFrom;
    } else if c.call.Operate? {
      hide OperationEvents, Operated, PhaseFrom;
      OperationInOrder(h, c.call.operation);
    } else {
      hide PhaseFrom;
      assert ReleaseEvents(h) == if h.lh then [Exits, Freed] else [Freed];
    }
  }

  lemma InitializeInOrder(h: Handle, opening: Opening)
    requires Proper(h) && h.refs > 0
    ensures PhaseFrom(PhaseAt(h), InitEvents(h, opening)) ==
            if Spoils(h, Initialize(opening)) then Disorder else PhaseAt(Initialized(h, opening))
  {
    hide PhaseFrom, AllEvents, CalledAll, CalledBack, AllQuiet;
    PhaseOfOne(PhaseAt(h), InitBegins, InitBegins);
    PhaseOfOne(PhaseAt(h), LookupFails, LookupFails);
    if opening.LookupFailed? {
      assert InitEvents(h, opening) == [LookupFails];
    } else if opening.Loaded? {
      var during, calls, ok := h.(lh := true), opening.part.callbacks, opening.part.ok;
      if h.used == 0 {
        QuietExactly(during, calls);
        QuietDoesNotDepend(h, during, calls);
      } else {
        PostponedAll(during, calls);
      }
      CalledBackKeeps(during, calls);
      var middle, end := AllEvents(during, calls), if IsGone(CalledAll(during, calls)) then [] else [InitEnds(ok)];
      assert InitEvents(h, opening) == [InitBegins] + (middle + end);
      PhaseOfOne(Initializing, InitEnds(ok), InitEnds(ok));
      PhaseInPieces(PhaseAt(h), [InitBegins], middle + end);
      PhaseInPieces(Initializing, middle, end);
      DisorderStays(middle + end);
      DisorderStays(end);
    }
  }

  /** With quiet callbacks, such as starting a timeout, an initialisation by the client does what one by an operation
      does: references and timeouts are kept, and afterwards the driver is open exactly if it said so. */
  lemma QuietInitialize(h: Handle, part: Part)
    requires h.refs > 0 && (h.used == 0 ==> AllQuiet(h, part.callbacks))
    ensures Initialized(h, Loaded(part)) == CalledBack(h, part.callbacks).(lh := part.ok, driver := part.ok)
    ensures !IsGone(Initialized(h, Loaded(part))) && Initialized(h, Loaded(part)).used == h.used
    ensures InitEvents(h, Loaded(part)) == [InitBegins, InitEnds(part.ok)]
  {
    hide CalledAll, CalledBack, AllEvents, AllQuiet;
    var during := h.(lh := true);
    if h.used == 0 {
      QuietDoesNotDepend(h, during, part.callbacks);
      QuietExactly(during, part.callbacks);
    } else {
      PostponedAll(during, part.callbacks);
    }
    CalledBackKeeps(during, part.callbacks);
    CalledBackKeeps(h, part.callbacks);
    OpenOrNot(h, true, h.driver, h.used, part.callbacks);
  }
}
