/** What the calls of clients and drivers do to a camera handle. */
module CameraHandle {

  // ----- What drivers and clients do -----

  /** A call of a public function, by a client or by a driver. */
  datatype Call = Ref | Unref | Exit | StartTimeout(id: nat) | StopTimeout(id: nat) | Operate(operation: Operation)

  /** A call into the driver: how it ends, and what it calls back meanwhile. */
  datatype Part = Part(ok: bool, callbacks: seq<Call>)

  /** Opening the driver ends for lack of a port or of a model; the camera is not found on the USB; the driver's library
      cannot be used; or its own initialisation is called. */
  datatype Opening = NoPort | LookupFailed | NotLoaded | Loaded(part: Part)

  /** An operation: opening the driver if that is necessary; is there such a function; and the three calls. */
  datatype Operation = Operation(opening: Opening, supported: bool, pre: Part, run: Part, post: Part)

  /** A client may also initialise the camera itself. */
  datatype ClientCall = Public(call: Call) | Initialize(opening: Opening)

  datatype Result = Ok | Failed | Busy

  // ----- Orderly runs -----

  /** What happens to the driver and to the handle; and the lookups on the USB that fail. */
  datatype Event = InitBegins | InitEnds(ok: bool) | Begins | Ends | Exits | Freed | LookupFails

  datatype Phase = Closed | Initializing | Open | Working | Gone | Disorder

  /** Calls into the driver do not overlap; it is initialised only when it is closed, left only when it is open, and
      the handle is freed once, at the end, and closed. */
  function After(phase: Phase, e: Event): Phase {
    match (phase, e)
    case (Closed, InitBegins) => Initializing
    case (Initializing, InitEnds(ok)) => if ok then Open else Closed
    case (Open, Begins) => Working
    case (Working, Ends) => Open
    case (Open, Exits) => Closed
    case (Closed, Freed) => Gone
    case (_, LookupFails) => phase
    case _ => Disorder
  }

  function PhaseFrom(start: Phase, trace: seq<Event>): Phase {
    if trace == [] then start else After(PhaseFrom(start, trace[..|trace| - 1]), trace[|trace| - 1])
  }

  function PhaseOf(trace: seq<Event>): Phase {
    PhaseFrom(Closed, trace)
  }

  function Count(trace: seq<Event>, e: Event): nat {
    if trace == [] then 0 else Count(trace[..|trace| - 1], e) + if trace[|trace| - 1] == e then 1 else 0
  }

  /** In an orderly run, the driver has been left as often as it was initialised, or once less while it is open; and the
      handle has been freed exactly once when it is gone, and not before. */
  lemma {:induction false} OrderlyCounts(trace: seq<Event>)
    requires PhaseOf(trace) != Disorder
    ensures Count(trace, InitEnds(true)) == Count(trace, Exits) + if PhaseOf(trace) in {Open, Working} then 1 else 0
    ensures Count(trace, Freed) == if PhaseOf(trace) == Gone then 1 else 0
    ensures Count(trace, Begins) == Count(trace, Ends) + if PhaseOf(trace) == Working then 1 else 0
  {
    if trace != [] {
      OrderlyCounts(trace[..|trace| - 1]);
    }
  }

  lemma {:induction false} PhaseInPieces(start: Phase, a: seq<Event>, b: seq<Event>)
    ensures PhaseFrom(start, a + b) == PhaseFrom(PhaseFrom(start, a), b)
  {
    if b == [] {
      assert a + b == a;
    } else {
      PhaseInPieces(start, a, b[..|b| - 1]);
      assert (a + b)[..|a + b| - 1] == a + b[..|b| - 1];
    }
  }

  lemma {:induction false} CountInPieces(a: seq<Event>, b: seq<Event>, e: Event)
    ensures Count(a + b, e) == Count(a, e) + Count(b, e)
  {
    if b == [] {
      assert a + b == a;
    } else {
      CountInPieces(a, b[..|b| - 1], e);
      assert (a + b)[..|a + b| - 1] == a + b[..|b| - 1];
    }
  }

  /** What is out of order stays so. */
  lemma {:induction false} DisorderStays(trace: seq<Event>)
    ensures PhaseFrom(Disorder, trace) == Disorder
  {
    if trace != [] {
      DisorderStays(trace[..|trace| - 1]);
    }
  }

  /** Every part of an orderly run was orderly. */
  lemma OrderlyBefore(trace: seq<Event>, n: nat)
    requires PhaseOf(trace) != Disorder && n <= |trace|
    ensures PhaseOf(trace[..n]) != Disorder
  {
    PhaseInPieces(Closed, trace[..n], trace[n..]);
    DisorderStays(trace[n..]);
    assert trace[..n] + trace[n..] == trace;
  }

  // ----- What calls do to a handle -----

  /** The number of users is a byte: 0 between the calls of a client, 1 during an operation, and anything after a
      release too many. Is a library loaded, and are the functions of a driver entered? A failed attempt to load the
      library again makes the two differ. Timeouts are kept if there are functions to start and stop them. */
  datatype Handle = Handle(refs: nat, used: nat, lh: bool, driver: bool, timed: bool, timeouts: seq<nat>)

  /** The handle has been freed. */
  predicate IsGone(h: Handle) {
    h.refs == 0 && h.used == 0
  }

  /** A handle that is gone has no library, and without timeout functions there are no timeouts. */
  predicate Sane(h: Handle) {
    h.used < 256 && (IsGone(h) ==> !h.lh) && (!h.timed ==> h.timeouts == [])
  }

  predicate Proper(h: Handle) {
    Sane(h) && (h.lh ==> h.driver)
  }

  /** Without the first entry that is `id`. */
  function Without(ids: seq<nat>, id: nat): seq<nat> {
    if ids == [] then [] else if ids[0] == id then ids[1..] else [ids[0]] + Without(ids[1..], id)
  }

  /** One entry less ... */
  lemma {:induction false} WithoutOne(ids: seq<nat>, id: nat)
    ensures multiset(Without(ids, id)) == multiset(ids) - multiset{id}
  {
    if ids != [] {
      assert ids == [ids[0]] + ids[1..];
      WithoutOne(ids[1..], id);
    }
  }

  /** ... and it is the first one; the others stay in their order. */
  lemma {:induction false} WithoutFirst(ids: seq<nat>, i: nat)
    requires i < |ids| && ids[i] !in ids[..i]
    ensures Without(ids, ids[i]) == ids[..i] + ids[i + 1..]
  {
    if i > 0 {
      var rest := ids[1..];
      assert ids[..i] == [ids[0]] + rest[..i - 1];
      WithoutFirst(rest, i - 1);
    }
  }

  lemma {:induction false} WithoutNone(ids: seq<nat>, id: nat)
    requires id !in ids
    ensures Without(ids, id) == ids
  {
    if ids != [] {
      WithoutNone(ids[1..], id);
    }
  }

  /** A call that comes while the camera is in use: what it asks for may be postponed. */
  function CalledBackOnce(h: Handle, call: Call): Handle {
    match call
    case Ref => h.(refs := h.refs + 1)
    case Unref => h.(refs := if h.refs > 0 then h.refs - 1 else 0)
    case StartTimeout(id) => if h.timed then h.(timeouts := h.timeouts + [id]) else h
    case StopTimeout(id) => if h.timed then h.(timeouts := Without(h.timeouts, id)) else h
    case _ => h
  }

  function CalledBack(h: Handle, calls: seq<Call>): Handle {
    if calls == [] then h else CalledBackOnce(CalledBack(h, calls[..|calls| - 1]), calls[|calls| - 1])
  }

  /** References are counted: one more with each `Ref`, one less with each `Unref`, if there are enough of them. */
  lemma {:induction false} RefsCounted(h: Handle, calls: seq<Call>)
    requires |calls| <= h.refs
    ensures CalledBack(h, calls).refs == h.refs + multiset(calls)[Ref] - multiset(calls)[Unref]
    ensures CalledBack(h, calls).refs >= h.refs - |calls|
  {
    if calls != [] {
      var front := calls[..|calls| - 1];
      RefsCounted(h, front);
      assert calls == front + [calls[|front|]];
      assert multiset(calls) == multiset(front) + multiset{calls[|front|]};
    }
  }

  lemma {:induction false} CalledBackInPieces(h: Handle, a: seq<Call>, b: seq<Call>)
    ensures CalledBack(h, a + b) == CalledBack(CalledBack(h, a), b)
  {
    if b == [] {
      assert a + b == a;
    } else {
      CalledBackInPieces(h, a, b[..|b| - 1]);
      assert (a + b)[..|a + b| - 1] == a + b[..|b| - 1];
    }
  }

  /** Callbacks do not open or close anything. */
  lemma {:induction false} CalledBackKeeps(h: Handle, calls: seq<Call>)
    ensures var after := CalledBack(h, calls);
            after.lh == h.lh && after.driver == h.driver && after.timed == h.timed && after.used == h.used &&
            (!h.timed ==> after.timeouts == h.timeouts)
  {
    if calls != [] {
      CalledBackKeeps(h, calls[..|calls| - 1]);
    }
  }

  /** `gp_camera_exit`: stops the timeouts and leaves the driver. */
  function Left(h: Handle): Handle {
    h.(lh := false, driver := false, timeouts := [])
  }

  function LeaveEvents(h: Handle): seq<Event> {
    if h.lh || h.driver then [Exits] else []
  }

  /** `gp_camera_free`: leaves the driver only if there is a library. */
  function Released(h: Handle): Handle {
    if h.lh then Left(h) else h
  }

  function ReleaseEvents(h: Handle): seq<Event> {
    (if h.lh then [Exits] else []) + [Freed]
  }

  /** What was postponed is done as soon as the camera is not in use any more. */
  function Ended(h: Handle, exit: bool): Handle {
    var left := if exit then Left(h) else h;
    if h.refs == 0 then Released(left) else left
  }

  function EndEvents(h: Handle, exit: bool): seq<Event> {
    var left := if exit then Left(h) else h;
    (if exit then LeaveEvents(h) else []) + if h.refs == 0 then ReleaseEvents(left) else []
  }

  /** `used--`, for an `unsigned char`. */
  function Minus(used: nat): (r: nat)
    ensures r < 256
  {
    (used + 255) % 256
  }

  /** CAMERA_UNUSED: one user less. */
  function Unused(h: Handle, exit: bool): Handle {
    var now := h.(used := Minus(h.used));
    if now.used > 0 then now else Ended(now, exit)
  }

  function UnusedEvents(h: Handle, exit: bool): seq<Event> {
    var now := h.(used := Minus(h.used));
    if now.used > 0 then [] else EndEvents(now, exit)
  }

  /** The callbacks of an operation that are made, for a driver that is open or not. */
  function Callbacks(o: Operation, open: bool): seq<Call> {
    if open then CallbacksOpen(o)
    else if !o.opening.Loaded? then []
    else o.opening.part.callbacks + if o.opening.part.ok then CallbacksOpen(o) else []
  }

  function CallbacksOpen(o: Operation): seq<Call> {
    if !o.supported then []
    else o.pre.callbacks + if o.pre.ok then o.run.callbacks + o.post.callbacks else []
  }

  predicate Opens(o: Operation, open: bool) {
    open || (o.opening.Loaded? && o.opening.part.ok)
  }

  predicate Succeeds(o: Operation, open: bool) {
    Opens(o, open) && o.supported && o.pre.ok && o.run.ok && o.post.ok
  }

  /** How an operation ends, for a camera in this state. */
  function ResultOf(h: Handle, o: Operation): Result {
    if h.used > 0 then Busy else if Succeeds(o, h.lh) then Ok else Failed
  }

  /** An operation, when the camera is not in use: opens the driver if there is no library, makes its calls, and ends.
      If the camera is not found on the USB, it is released twice: where that is found out, and by the operation. */
  function Operated(h: Handle, o: Operation): Handle {
    var busy := h.(used := 1);
    if !h.lh && o.opening.LookupFailed? then Unused(Unused(busy, false), false)
    else
      var after := CalledBack(busy, Callbacks(o, h.lh));
      Unused(if h.lh || !o.opening.Loaded? then after else after.(lh := o.opening.part.ok, driver := o.opening.part.ok),
             Call.Exit in Callbacks(o, h.lh))
  }

  function WorkEvents(o: Operation): seq<Event> {
    if !o.supported then []
    else [Begins, Ends] + if o.pre.ok then [Begins, Ends, Begins, Ends] else []
  }

  function OperationEvents(h: Handle, o: Operation): seq<Event> {
    var after := CalledBack(h.(used := 1), Callbacks(o, h.lh));
    var exit := Call.Exit in Callbacks(o, h.lh);
    if h.lh then WorkEvents(o) + UnusedEvents(after, exit)
    else
      match o.opening
      case NoPort => UnusedEvents(after, exit)
      case NotLoaded => UnusedEvents(after, exit)
      case LookupFailed => [LookupFails] + UnusedEvents(after, false) + UnusedEvents(Unused(after, false), false)
      case Loaded(part) =>
        [InitBegins, InitEnds(part.ok)] + (if part.ok then WorkEvents(o) else []) +
        UnusedEvents(after.(lh := part.ok, driver := part.ok), exit)
  }

  /** A call, whether the camera is in use or not. */
  function Called(h: Handle, call: Call): Handle {
    if IsGone(h) then h
    else if h.used > 0 then CalledBackOnce(h, call)
    else
      match call
      case Unref => if h.refs == 1 then Released(h.(refs := 0)) else h.(refs := h.refs - 1)
      case Exit => Left(h)
      case Operate(o) => Operated(h, o)
      case _ => CalledBackOnce(h, call)
  }

  function CallEvents(h: Handle, call: Call): seq<Event> {
    if IsGone(h) || h.used > 0 then []
    else
      match call
      case Unref => if h.refs == 1 then ReleaseEvents(h) else []
      case Exit => LeaveEvents(h)
      case Operate(o) => OperationEvents(h, o)
      case _ => []
  }

  function CalledAll(h: Handle, calls: seq<Call>): Handle {
    if calls == [] then h else Called(CalledAll(h, calls[..|calls| - 1]), calls[|calls| - 1])
  }

  function AllEvents(h: Handle, calls: seq<Call>): seq<Event> {
    if calls == [] then []
    else AllEvents(h, calls[..|calls| - 1]) + CallEvents(CalledAll(h, calls[..|calls| - 1]), calls[|calls| - 1])
  }

  /** `gp_camera_init`. When a client calls it for a camera that does not count as in use, nothing that the driver calls
      back is postponed. A failing lookup releases the camera, whoever calls. */
  function Initialized(h: Handle, opening: Opening): Handle {
    match opening
    case NoPort => h
    case LookupFailed => Unused(h, false)
    case NotLoaded => h.(lh := false)
    case Loaded(part) =>
      var after := CalledAll(h.(lh := true), part.callbacks);
      if IsGone(after) then after
      else if part.ok then after.(driver := true)
      else after.(lh := false, driver := false)
  }

  function InitEvents(h: Handle, opening: Opening): seq<Event> {
    match opening
    case NoPort => []
    case LookupFailed => [LookupFails] + UnusedEvents(h, false)
    case NotLoaded => []
    case Loaded(part) =>
      var during := h.(lh := true);
      [InitBegins] + AllEvents(during, part.callbacks) +
      if IsGone(CalledAll(during, part.callbacks)) then [] else [InitEnds(part.ok)]
  }

  /** One call of a client, which must have a reference. */
  function Step(h: Handle, c: ClientCall): Handle {
    if h.refs == 0 then h
    else
      match c
      case Public(call) => Called(h, call)
      case Initialize(opening) => Initialized(h, opening)
  }

  function EventsOf(h: Handle, c: ClientCall): seq<Event> {
    if h.refs == 0 then []
    else
      match c
      case Public(call) => CallEvents(h, call)
      case Initialize(opening) => InitEvents(h, opening)
  }

  /** A run of a client: its calls one after another, as long as there are references. */
  function RunTo(h: Handle, calls: seq<ClientCall>): Handle {
    if calls == [] then h else Step(RunTo(h, calls[..|calls| - 1]), calls[|calls| - 1])
  }

  function RunEvents(h: Handle, calls: seq<ClientCall>): seq<Event> {
    if calls == [] then []
    else RunEvents(h, calls[..|calls| - 1]) + EventsOf(RunTo(h, calls[..|calls| - 1]), calls[|calls| - 1])
  }

  /** A new handle. */
  function New(timed: bool): Handle {
    Handle(1, 0, false, false, timed, [])
  }
}
