/** The interrupts of a Canon USB camera during a capture. */
module CaptureInterrupts {
  import opened Wrappers

  datatype Model = Class4 | Class6 | OtherClass

  const EOS_10D: nat := 0x3083
  const EOS_300D: nat := 0x3084

  /** A camera body, and whether the picture comes with a second one. */
  datatype Body = Body(model: Model, product: nat, secondaryImage: bool) {
    /** Bodies that may end a capture early, when everything has been transferred. */
    predicate EndsEarly() {
      model == Class6 || product == EOS_300D
    }

    predicate EndsWithWrite() {
      EndsEarly() || product == EOS_10D
    }
  }

  /** The transfers that are still to be reported. */
  datatype Transfers = Transfers(thumbToPc: bool, fullToPc: bool, thumbToDrive: bool, fullToDrive: bool) {
    predicate Done() {
      !thumbToPc && !fullToPc && !thumbToDrive && !fullToDrive
    }
  }

  const THUMB_SIZE: nat := 0x08
  const IMAGE_SIZE: nat := 0x0c
  const SECONDARY_SIZE: nat := 0x10
  const PROGRESS: nat := 0x0a
  const WRITTEN: nat := 0x0e
  const FINISHED: nat := 0x0f

  const FIRST: nat := 0x1c
  const SECOND: nat := 0x1d
  const PHOTO_ERROR: nat := 0x0a

  /** One read of the interrupt pipe: nothing, or a packet with its code, subcode, length and key words. `answered`
      is whether the camera answers when it is told to unlock its keys at this point. */
  datatype Interrupt = NoInterrupt | Interrupt(code: nat, subcode: nat, length: nat, key: nat, answered: bool)

  datatype Capture = Captured | NotCaptured | PhotoFailure

  datatype State = State(step: nat, transfers: Transfers, keysLocked: bool)

  predicate Unlocks(body: Body, locked: bool, answered: bool) {
    !locked || body.model == OtherClass || answered
  }

  predicate LockedAfter(body: Body, locked: bool, answered: bool) {
    locked && (body.model == OtherClass || !answered)
  }

  /** What becomes of a capture with a packet: it goes on, or ends. */
  datatype Next = GoOn(state: State) | End(result: Capture, state: State)

  function EndIf(condition: bool, s: State): Next {
    if condition then End(Captured, s) else GoOn(s)
  }

  function Progress(body: Body, s: State, subcode: nat): Next {
    if subcode == FIRST then
      if s.step == 0 || s.step == 2 then GoOn(s.(step := 1)) else End(NotCaptured, s)
    else if subcode == SECOND then
      if s.step == 1 then EndIf(body.model != Class4, s.(step := 2)) else End(NotCaptured, s)
    else if subcode == PHOTO_ERROR then End(PhotoFailure, s)
    else GoOn(s)
  }

  function Handle(body: Body, s: State, e: Interrupt): Next {
    if e.NoInterrupt? then End(NotCaptured, s)
    else if e.code == THUMB_SIZE then
      var t := s.transfers.(thumbToPc := false);
      EndIf(t.Done() && body.EndsEarly(), s.(transfers := t))
    else if e.code == IMAGE_SIZE then
      var t := s.transfers.(fullToPc := false);
      EndIf(!body.secondaryImage && t.Done() && body.EndsEarly(), s.(transfers := t))
    else if e.code == SECONDARY_SIZE then
      var t := s.transfers.(fullToPc := false);
      EndIf(t.Done() && body.EndsEarly(), s.(transfers := t))
    else if e.code == PROGRESS then Progress(body, s, e.subcode)
    else if e.code == WRITTEN then
      if s.step != 2 && body.model != Class6 then End(NotCaptured, s)
      else
        var locked := LockedAfter(body, s.keysLocked, e.answered);
        EndIf(body.EndsWithWrite(),
              State(s.step + 1, s.transfers.(thumbToDrive := false, fullToDrive := false), locked))
    else if e.code == FINISHED then
      if s.step == 2 then
        End(if Unlocks(body, s.keysLocked, e.answered) then Captured else NotCaptured,
            s.(keysLocked := LockedAfter(body, s.keysLocked, e.answered)))
      else End(if s.step == 3 then Captured else NotCaptured, s)
    else End(NotCaptured, s)
  }

  /** How a capture ends: with packet `at`. Where the pipe has no more packets there is no interrupt. */
  datatype Ending = Ending(result: Capture, at: nat)

  function Run(body: Body, s: State, pipe: seq<Interrupt>, p: nat): (r: Ending)
    ensures p <= r.at
    decreases |pipe| - p
  {
    if p >= |pipe| then Ending(NotCaptured, p)
    else
      match Handle(body, s, pipe[p])
      case GoOn(t) => Run(body, t, pipe, p + 1)
      case End(result, _) => Ending(result, p)
  }

  /** The sizes and keys that a camera reports. */
  datatype Sizes = Sizes(thumbLength: nat, imageLength: nat, imageKey: nat, secondaryLength: nat, secondaryKey: nat)

  function Reported(sizes: Sizes, e: Interrupt): Sizes {
    if e.NoInterrupt? then sizes
    else if e.code == THUMB_SIZE then sizes.(thumbLength := e.length, imageKey := e.key)
    else if e.code == IMAGE_SIZE then sizes.(imageLength := e.length, imageKey := e.key)
    else if e.code == SECONDARY_SIZE then sizes.(secondaryLength := e.length, secondaryKey := e.key)
    else sizes
  }

  /** The sizes and keys after the packets from `p` to `q`. */
  function ReportedUpTo(sizes: Sizes, pipe: seq<Interrupt>, p: nat, q: nat): Sizes {
    if q <= p then sizes
    else
      var before := ReportedUpTo(sizes, pipe, p, q - 1);
      if q - 1 < |pipe| then Reported(before, pipe[q - 1]) else before
  }

  class Session {
    const body: Body
    const pipe: seq<Interrupt>
    var next: nat
    var captureStep: nat
    var transfers: Transfers
    var keysLocked: bool
    var thumbLength: nat
    var imageLength: nat
    var imageKey: nat
    var secondaryLength: nat
    var secondaryKey: nat

    constructor (body: Body, pipe: seq<Interrupt>, transfers: Transfers, keysLocked: bool)
      ensures this.body == body && this.pipe == pipe && next == 0
      ensures this.transfers == transfers && this.keysLocked == keysLocked
    {
      this.body, this.pipe, this.transfers, this.keysLocked, next, captureStep :=
        body, pipe, transfers, keysLocked, 0, 0;
    }

    function Now(): State
      reads this
    {
      State(captureStep, transfers, keysLocked)
    }

    function Known(): Sizes
      reads this
    {
      Sizes(thumbLength, imageLength, imageKey, secondaryLength, secondaryKey)
    }

    method UnlockKeys(answered: bool) returns (ok: bool)
      modifies this`keysLocked
      ensures ok == Unlocks(body, old(keysLocked), answered)
      ensures keysLocked == LockedAfter(body, old(keysLocked), answered)
    {
      if !keysLocked || body.model == OtherClass {
        return true;
      }
      if !answered {
        return false;
      }
      keysLocked := false;
      return true;
    }

    /** A progress report: one step further, or the end of the capture. */
    method AdvanceStep(subcode: nat) returns (end: Option<Capture>)
      modifies this`captureStep
      ensures captureStep <= if old(captureStep) > 2 then old(captureStep) else 2
      ensures match Progress(body, old(Now()), subcode)
              case GoOn(s) => end == None && Now() == s
              case End(r, s) => end == Some(r) && Now() == s
    {
      end := None;
      if subcode == FIRST {
        if captureStep == 0 {
          captureStep := captureStep + 1;
        } else if captureStep == 2 {
          captureStep := 1;
        } else {
          end := Some(NotCaptured);
        }
      } else if subcode == SECOND {
        if captureStep != 1 {
          return Some(NotCaptured);
        }
        captureStep := captureStep + 1;
        if body.model != Class4 {
          end := Some(Captured);
        }
      } else if subcode == PHOTO_ERROR {
        end := Some(PhotoFailure);
      }
    }

    /** One packet: the capture goes on, or ends. */
    method HandlePacket(e: Interrupt) returns (end: Option<Capture>)
      requires e.Interrupt? && captureStep <= 3 && (body.model == Class6 ==> captureStep <= 2)
      modifies this
      ensures next == old(next) && captureStep <= 3 && (end == None && body.model == Class6 ==> captureStep <= 2)
      ensures Known() == Reported(old(Known()), e)
      ensures match Handle(body, old(Now()), e)
              case GoOn(s) => end == None && Now() == s
              case End(r, s) => end == Some(r) && Now() == s
    {
      hide Progress, Unlocks, LockedAfter, Body.EndsEarly;
      end := None;
      var early := false;
      if e.code == THUMB_SIZE {
        thumbLength, imageKey := e.length, e.key;
        transfers := transfers.(thumbToPc := false);
        early := transfers.Done() && body.EndsEarly();
      } else if e.code == IMAGE_SIZE {
        imageLength, imageKey := e.length, e.key;
        transfers := transfers.(fullToPc := false);
        early := !body.secondaryImage && transfers.Done() && body.EndsEarly();
      } else if e.code == SECONDARY_SIZE {
        secondaryLength, secondaryKey := e.length, e.key;
        transfers := transfers.(fullToPc := false);
        early := transfers.Done() && body.EndsEarly();
      } else if e.code == PROGRESS {
        end := AdvanceStep(e.subcode);
      } else if e.code == WRITTEN {
        if captureStep != 2 && body.model != Class6 {
          return Some(NotCaptured);
        }
        Class6EndsWithWrite(body);
        captureStep := captureStep + 1;
        var _ := UnlockKeys(e.answered);
        transfers := transfers.(thumbToDrive := false, fullToDrive := false);
        early := body.EndsWithWrite();
      } else if e.code == FINISHED {
        end := Some(Captured);
        if captureStep == 2 {
          var ok := UnlockKeys(e.answered);
          if !ok {
            end := Some(NotCaptured);
          }
        } else if captureStep != 3 {
          end := Some(NotCaptured);
        }
      } else {
        end := Some(NotCaptured);
      }
      if early {
        end := Some(Captured);
      }
    }

    /** The interrupt loop of a capture. The capture step never goes beyond 3, and the last reported sizes are kept. */
    method AwaitCapture() returns (r: Capture)
      modifies this
      ensures Known() ==
                ReportedUpTo(old(Known()).(thumbLength := 0, imageLength := 0, imageKey := 0x81818181), pipe, old(next),
                             next)
      ensures next > 0 && Ending(r, next - 1) == Run(body, old(Now()).(step := 0), pipe, old(next))
      ensures captureStep <= 3
    {
      hide Handle;
      captureStep, thumbLength, imageLength, imageKey := 0, 0, 0, 0x81818181;
      ghost var start, first, sizes := next, Now(), Known();
      while true
        invariant captureStep <= 3 && (body.model == Class6 ==> captureStep <= 2)
        invariant Run(body, Now(), pipe, next) == Run(body, first, pipe, start)
        invariant start <= next && Known() == ReportedUpTo(sizes, pipe, start, next)
        decreases |pipe| - next
      {
        var e := if next < |pipe| then pipe[next] else NoInterrupt;
        next := next + 1;
        if e.NoInterrupt? {
          NothingEnds(body, Now());
          return NotCaptured;
        }
        var end := HandlePacket(e);
        if end.Some? {
          return end.value;
        }
      }
    }

    /** A capture, cleaned up if it fails: an unclear pipe is read once more, and the keys are unlocked. */
    method CaptureImage(answered: bool) returns (r: Capture)
      modifies this
      ensures var ending := Run(body, old(Now()).(step := 0), pipe, old(next));
              r == ending.result && next == ending.at + if r == NotCaptured then 2 else 1
      ensures r != Captured && answered && body.model != OtherClass ==> !keysLocked
    {
      r := AwaitCapture();
      if r == NotCaptured {
        next := next + 1;
      }
      if r != Captured {
        var _ := UnlockKeys(answered);
      }
    }
  }

  lemma Class6EndsWithWrite(body: Body)
    ensures body.model == Class6 ==> body.EndsWithWrite()
  {
  }

  lemma NothingEnds(body: Body, s: State)
    ensures Handle(body, s, NoInterrupt) == End(NotCaptured, s)
  {
  }

  // ----- The words that end a capture -----

  /** The packets that matter for the order of events. */
  datatype Letter = First | Second | Written | Finished

  function LetterOf(e: Interrupt): Option<Letter> {
    if e.NoInterrupt? then None
    else if e.code == PROGRESS && e.subcode == FIRST then Some(First)
    else if e.code == PROGRESS && e.subcode == SECOND then Some(Second)
    else if e.code == WRITTEN then Some(Written)
    else if e.code == FINISHED then Some(Finished)
    else None
  }

  /** Sizes and unknown progress reports. */
  predicate Harmless(e: Interrupt) {
    e.Interrupt? &&
    (e.code in {THUMB_SIZE, IMAGE_SIZE, SECONDARY_SIZE} ||
     (e.code == PROGRESS && e.subcode !in {FIRST, SECOND, PHOTO_ERROR}))
  }

  /** The letters from `p` to `q`, if there are only letters and harmless packets. */
  function Word(pipe: seq<Interrupt>, p: nat, q: nat): (w: Option<seq<Letter>>)
    decreases q - p
  {
    if p >= q then Some([])
    else if p >= |pipe| then None
    else
      match Word(pipe, p + 1, q)
      case None => None
      case Some(rest) =>
        if Harmless(pipe[p]) then Some(rest)
        else if LetterOf(pipe[p]).Some? then Some([LetterOf(pipe[p]).value] + rest)
        else None
  }

  /** What can still follow at a step, for a body that ends with the report of writing, or with that of finishing
      only. */
  predicate Follows(step: nat, w: seq<Letter>, ends: bool)
    decreases |w|
  {
    if w == [] then false
    else
      match step
      case 0 => w[0] == First && Follows(1, w[1..], ends)
      case 1 => w[0] == Second && Follows(2, w[1..], ends)
      case 2 =>
        || (w[0] == First && Follows(1, w[1..], ends)) || w == [Finished]
        || (w[0] == Written && if ends then w == [Written] else Follows(3, w[1..], ends))
      case 3 => w == [Finished]
      case _ => false
  }

  /** `n` exposures, each with its two reports. */
  function Exposures(n: nat): seq<Letter> {
    if n == 0 then [] else [First, Second] + Exposures(n - 1)
  }

  function Tail(written: bool, ends: bool): seq<Letter> {
    if !written then [Finished] else if ends then [Written] else [Written, Finished]
  }

  lemma {:induction false} FollowsExposures(n: nat, written: bool, ends: bool)
    ensures Follows(2, Exposures(n) + Tail(written, ends), ends)
    ensures n > 0 ==> Follows(0, Exposures(n) + Tail(written, ends), ends)
  {
    if n == 0 {
      assert Exposures(0) + Tail(written, ends) == Tail(written, ends);
      assert [Written, Finished][1..] == [Finished];
    } else {
      FollowsExposures(n - 1, written, ends);
      var rest := Exposures(n - 1) + Tail(written, ends);
      assert Exposures(n) + Tail(written, ends) == [First, Second] + rest;
      assert ([First, Second] + rest)[1..] == [Second] + rest && ([Second] + rest)[1..] == rest;
    }
  }

  lemma {:induction false} FollowsOnlyExposures(w: seq<Letter>, ends: bool) returns (n: nat, written: bool)
    requires Follows(2, w, ends)
    ensures w == Exposures(n) + Tail(written, ends)
    decreases |w|
  {
    if w == [Finished] {
      n, written := 0, false;
    } else if w[0] == Written {
      n, written := 0, true;
      assert w == [Written] + w[1..];
    } else {
      n, written := FollowsOnlyExposures(w[1..][1..], ends);
      n := n + 1;
      assert w == [First, Second] + w[1..][1..];
    }
  }

  /** A class 4 body other than the EOS 300D. The EOS 10D ends a capture when the picture is written. */
  predicate Reporting(body: Body) {
    body.model == Class4 && !body.EndsEarly()
  }

  /** Are there, from `p` to `e`, the letters `w` and harmless packets only, with the last letter at `e`? */
  function Spells(pipe: seq<Interrupt>, p: nat, e: nat, w: seq<Letter>): (b: bool)
    ensures b ==> e < |pipe| && pipe[e].Interrupt?
  {
    p <= e < |pipe| && Word(pipe, p, e + 1) == Some(w) && LetterOf(pipe[e]).Some?
  }

  /** Can the keys be unlocked at the end, if that has not been tried before? */
  predicate KeysFree(body: Body, s: State, e: Interrupt, w: seq<Letter>) {
    s.step == 3 || Written in w || (e.Interrupt? && Unlocks(body, s.keysLocked, e.answered))
  }

  lemma {:induction false} RunSpells(body: Body, s: State, pipe: seq<Interrupt>, p: nat) returns (w: seq<Letter>)
    requires Reporting(body) && s.step <= 3 && Run(body, s, pipe, p).result == Captured
    ensures var e := Run(body, s, pipe, p).at;
            Spells(pipe, p, e, w) && Follows(s.step, w, body.EndsWithWrite()) && KeysFree(body, s, pipe[e], w)
    decreases |pipe| - p
  {
    match Handle(body, s, pipe[p]) {
      case End(_, _) =>
        w := [LetterOf(pipe[p]).value];
        assert Word(pipe, p + 1, p + 1) == Some([]) && w + [] == w;
      case GoOn(t) =>
        var rest := RunSpells(body, t, pipe, p + 1);
        if Harmless(pipe[p]) {
          w := rest;
        } else {
          w := [LetterOf(pipe[p]).value] + rest;
          assert w[1..] == rest;
        }
    }
  }

  lemma {:induction false} SpelledRuns(body: Body, s: State, pipe: seq<Interrupt>, p: nat, e: nat, w: seq<Letter>)
    requires Reporting(body) && s.step <= 3
    requires Spells(pipe, p, e, w) && Follows(s.step, w, body.EndsWithWrite()) && KeysFree(body, s, pipe[e], w)
    ensures Run(body, s, pipe, p) == Ending(Captured, e)
    decreases |pipe| - p
  {
    var rest := Word(pipe, p + 1, e + 1).value;
    if p < e {
      WordNotEmpty(pipe, p + 1, e);
    }
    if !Harmless(pipe[p]) {
      assert w[1..] == rest && w == [w[0]] + rest;
      assert p < e ==> |w| > 1;
    }
    match Handle(body, s, pipe[p]) {
      case GoOn(t) => SpelledRuns(body, t, pipe, p + 1, e, rest);
      case End(_, _) =>
    }
  }

  lemma {:induction false} WordNotEmpty(pipe: seq<Interrupt>, p: nat, e: nat)
    requires p <= e < |pipe| && Word(pipe, p, e + 1).Some? && LetterOf(pipe[e]).Some?
    ensures Word(pipe, p, e + 1).value != []
    decreases e - p
  {
    if p < e {
      WordNotEmpty(pipe, p + 1, e);
    }
  }

  /** For a class 4 body other than the EOS 300D, a capture succeeds with packet `e` exactly if the letters up to it are
      those of one exposure or more, and of the end, with a report of writing in between or with keys that can be
      unlocked. For the EOS 10D, a report of writing is the end. */
  lemma CapturedExactly(body: Body, transfers: Transfers, locked: bool, pipe: seq<Interrupt>, p: nat, e: nat)
    requires Reporting(body)
    ensures Run(body, State(0, transfers, locked), pipe, p) == Ending(Captured, e) <==>
            exists n: nat, written: bool :: n > 0 && CaptureSpelled(body, locked, pipe, p, e, n, written)
  {
    hide Run, Handle, Spells, Follows, Exposures, Unlocks, Body.EndsWithWrite;
    var s, ends := State(0, transfers, locked), body.EndsWithWrite();
    if Run(body, s, pipe, p) == Ending(Captured, e) {
      var w := RunSpells(body, s, pipe, p);
      var n, written := StartOfWord(w, ends);
      TailReported(n, written, ends);
      assert n > 0 && CaptureSpelled(body, locked, pipe, p, e, n, written);
    }
    forall n: nat, written: bool | n > 0 && CaptureSpelled(body, locked, pipe, p, e, n, written)
      ensures Run(body, s, pipe, p) == Ending(Captured, e)
    {
      FollowsExposures(n, written, ends);
      TailReported(n, written, ends);
      SpelledRuns(body, s, pipe, p, e, Exposures(n) + Tail(written, ends));
    }
  }

  /** Do the packets up to `e` spell `n` exposures and an end, with the picture written or keys that can be unlocked? */
  predicate CaptureSpelled(body: Body, locked: bool, pipe: seq<Interrupt>, p: nat, e: nat, n: nat, written: bool) {
    Spells(pipe, p, e, Exposures(n) + Tail(written, body.EndsWithWrite())) &&
    (written || Unlocks(body, locked, pipe[e].answered))
  }

  lemma StartOfWord(w: seq<Letter>, ends: bool) returns (n: nat, written: bool)
    requires Follows(0, w, ends)
    ensures n > 0 && w == Exposures(n) + Tail(written, ends)
  {
    n, written := FollowsOnlyExposures(w[1..][1..], ends);
    n := n + 1;
    assert w == [First, Second] + w[1..][1..];
  }

  lemma {:induction false} TailReported(n: nat, written: bool, ends: bool)
    ensures Written in Exposures(n) + Tail(written, ends) <==> written
  {
    NoneWritten(n);
  }

  lemma {:induction false} NoneWritten(n: nat)
    ensures Written !in Exposures(n)
  {
    if n > 0 {
      NoneWritten(n - 1);
    }
  }

  /** For a body of another class, not the EOS 300D, a capture succeeds exactly with two reports. */
  lemma {:induction false} PowerShotCapturedExactly(body: Body, s: State, pipe: seq<Interrupt>, p: nat, e: nat)
    requires body.model == OtherClass && !body.EndsEarly() && s.step <= 1
    ensures Run(body, s, pipe, p) == Ending(Captured, e) <==>
            p <= e < |pipe| && LetterOf(pipe[e]) == Some(Second) &&
            Word(pipe, p, e + 1) == Some(if s.step == 0 then [First, Second] else [Second])
    decreases |pipe| - p
  {
    if p < |pipe| {
      match Handle(body, s, pipe[p]) {
        case GoOn(t) =>
          PowerShotCapturedExactly(body, t, pipe, p + 1, e);
          var rest := Word(pipe, p + 1, e + 1);
          if p < e && rest.Some? && !Harmless(pipe[p]) {
            assert [First] + rest.value == [First, Second] <==> rest.value == [Second] by {
              assert ([First] + rest.value)[1..] == rest.value && [First, Second][1..] == [Second];
            }
          }
        case End(_, _) =>
          if p < e < |pipe| && LetterOf(pipe[e]) == Some(Second) && Word(pipe, p + 1, e + 1).Some? {
            SecondNotEmpty(pipe, p + 1, e);
          }
          var rest := Word(pipe, p + 1, e + 1);
          if rest.Some? && LetterOf(pipe[p]).Some? {
            var letter := LetterOf(pipe[p]).value;
            assert ([letter] + rest.value)[0] == letter && [Second] + [] == [Second];
          }
      }
    }
  }

  lemma {:induction false} SecondNotEmpty(pipe: seq<Interrupt>, p: nat, e: nat)
    requires p <= e < |pipe| && Word(pipe, p, e + 1).Some? && LetterOf(pipe[e]) == Some(Second)
    ensures Word(pipe, p, e + 1).value != []
    decreases e - p
  {
    if p < e {
      SecondNotEmpty(pipe, p + 1, e);
    }
  }

  // ----- What has been reported -----

  /** Is packet `i` the last one with such a code, from `p` to `q`? */
  predicate LastWith(pipe: seq<Interrupt>, p: nat, q: nat, codes: set<nat>, i: nat) {
    && p <= i < q <= |pipe| && pipe[i].Interrupt? && pipe[i].code in codes
    && forall j :: i < j < q ==> pipe[j].Interrupt? ==> pipe[j].code !in codes
  }

  /** The sizes and keys that count are those of the last packets with such codes. */
  lemma {:induction false} LastReported(sizes: Sizes, pipe: seq<Interrupt>, p: nat, q: nat, i: nat)
    requires p <= q
    ensures var now := ReportedUpTo(sizes, pipe, p, q);
            && (LastWith(pipe, p, q, {0x08}, i) ==> now.thumbLength == pipe[i].length)
            && (LastWith(pipe, p, q, {0x0c}, i) ==> now.imageLength == pipe[i].length)
            && (LastWith(pipe, p, q, {0x08, 0x0c}, i) ==> now.imageKey == pipe[i].key)
            && (LastWith(pipe, p, q, {0x10}, i) ==>
                  now.secondaryLength == pipe[i].length && now.secondaryKey == pipe[i].key)
    decreases q
  {
    if p <= i && i + 1 < q {
      LastReported(sizes, pipe, p, q - 1, i);
    }
  }
}
