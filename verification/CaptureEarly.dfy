/** Captures of class 6 bodies and of the EOS 300D, which may end as soon as everything has been transferred. */
module CaptureEarly {
  import opened CaptureInterrupts
  import opened Wrappers

  /** The codes that packets carry. */
  lemma CodesInNumbers(e: Interrupt)
    requires e.Interrupt?
    ensures LetterOf(e) == Some(First) <==> e.code == 0x0a && e.subcode == 0x1c
    ensures LetterOf(e) == Some(Second) <==> e.code == 0x0a && e.subcode == 0x1d
    ensures LetterOf(e) == Some(Written) <==> e.code == 0x0e
    ensures LetterOf(e) == Some(Finished) <==> e.code == 0x0f
    ensures Harmless(e) <==> e.code in {0x08, 0x0c, 0x10} || (e.code == 0x0a && e.subcode !in {0x0a, 0x1c, 0x1d})
  {
  }

  /** Class 6 bodies and the EOS 300D may end early; with the report of writing ends the EOS 10D, too. */
  lemma BodiesInNumbers(body: Body)
    ensures body.EndsEarly() <==> body.model == Class6 || body.product == 0x3084
    ensures body.EndsWithWrite() <==> body.model == Class6 || body.product in {0x3083, 0x3084}
  {
  }

  predicate IsThumb(e: Interrupt) {
    e.Interrupt? && e.code == 0x08
  }

  predicate IsImage(e: Interrupt) {
    e.Interrupt? && (e.code == 0x0c || e.code == 0x10)
  }

  /** The transfers to the computer have all been reported by the packets from `p` to `e`, and there are none to the
      card. */
  predicate AllReported(t: Transfers, pipe: seq<Interrupt>, p: nat, e: nat)
    requires e < |pipe|
  {
    && !t.thumbToDrive && !t.fullToDrive
    && (t.thumbToPc ==> exists i :: p <= i <= e && IsThumb(pipe[i]))
    && (t.fullToPc ==> exists i :: p <= i <= e && IsImage(pipe[i]))
  }

  /** Packet `e` is a size with which the capture is over; if there is a second picture, the size of the first does not
      end it. */
  predicate OverWith(body: Body, t: Transfers, pipe: seq<Interrupt>, p: nat, e: nat)
    requires e < |pipe|
  {
    && (IsThumb(pipe[e]) || IsImage(pipe[e])) && AllReported(t, pipe, p, e)
    && !(body.secondaryImage && pipe[e].code == 0x0c)
  }

  predicate NotOver(body: Body, t: Transfers, pipe: seq<Interrupt>, p: nat, e: nat)
    requires e <= |pipe|
  {
    forall i :: p <= i < e ==> !OverWith(body, t, pipe, p, i)
  }

  /** Reports of exposures, in turn, from a step on; other than class 4 bodies end with the second one. */
  predicate InTurn(body: Body, step: nat, w: seq<Letter>) {
    && (forall i :: 0 <= i < |w| ==> w[i] == if (step + i) % 2 == 0 then First else Second)
    && (body.model == Class4 || step + |w| <= 1)
  }

  /** Whole exposures, at least one. */
  predicate Exposed(n: nat) {
    n >= 2 && n % 2 == 0
  }

  /** Does packet `e` end a capture well, after `n` reports? */
  predicate EndsWell(body: Body, s: State, pipe: seq<Interrupt>, p: nat, e: nat, n: nat)
    requires e < |pipe|
  {
    || OverWith(body, s.transfers, pipe, p, e)
    || (LetterOf(pipe[e]) == Some(Written) && (body.model == Class6 || Exposed(n)))
    || (LetterOf(pipe[e]) == Some(Second) && body.model != Class4 && n == 1)
    || (LetterOf(pipe[e]) == Some(Finished) && Exposed(n) && Unlocks(body, s.keysLocked, pipe[e].answered))
  }

  /** How a capture from a step on succeeds with packet `e`: it is not over before, and the reports come in turn. */
  predicate Succeeds(body: Body, s: State, pipe: seq<Interrupt>, p: nat, e: nat) {
    && p <= e < |pipe|
    && NotOver(body, s.transfers, pipe, p, e)
    && Word(pipe, p, e).Some? && InTurn(body, s.step, Word(pipe, p, e).value)
    && EndsWell(body, s, pipe, p, e, s.step + |Word(pipe, p, e).value|)
  }

  predicate Possible(body: Body, s: State) {
    s.step <= 2 && (s.step <= 1 || body.model == Class4)
  }

  /** What has not been reported after a packet. */
  function Unreported(t: Transfers, e: Interrupt): Transfers {
    t.(thumbToPc := t.thumbToPc && !IsThumb(e), fullToPc := t.fullToPc && !IsImage(e))
  }

  lemma OverLater(body: Body, t: Transfers, pipe: seq<Interrupt>, p: nat, e: nat)
    requires p < e < |pipe|
    ensures OverWith(body, t, pipe, p, e) == OverWith(body, Unreported(t, pipe[p]), pipe, p + 1, e)
  {
    if exists i :: p <= i <= e && IsThumb(pipe[i]) {
      var i :| p <= i <= e && IsThumb(pipe[i]);
      assert IsThumb(pipe[p]) || p + 1 <= i;
    }
    if exists i :: p <= i <= e && IsImage(pipe[i]) {
      var i :| p <= i <= e && IsImage(pipe[i]);
      assert IsImage(pipe[p]) || p + 1 <= i;
    }
  }

  lemma OverAtOnce(body: Body, t: Transfers, pipe: seq<Interrupt>, p: nat)
    requires p < |pipe|
    ensures OverWith(body, t, pipe, p, p) <==>
            (IsThumb(pipe[p]) || IsImage(pipe[p])) && Unreported(t, pipe[p]).Done() &&
            !(body.secondaryImage && pipe[p].code == 0x0c)
  {
    if OverWith(body, t, pipe, p, p) {
      assert t.thumbToPc ==> IsThumb(pipe[p]);
      assert t.fullToPc ==> IsImage(pipe[p]);
    }
  }

  /** A packet ends a capture well, or goes on with it, or neither. */
  lemma FirstPacket(body: Body, s: State, pipe: seq<Interrupt>, p: nat)
    requires body.EndsEarly() && Possible(body, s) && p < |pipe|
    ensures match Handle(body, s, pipe[p])
            case End(result, _) => result == Captured <==> EndsWell(body, s, pipe, p, p, s.step)
            case GoOn(t) => !EndsWell(body, s, pipe, p, p, s.step)
  {
    hide OverWith, Unlocks, LockedAfter, Unreported;
    OverAtOnce(body, s.transfers, pipe, p);
    TransfersAfter(s.transfers, pipe[p]);
  }

  lemma TransfersAfter(t: Transfers, e: Interrupt)
    ensures IsThumb(e) ==> Unreported(t, e) == t.(thumbToPc := false)
    ensures IsImage(e) ==> Unreported(t, e) == t.(fullToPc := false)
    ensures !IsThumb(e) && !IsImage(e) ==> Unreported(t, e) == t
  {
  }

  /** Where a capture goes on, the packet is harmless or reports the next exposure. */
  lemma GoesOn(body: Body, s: State, e: Interrupt)
    requires body.EndsEarly() && Possible(body, s) && Handle(body, s, e).GoOn?
    ensures var t := Handle(body, s, e).state;
            && Possible(body, t) && t.transfers == Unreported(s.transfers, e) && t.keysLocked == s.keysLocked
            && (if Harmless(e) then t.step == s.step
                else LetterOf(e) == Some(if s.step % 2 == 0 then First else Second) &&
                     t.step == if s.step == 1 then 2 else 1)
  {
    TransfersAfter(s.transfers, e);
  }

  lemma EndsWith(body: Body, s: State, e: Interrupt)
    requires body.EndsEarly() && Possible(body, s) && Handle(body, s, e).End?
    ensures !Harmless(e) || IsThumb(e) || IsImage(e)
    ensures LetterOf(e).Some? ==>
              LetterOf(e).value != (if s.step % 2 == 0 then First else Second) || (body.model != Class4 && s.step == 1)
  {
  }

  /** For a class 6 body or the EOS 300D, a capture succeeds with packet `e` exactly if that is the first size with
      which everything has been transferred, or if it ends the reports: for class 6, it is the report of writing, or the
      second one of an exposure. */
  lemma {:induction false} EarlyCapturedExactly(body: Body, s: State, pipe: seq<Interrupt>, p: nat, e: nat)
    requires body.EndsEarly() && Possible(body, s)
    ensures Run(body, s, pipe, p) == Ending(Captured, e) <==> Succeeds(body, s, pipe, p, e)
    decreases |pipe| - p
  {
    hide Handle, OverWith, Unlocks, LockedAfter, EndsWell;
    if p < |pipe| {
      FirstPacket(body, s, pipe, p);
      match Handle(body, s, pipe[p]) {
        case GoOn(t) =>
          GoesOn(body, s, pipe[p]);
          EarlyCapturedExactly(body, t, pipe, p + 1, e);
          OneOn(body, s, t, pipe, p, e);
        case End(_, _) =>
          EndsWith(body, s, pipe[p]);
          NoneOn(body, s, pipe, p, e);
      }
    }
  }

  lemma InTurnFromNext(body: Body, step: nat, letter: Letter, rest: seq<Letter>)
    requires step <= 2 && (step <= 1 || body.model == Class4)
    ensures InTurn(body, step, [letter] + rest) <==>
            letter == (if step % 2 == 0 then First else Second) && (body.model != Class4 ==> step == 0) &&
            InTurn(body, if step == 1 then 2 else 1, rest)
  {
    var w, after := [letter] + rest, if step == 1 then 2 else 1;
    if InTurn(body, step, w) {
      assert w[0] == letter;
      forall i | 0 <= i < |rest| ensures rest[i] == if (after + i) % 2 == 0 then First else Second {
        assert rest[i] == w[i + 1];
      }
    }
  }

  lemma OverFromNext(body: Body, s: State, t: State, pipe: seq<Interrupt>, p: nat, e: nat)
    requires body.EndsEarly() && Possible(body, s) && p < |pipe| && Handle(body, s, pipe[p]) == GoOn(t) &&
             p < e < |pipe|
    ensures NotOver(body, s.transfers, pipe, p, e) == NotOver(body, t.transfers, pipe, p + 1, e)
    ensures OverWith(body, s.transfers, pipe, p, e) == OverWith(body, t.transfers, pipe, p + 1, e)
  {
    hide OverWith, Handle;
    var next := p + 1;
    GoesOn(body, s, pipe[p]);
    FirstPacket(body, s, pipe, p);
    OverLater(body, s.transfers, pipe, p, e);
    assert !OverWith(body, s.transfers, pipe, p, p);
    forall i | p < i < e
      ensures OverWith(body, s.transfers, pipe, p, i) == OverWith(body, t.transfers, pipe, next, i)
    {
      OverLater(body, s.transfers, pipe, p, i);
    }
    if NotOver(body, s.transfers, pipe, p, e) {
      forall i | next <= i < e ensures !OverWith(body, t.transfers, pipe, next, i) {
        assert !OverWith(body, s.transfers, pipe, p, i);
      }
    }
  }

  lemma EndsFromNext(body: Body, s: State, t: State, pipe: seq<Interrupt>, p: nat, e: nat, n: nat, m: nat)
    requires p < e < |pipe| && t.keysLocked == s.keysLocked && Possible(body, s)
    requires OverWith(body, s.transfers, pipe, p, e) == OverWith(body, t.transfers, pipe, p + 1, e)
    requires n == m || (body.model == Class4 && n == m + 2 && m > 0)
    ensures EndsWell(body, s, pipe, p, e, n) == EndsWell(body, t, pipe, p + 1, e, m)
  {
    hide OverWith, Unlocks;
  }

  lemma OneOn(body: Body, s: State, t: State, pipe: seq<Interrupt>, p: nat, e: nat)
    requires body.EndsEarly() && Possible(body, s) && p < |pipe| && Handle(body, s, pipe[p]) == GoOn(t)
    ensures p < e ==> (Succeeds(body, s, pipe, p, e) <==> Succeeds(body, t, pipe, p + 1, e))
    ensures !Succeeds(body, s, pipe, p, p) && !Succeeds(body, t, pipe, p + 1, p)
  {
    hide NotOver, OverWith, EndsWell, Handle, InTurn, Harmless, LetterOf;
    FirstPacket(body, s, pipe, p);
    GoesOn(body, s, pipe[p]);
    if p < e < |pipe| && Word(pipe, p + 1, e).Some? {
      var rest := Word(pipe, p + 1, e).value;
      OverFromNext(body, s, t, pipe, p, e);
      if Harmless(pipe[p]) {
        EndsFromNext(body, s, t, pipe, p, e, s.step + |rest|, t.step + |rest|);
      } else {
        var letter := LetterOf(pipe[p]).value;
        InTurnFromNext(body, s.step, letter, rest);
        SecondStops(body, s, pipe[p]);
        EndsFromNext(body, s, t, pipe, p, e, s.step + 1 + |rest|, t.step + |rest|);
      }
    }
  }

  /** Other than class 4 bodies do not go on with the second report. */
  lemma SecondStops(body: Body, s: State, e: Interrupt)
    requires body.EndsEarly() && Possible(body, s) && Handle(body, s, e).GoOn? && !Harmless(e)
    ensures body.model != Class4 ==> s.step == 0
  {
  }

  lemma NoneOn(body: Body, s: State, pipe: seq<Interrupt>, p: nat, e: nat)
    requires body.EndsEarly() && Possible(body, s) && p < |pipe| && Handle(body, s, pipe[p]).End?
    ensures p < e ==> !Succeeds(body, s, pipe, p, e)
    ensures Succeeds(body, s, pipe, p, p) <==> EndsWell(body, s, pipe, p, p, s.step)
  {
    hide OverWith, EndsWell, InTurn, Harmless, LetterOf;
    FirstPacket(body, s, pipe, p);
    EndsWith(body, s, pipe[p]);
    assert InTurn(body, s.step, []) by {
      NoLetters(body, s);
    }
    if p < e < |pipe| && Harmless(pipe[p]) {
      SizeEnds(body, s, pipe, p);
    } else if p < e < |pipe| && Word(pipe, p, e).Some? {
      InTurnFromNext(body, s.step, LetterOf(pipe[p]).value, Word(pipe, p + 1, e).value);
    }
  }

  lemma NoLetters(body: Body, s: State)
    requires Possible(body, s)
    ensures InTurn(body, s.step, [])
  {
  }

  lemma SizeEnds(body: Body, s: State, pipe: seq<Interrupt>, p: nat)
    requires body.EndsEarly() && Possible(body, s) && p < |pipe|
    requires Harmless(pipe[p]) && Handle(body, s, pipe[p]).End?
    ensures OverWith(body, s.transfers, pipe, p, p)
  {
    hide OverWith, Unreported;
    OverAtOnce(body, s.transfers, pipe, p);
    TransfersAfter(s.transfers, pipe[p]);
  }

  /** Both sizes end the capture of a class 6 body that transfers to the computer only, in either order. */
  lemma BothSizes(body: Body, locked: bool, thumb: Interrupt, image: Interrupt)
    requires body.model == Class6 && !body.secondaryImage && IsThumb(thumb) && IsImage(image)
    ensures Run(body, State(0, Transfers(true, true, false, false), locked), [thumb, image], 0) == Ending(Captured, 1)
    ensures Run(body, State(0, Transfers(true, true, false, false), locked), [image, thumb], 0) == Ending(Captured, 1)
  {
  }
}
