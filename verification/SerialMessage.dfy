/** Messages of the Canon serial line, put together from packets, with recovery from errors. */
module SerialMessage {
  import opened SerialFrame
  import opened SerialPacket
  import opened Wrappers

  const MSG_HDR_LEN: nat := 16
  const MSG_02: nat := 0
  const MSG_MTYPE: nat := 4
  const MSG_DIR: nat := 7
  const MSG_LEN_LSB: nat := 8
  const MSG_LEN_MSB: nat := 9

  const FIRST_ALLOCATION: nat := 1024

  datatype ReceiveError = NoError | ErrorReceived | ErrorAddressed | FatalError | ErrorLowBatt

  /** What a call is looking for. */
  datatype Wanted = Wanted(mtype: bv8, dir: bv8)

  predicate IsMsg(x: Incoming) {
    x.Received? && x.kind == MSG
  }

  predicate IsEot(x: Incoming) {
    x.Received? && x.kind == EOT
  }

  function GoodHeader(w: Wanted, data: Bytes): (good: bool)
    ensures good ==> |data| >= MSG_HDR_LEN
  {
    |data| >= MSG_HDR_LEN && data[MSG_02] == 2 && data[MSG_MTYPE] == w.mtype && data[MSG_DIR] == w.dir
  }

  function DeclaredLength(data: Bytes): nat
    requires |data| >= MSG_HDR_LEN
  {
    Length(data[MSG_LEN_LSB], data[MSG_LEN_MSB])
  }

  lemma HeaderInNumbers(w: Wanted, data: Bytes)
    ensures GoodHeader(w, data) <==> |data| >= 16 && data[0] == 2 && data[4] == w.mtype && data[7] == w.dir
    ensures |data| >= 16 ==> DeclaredLength(data) == data[8] as nat + 256 * data[9] as nat
  {
  }

  // ----- The outcome of a call, state by state -----

  /** `end` is the packet that ends the message, `seqNo` its number. */
  datatype Outcome = Failed | Empty(end: nat, seqNo: bv8) | Complete(message: Bytes, end: nat, seqNo: bv8)

  /** No error: fragments are collected. */
  function Collect(x: seq<Incoming>, p: nat, got: Bytes, length: nat, seqNo: bv8): Outcome
    decreases |x| - p
  {
    if p >= |x| then Failed
    else if IsMsg(x[p]) && |got| + |x[p].data| <= length then Collect(x, p + 1, got + x[p].data, length, seqNo)
    else if IsEot(x[p]) && x[p].seqNo == seqNo then Complete(got, p, seqNo)
    else Failed
  }

  /** The first packet of a message. */
  function Begin(x: seq<Incoming>, h: nat, w: Wanted, seqNo: bv8): Outcome
    requires h < |x| && IsMsg(x[h])
  {
    var data := x[h].data;
    if GoodHeader(w, data) && |data| - MSG_HDR_LEN <= DeclaredLength(data)
    then Collect(x, h + 1, data[MSG_HDR_LEN..], DeclaredLength(data), seqNo)
    else Failed
  }

  /** The camera knows of an error: it will start the message again. */
  function Restart(x: seq<Incoming>, p: nat, w: Wanted, seqNo: bv8): Outcome
    decreases |x| - p
  {
    if p >= |x| || x[p].Nothing? then Failed
    else if IsMsg(x[p]) then Begin(x, p, w, seqNo)
    else if IsEot(x[p]) then if x[p].seqNo == seqNo then Empty(p, seqNo) else Failed
    else Restart(x, p + 1, w, seqNo)
  }

  /** An error the camera does not know of yet: everything up to its EOT is lost. */
  function AwaitEot(x: seq<Incoming>, p: nat, w: Wanted): Outcome
    decreases |x| - p
  {
    if p >= |x| || x[p].Nothing? then Failed
    else if IsEot(x[p]) then Restart(x, p + 1, w, x[p].seqNo)
    else AwaitEot(x, p + 1, w)
  }

  /** The first message packet. */
  function FirstMsg(x: seq<Incoming>, p: nat): (r: Option<nat>)
    ensures r.Some? ==> p <= r.value < |x| && IsMsg(x[r.value])
    decreases |x| - p
  {
    if p >= |x| || x[p].Nothing? then None else if IsMsg(x[p]) then Some(p) else FirstMsg(x, p + 1)
  }

  function Call(x: seq<Incoming>, p: nat, w: Wanted, state: ReceiveError, seqNo: bv8): Outcome {
    match FirstMsg(x, p)
    case None => Failed
    case Some(h) =>
      match state
      case NoError => Begin(x, h, w, seqNo)
      case ErrorReceived => AwaitEot(x, h + 1, w)
      case ErrorAddressed => Restart(x, h + 1, w, seqNo)
      case _ => Failed
  }

  /** What is still to come, in a state; without error, `got` has been collected. */
  function Pending(x: seq<Incoming>, p: nat, w: Wanted, state: ReceiveError, seqNo: bv8, got: Bytes,
                   length: nat): Outcome {
    match state
    case NoError => if |got| <= length then Collect(x, p, got, length, seqNo) else Failed
    case ErrorReceived => AwaitEot(x, p, w)
    case ErrorAddressed => Restart(x, p, w, seqNo)
    case _ => Failed
  }

  lemma PendingUnfolds(x: seq<Incoming>, p: nat, w: Wanted, state: ReceiveError, seqNo: bv8, got: Bytes, length: nat)
    requires state == NoError ==> |got| <= length
    ensures var r := Pending(x, p, w, state, seqNo, got, length);
            if p >= |x| || x[p].Nothing? then r == Failed
            else if x[p].kind == EOT then
              r == match state
                   case NoError => if x[p].seqNo == seqNo then Complete(got, p, seqNo) else Failed
                   case ErrorReceived => Pending(x, p + 1, w, ErrorAddressed, x[p].seqNo, got, length)
                   case ErrorAddressed => if x[p].seqNo == seqNo then Empty(p, seqNo) else Failed
                   case _ => Failed
            else if x[p].kind == MSG && state == NoError then
              r == Pending(x, p + 1, w, state, seqNo, got + x[p].data, length)
            else if x[p].kind == MSG && state == ErrorAddressed then
              if GoodHeader(w, x[p].data)
              then r == Pending(x, p + 1, w, NoError, seqNo, x[p].data[MSG_HDR_LEN..], DeclaredLength(x[p].data))
              else r == Failed
            else r == if state == NoError then Failed else Pending(x, p + 1, w, state, seqNo, got, length)
  {
    hide DeclaredLength;
  }

  lemma PendingOverrun(x: seq<Incoming>, p: nat, w: Wanted, seqNo: bv8, got: Bytes, length: nat)
    requires |got| > length
    ensures Pending(x, p, w, NoError, seqNo, got, length) == Failed
  {
  }

  lemma PendingIgnoresGot(x: seq<Incoming>, p: nat, w: Wanted, state: ReceiveError, seqNo: bv8, got: Bytes)
    ensures state != NoError ==>
      forall length :: Pending(x, p, w, state, seqNo, got, length) == Pending(x, p, w, state, seqNo, [], length)
  {
  }

  /** The answers to the old EOTs from `p` to `q`. */
  function Answers(x: seq<Incoming>, p: nat, q: nat): seq<(bv8, bv8)> {
    if q <= p || q > |x| then []
    else Answers(x, p, q - 1) + if IsEot(x[q - 1]) then [(ACK, x[q - 1].seqNo)] else []
  }

  /** A refusal, if there was an error. */
  function Refusal(state: ReceiveError, seqNo: bv8): seq<(bv8, bv8)> {
    if state == ErrorReceived then [(NACK, seqNo)] else []
  }

  lemma NoRefusal(state: ReceiveError, seqNo: bv8)
    ensures state != ErrorReceived ==> Refusal(state, seqNo) == []
  {
  }

  class Receiver {
    const incoming: seq<Incoming>
    var next: nat
    var receiveError: ReceiveError
    var seqRx: bv8
    var msg: array?<bv8>
    var msgSize: nat
    // the kinds and numbers of the packets that were sent
    var sent: seq<(bv8, bv8)>

    constructor (incoming: seq<Incoming>)
      ensures Valid() && this.incoming == incoming && next == 0 && receiveError == NoError && msg == null && sent == []
      ensures seqRx == 0
    {
      this.incoming, next, receiveError, seqRx, msg, msgSize, sent :=
        incoming, 0, NoError, 0, null, FIRST_ALLOCATION / 2, [];
    }

    /** The capacity is known, and one doubling of it is enough for another fragment of 1024 bytes. */
    predicate Valid()
      reads this`msg, this`msgSize
    {
      if msg == null then msgSize == FIRST_ALLOCATION / 2 else msg.Length == msgSize >= FIRST_ALLOCATION
    }

    method GetPacket() returns (x: Incoming)
      modifies this`next, this`receiveError
      ensures next == old(next) + 1
      ensures x == if old(next) < |incoming| then incoming[old(next)] else Nothing(false)
      ensures x.Received? ==> receiveError == old(receiveError)
    {
      x := if next < |incoming| then incoming[next] else Nothing(false);
      next := next + 1;
      if x.Nothing? && x.badLength {
        receiveError := ErrorReceived;
      }
    }

    method Send(kind: bv8, seqNo: bv8)
      modifies this`sent
      ensures sent == old(sent) + [(kind, seqNo)]
    {
      sent := sent + [(kind, seqNo)];
    }

    /** Is this the header of the wanted message? The camera can report here that it switches off. */
    method CheckHeader(w: Wanted, data: Bytes) returns (ok: bool)
      modifies this`receiveError
      ensures ok == GoodHeader(w, data)
      ensures receiveError == old(receiveError) || (!ok && receiveError == ErrorLowBatt)
    {
      if |data| < MSG_HDR_LEN || data[MSG_02] != 2 {
        return false;
      }
      if data[MSG_MTYPE] != w.mtype || data[MSG_DIR] != w.dir {
        if data[MSG_MTYPE] == 1 && data[MSG_DIR] == 0 && data[12..16] != [0x30, 0x00, 0x00, 0x30] {
          receiveError := ErrorLowBatt;
        }
        return false;
      }
      return true;
    }

    /** Appends a fragment to the first `at` bytes of the buffer, which may have to grow. */
    method Append(at: nat, frag: Bytes)
      requires Valid() && |frag| <= FIRST_ALLOCATION && at <= if msg == null then 0 else msg.Length
      modifies this`msg, this`msgSize, msg
      ensures Valid() && msg != null && at + |frag| <= msg.Length
      ensures msg[..at + |frag|] == old(if msg == null then [] else msg[..at]) + frag
      ensures msg == old(msg) || fresh(msg)
    {
      ghost var front := if msg == null then [] else msg[..at];
      if at + |frag| > msgSize || msg == null {
        msgSize := msgSize * 2;
        var bigger := new bv8[msgSize];
        if msg != null {
          forall i | 0 <= i < at {
            bigger[i] := msg[i];
          }
        }
        msg := bigger;
        assert msg[..at] == front;
      }
      forall i | 0 <= i < |frag| {
        msg[at + i] := frag[i];
      }
      assert msg[..at + |frag|] == front + frag;
    }

    /** Skips everything in front of the first message packet; an old EOT is answered. */
    method AwaitMsg() returns (x: Incoming)
      modifies this`next, this`receiveError, this`sent
      ensures next > old(next)
      ensures x.Received? ==> receiveError == old(receiveError) && FirstMsg(incoming, old(next)) == Some(next - 1)
      ensures x.Received? ==> next <= |incoming| && x == incoming[next - 1]
      ensures x.Received? ==> sent == old(sent) + Answers(incoming, old(next), next - 1)
      ensures x.Nothing? ==> FirstMsg(incoming, old(next)) == None
    {
      x := GetPacket();
      while x.Received? && x.kind != MSG
        invariant next > old(next)
        invariant x == if next - 1 < |incoming| then incoming[next - 1] else Nothing(false)
        invariant x.Received? ==> receiveError == old(receiveError)
        invariant FirstMsg(incoming, next - 1) == FirstMsg(incoming, old(next))
        invariant sent == old(sent) + Answers(incoming, old(next), next - 1)
        decreases |incoming| - next
      {
        if x.kind == EOT {
          Send(ACK, x.seqNo);
        }
        assert sent == old(sent) + Answers(incoming, old(next), next);
        x := GetPacket();
      }
    }

    /** Behind an error, an EOT is refused, and the message will come again; otherwise it ends the message. */
    method OnEot(seqNo: bv8) returns (ends: bool, ok: bool)
      modifies this`seqRx, this`sent, this`receiveError
      ensures ends == (old(receiveError) != ErrorReceived)
      ensures ends ==>
        ok == (seqNo == seqRx) && receiveError == old(receiveError) && seqRx == old(seqRx) && sent == old(sent)
      ensures !ends ==>
        seqRx == seqNo && receiveError == ErrorAddressed && sent == old(sent) + Refusal(ErrorReceived, seqNo)
    {
      if receiveError == ErrorReceived {
        seqRx := seqNo;
        Send(NACK, seqRx);
        receiveError := ErrorAddressed;
        return false, true;
      }
      return true, seqNo == seqRx;
    }

    /** Behind an error that the camera knows of, a message packet is the first of a message; otherwise it is a
        fragment. */
    method OnMsg(w: Wanted, data: Bytes) returns (ok: bool, restarts: bool, frag: Bytes)
      modifies this`receiveError
      ensures restarts == (old(receiveError) == ErrorAddressed) && |frag| <= |data|
      ensures !ok ==> receiveError in {ErrorAddressed, ErrorLowBatt}
      ensures !restarts ==> ok && frag == data && receiveError == old(receiveError)
      ensures restarts ==> ok == GoodHeader(w, data) && (ok ==> receiveError == NoError && frag == data[MSG_HDR_LEN..])
    {
      if receiveError != ErrorAddressed {
        return true, false, data;
      }
      ok := CheckHeader(w, data);
      restarts, frag := true, data;
      if ok {
        frag := frag[MSG_HDR_LEN..];
        receiveError := NoError;
      }
    }

    /** What a packet does: it ends the call, starts the message again, or brings a fragment of it. */
    method Take(w: Wanted, x: Incoming, ghost p: nat, ghost got: Bytes, ghost length: nat)
        returns (more: bool, ok: bool, restarts: bool, frag: Bytes)
      requires x.Received? && p < |incoming| && incoming[p] == x && (receiveError == NoError ==> |got| <= length)
      modifies this`seqRx, this`sent, this`receiveError
      ensures frag == [] || (IsMsg(x) && |frag| <= |x.data|)
      ensures restarts ==>
        more && IsMsg(x) && GoodHeader(w, x.data) && old(receiveError) == ErrorAddressed && receiveError == NoError
      ensures more && !restarts ==> (old(receiveError) == NoError <==> receiveError == NoError)
      ensures old(receiveError) != ErrorReceived ==> receiveError != ErrorReceived && seqRx == old(seqRx)
      ensures sent == old(sent) +
                if old(receiveError) == ErrorReceived && receiveError != ErrorReceived
                  then Refusal(ErrorReceived, seqRx) else []
      ensures var r := Pending(incoming, p, w, old(receiveError), old(seqRx), got, length);
              if more then
                r == Pending(incoming, p + 1, w, receiveError, seqRx,
                             if restarts then frag else if receiveError == NoError then got + frag else got,
                             if restarts then DeclaredLength(x.data) else length)
              else if !ok then r == Failed
              else
                && receiveError == old(receiveError) && seqRx == old(seqRx)
                && r == match receiveError
                        case NoError => Complete(got, p, seqRx)
                        case ErrorAddressed => Empty(p, seqRx)
                        case _ => Failed
    {
      hide Pending, GoodHeader, DeclaredLength, Refusal;
      PendingUnfolds(incoming, p, w, receiveError, seqRx, got, length);
      NoRefusal(receiveError, seqRx);
      more, ok, restarts, frag := true, true, false, [];
      if x.kind == EOT {
        var ends;
        ends, ok := OnEot(x.seqNo);
        if ends {
          more := false;
          return;
        }
      }
      if x.kind != MSG && receiveError == NoError {
        more, ok := false, false;
        return;
      }
      if x.kind == MSG {
        ok, restarts, frag := OnMsg(w, x.data);
        more := ok;
        restarts := restarts && ok;
      }
    }

    /** The second part of a call: collects fragments, and starts again after errors. */
    method Assemble(w: Wanted, first: Bytes, declared: nat) returns (ok: bool, msgPos: nat, ghost end: Outcome)
      requires Valid() && |first| <= FIRST_ALLOCATION
      requires forall i :: 0 <= i < |incoming| && IsMsg(incoming[i]) ==> |incoming[i].data| <= FIRST_ALLOCATION
      modifies this, msg
      ensures Valid() && (msg == old(msg) || fresh(msg))
      ensures end == Pending(incoming, old(next), w, old(receiveError), old(seqRx), first, declared)
      ensures ok ==> next > 0 && msgPos <= if msg == null then 0 else msg.Length
      ensures end != Failed ==> sent == old(sent) + Refusal(old(receiveError), seqRx)
      ensures match end
              case Failed => !ok || receiveError !in {NoError, ErrorAddressed}
              case Empty(e, s) =>
                ok && msg == old(msg) && msgPos == 0 && next == e + 1 && seqRx == s && receiveError == ErrorAddressed
              case Complete(m, e, s) =>
                ok && msg != null && msg[..msgPos] == m && next == e + 1 && seqRx == s && receiveError == NoError
    {
      hide Pending, GoodHeader, DeclaredLength, Refusal, Answers, FirstMsg, Call;
      NoRefusal(receiveError, seqRx);
      var frag, length := first, declared;
      assert [] + first == first;
      PendingIgnoresGot(incoming, next, w, receiveError, seqRx, first);
      msgPos := 0;
      ghost var got := [];
      end := Pending(incoming, next, w, receiveError, seqRx, first, declared);
      while true
        invariant Valid() && |frag| <= FIRST_ALLOCATION
        invariant msg == old(msg) || fresh(msg)
        invariant msgPos <= if msg == null then 0 else msg.Length
        invariant got == if msg == null then [] else msg[..msgPos]
        invariant receiveError != NoError ==> msg == old(msg) && msgPos == 0 && got == []
        invariant old(receiveError) != ErrorReceived ==> receiveError != ErrorReceived
        invariant sent == old(sent) + if receiveError == ErrorReceived then [] else Refusal(old(receiveError), seqRx)
        invariant end ==
                    Pending(incoming, next, w, receiveError, seqRx, if receiveError == NoError then got + frag else [],
                            length)
        decreases |incoming| - next
      {
        if receiveError == NoError {
          if msgPos + |frag| > length {
            PendingOverrun(incoming, next, w, seqRx, got + frag, length);
            ok := false;
            return;
          }
          Append(msgPos, frag);
          msgPos := msgPos + |frag|;
          got := got + frag;
        }
        ghost var p := next;
        PendingUnfolds(incoming, p, w, receiveError, seqRx, got, length);
        var x := GetPacket();
        if x.Nothing? {
          ok := false;
          return;
        }
        var more, restarts;
        more, ok, restarts, frag := Take(w, x, p, got, length);
        if !more {
          return;
        }
        if restarts {
          msgPos, length, got := 0, DeclaredLength(x.data), [];
          assert got + frag == frag;
        }
      }
    }

    /** Receives a message. Its capacity suffices as long as no packet holds more than 1024 bytes. An empty
        message is lost if there is no buffer yet. */
    method RecvMsg(w: Wanted) returns (r: Option<Bytes>)
      requires Valid()
      requires forall i :: 0 <= i < |incoming| && IsMsg(incoming[i]) ==> |incoming[i].data| <= FIRST_ALLOCATION
      modifies this, msg
      ensures Valid() && (msg == old(msg) || fresh(msg))
      ensures match Call(incoming, old(next), w, old(receiveError), old(seqRx))
              case Failed => r == None
              case Empty(e, s) => (r == if old(msg) == null then None else Some([])) && Acknowledged(e, s)
              case Complete(m, e, s) => r == Some(m) && Acknowledged(e, s)
      ensures var end := Call(incoming, old(next), w, old(receiveError), old(seqRx));
              end != Failed ==>
                sent == old(sent) + Answers(incoming, old(next), FirstMsg(incoming, old(next)).value) +
                        Refusal(old(receiveError), end.seqNo) + [(ACK, end.seqNo)]
    {
      hide Pending, Call, FirstMsg, Acknowledged, Refusal, Answers;
      var opens, frag, length := OpenMsg(w);
      if !opens {
        return None;
      }
      ghost var end;
      r, end := Deliver(w, frag, length);
    }

    /** The first part of a call, up to the first fragment of the message. */
    method OpenMsg(w: Wanted) returns (opens: bool, frag: Bytes, length: nat)
      requires Valid()
      requires forall i :: 0 <= i < |incoming| && IsMsg(incoming[i]) ==> |incoming[i].data| <= FIRST_ALLOCATION
      modifies this`next, this`receiveError, this`sent
      ensures Valid() && |frag| <= FIRST_ALLOCATION
      ensures !opens ==> Call(incoming, old(next), w, old(receiveError), seqRx) == Failed
      ensures opens ==>
        && Call(incoming, old(next), w, old(receiveError), seqRx) ==
           Pending(incoming, next, w, receiveError, seqRx, frag, length)
        && receiveError == old(receiveError) && FirstMsg(incoming, old(next)).Some?
        && sent == old(sent) + Answers(incoming, old(next), FirstMsg(incoming, old(next)).value)
    {
      hide Pending, Call, FirstMsg, DeclaredLength, GoodHeader, Answers;
      ghost var p := next;
      var x := AwaitMsg();
      if x.Nothing? {
        CallFails(incoming, p, w, old(receiveError), seqRx);
        return false, [], 0;
      }
      opens, frag, length := true, x.data, 0;
      if receiveError == NoError {
        opens := CheckHeader(w, frag);
        if !opens {
          CallFails(incoming, p, w, NoError, seqRx);
          return;
        }
        frag, length := frag[MSG_HDR_LEN..], DeclaredLength(frag);
      }
      PendingIsCall(incoming, p, w, receiveError, seqRx, frag, length);
    }

    /** The rest of a call, from a first fragment on. */
    method Deliver(w: Wanted, first: Bytes, declared: nat) returns (r: Option<Bytes>, ghost end: Outcome)
      requires Valid() && |first| <= FIRST_ALLOCATION
      requires forall i :: 0 <= i < |incoming| && IsMsg(incoming[i]) ==> |incoming[i].data| <= FIRST_ALLOCATION
      modifies this, msg
      ensures Valid() && (msg == old(msg) || fresh(msg))
      ensures end == Pending(incoming, old(next), w, old(receiveError), old(seqRx), first, declared)
      ensures match end
              case Failed => r == None
              case Empty(e, s) => (r == if old(msg) == null then None else Some([])) && Acknowledged(e, s)
              case Complete(m, e, s) => r == Some(m) && Acknowledged(e, s)
      ensures end != Failed ==> sent == old(sent) + Refusal(old(receiveError), end.seqNo) + [(ACK, end.seqNo)]
    {
      hide Pending, Refusal, Acknowledged;
      var ok, msgPos;
      ok, msgPos, end := Assemble(w, first, declared);
      if !ok {
        return None, end;
      }
      r := Conclude(msgPos);
    }

    method Acknowledge()
      modifies this`sent, this`seqRx
      ensures sent == old(sent) + [(ACK, old(seqRx))] && seqRx as nat == (old(seqRx) as nat + 1) % 256
    {
      Send(ACK, seqRx);
      OneMore(seqRx);
      seqRx := seqRx + 1;
    }

    /** Acknowledges a message and hands it over, unless there was an error that cannot be recovered from. */
    method Conclude(msgPos: nat) returns (r: Option<Bytes>)
      requires Valid() && next > 0 && msgPos <= if msg == null then 0 else msg.Length
      modifies this`receiveError, this`sent, this`seqRx
      ensures Valid() && next == old(next)
      ensures old(receiveError) in {NoError, ErrorAddressed} ==> sent == old(sent) + [(ACK, old(seqRx))]
      ensures if old(receiveError) !in {NoError, ErrorAddressed} then r == None
              else r == (if msg == null then None else Some(msg[..msgPos])) && Acknowledged(next - 1, old(seqRx))
    {
      if receiveError == ErrorAddressed {
        receiveError := NoError;
      }
      if receiveError == NoError {
        Acknowledge();
        return if msg == null then None else Some(msg[..msgPos]);
      }
      return None;
    }

    /** The state behind a message that ends with packet `e`, of number `s`. */
    predicate Acknowledged(e: nat, s: bv8)
      reads this
    {
      next == e + 1 && seqRx as nat == (s as nat + 1) % 256 && receiveError == NoError
    }

    /** Several calls. They all return a message exactly if as many messages come in turn, and those are returned. */
    method RecvMsgs(ws: seq<Wanted>, ghost number: nat) returns (rs: seq<Bytes>)
      requires Valid() && receiveError == NoError && seqRx as nat == number % 256
      requires forall i :: 0 <= i < |incoming| && IsMsg(incoming[i]) ==> |incoming[i].data| <= FIRST_ALLOCATION
      modifies this, msg
      ensures Valid() && (msg == old(msg) || fresh(msg)) && |rs| <= |ws|
      ensures |rs| == |ws| ==>
                && InTurn(incoming, old(next), number, ws, rs, next)
                && receiveError == NoError && seqRx as nat == (number + |ws|) % 256
      ensures OnlyThese(incoming, old(next), number, ws, rs, next)
      decreases |ws|
    {
      hide Call, GoodHeader, Answers, Refusal, FirstMsg, InTurn, OnlyThese;
      rs := [];
      if ws == [] {
        NoneInTurn(incoming, next, number);
        return;
      }
      ghost var p := next;
      NextModulo(seqRx as nat, number);
      FirstInTurn(incoming, next, number, ws, seqRx);
      var r := RecvMsg(ws[0]);
      if r == None {
        NoMoreInTurn(incoming, p, number, ws, next);
        return;
      }
      ghost var q := next;
      var rest := RecvMsgs(ws[1..], number + 1);
      rs := [r.value] + rest;
      RestInTurn(incoming, p, number, ws, q, r.value, rest, next);
    }
  }

  lemma NextModulo(s: nat, number: nat)
    ensures s == number % 256 ==> (s + 1) % 256 == (number + 1) % 256
  {
  }

  lemma OneMore(s: bv8)
    ensures (s + 1) as nat == (s as nat + 1) % 256
  {
  }

  lemma PendingIsCall(x: seq<Incoming>, p: nat, w: Wanted, state: ReceiveError, seqNo: bv8, frag: Bytes, length: nat)
    requires FirstMsg(x, p).Some?
    requires var data := x[FirstMsg(x, p).value].data;
             state == NoError ==> GoodHeader(w, data) && frag == data[MSG_HDR_LEN..] && length == DeclaredLength(data)
    ensures Pending(x, FirstMsg(x, p).value + 1, w, state, seqNo, frag, length) == Call(x, p, w, state, seqNo)
  {
  }

  lemma CallFails(x: seq<Incoming>, p: nat, w: Wanted, state: ReceiveError, seqNo: bv8)
    requires FirstMsg(x, p).None? || (state == NoError && !GoodHeader(w, x[FirstMsg(x, p).value].data))
    ensures Call(x, p, w, state, seqNo) == Failed
  {
  }

  // ----- What a message is -----

  predicate AllMsgs(x: seq<Incoming>, start: nat, end: nat) {
    start <= end <= |x| && forall i :: start <= i < end ==> IsMsg(x[i])
  }

  /** The payloads of packets, joined. */
  function Joined(x: seq<Incoming>, start: nat, end: nat): Bytes
    requires AllMsgs(x, start, end)
  {
    if start == end then [] else
      assert IsMsg(x[end - 1]);
      Joined(x, start, end - 1) + x[end - 1].data
  }

  lemma {:induction false} JoinedFront(x: seq<Incoming>, start: nat, end: nat)
    requires start < end && AllMsgs(x, start, end)
    ensures IsMsg(x[start]) && Joined(x, start, end) == x[start].data + Joined(x, start + 1, end)
    decreases end
  {
    assert IsMsg(x[start]);
    if start + 1 < end {
      JoinedFront(x, start, end - 1);
    }
  }

  /** Packets that a message may consist of: its fragments, and an EOT behind them. */
  predicate Fragments(x: seq<Incoming>, start: nat, e: nat, seqNo: bv8) {
    && e < |x| && AllMsgs(x, start, e)
    && IsEot(x[e]) && x[e].seqNo == seqNo
  }

  lemma FragmentsFrom(x: seq<Incoming>, p: nat, e: nat, seqNo: bv8)
    ensures Fragments(x, p, e, seqNo) <==>
            if p < |x| && IsMsg(x[p]) then Fragments(x, p + 1, e, seqNo)
            else p == e && e < |x| && IsEot(x[e]) && x[e].seqNo == seqNo
    ensures Fragments(x, p, e, seqNo) && IsMsg(x[p]) ==> p < e
  {
  }

  /** Collecting succeeds exactly for such packets, if they do not hold more than was declared. */
  lemma {:induction false} CollectExactly(x: seq<Incoming>, p: nat, got: Bytes, length: nat, seqNo: bv8, m: Bytes,
                                          e: nat)
    requires |got| <= length
    ensures Collect(x, p, got, length, seqNo) == Complete(m, e, seqNo) <==>
            Fragments(x, p, e, seqNo) && m == got + Joined(x, p, e) && |m| <= length
    decreases |x| - p
  {
    hide AllMsgs;
    FragmentsFrom(x, p, e, seqNo);
    if p < |x| && IsMsg(x[p]) {
      var data := x[p].data;
      if |got| + |data| <= length {
        CollectExactly(x, p + 1, got + data, length, seqNo, m, e);
      }
      if Fragments(x, p, e, seqNo) {
        JoinedFront(x, p, e);
        assert got + data + Joined(x, p + 1, e) == got + (data + Joined(x, p + 1, e));
      }
    } else if Fragments(x, p, e, seqNo) {
      assert got + [] == got;
    }
  }

  /** What the message holds: the fragments behind its header. */
  function Content(x: seq<Incoming>, h: nat, e: nat): Bytes
    requires h < |x| && IsMsg(x[h]) && |x[h].data| >= MSG_HDR_LEN && AllMsgs(x, h + 1, e)
  {
    x[h].data[MSG_HDR_LEN..] + Joined(x, h + 1, e)
  }

  /** Packet `h` starts a message that ends with packet `e`, of number `seqNo`, and holds `m`. */
  function Message(x: seq<Incoming>, h: nat, e: nat, w: Wanted, seqNo: bv8, m: Bytes): (b: bool)
    ensures b ==> h < e < |x| && IsMsg(x[h])
  {
    && h < |x| && IsMsg(x[h]) && GoodHeader(w, x[h].data) && Fragments(x, h + 1, e, seqNo)
    && m == Content(x, h, e) && |m| <= DeclaredLength(x[h].data)
  }

  lemma BeginExactly(x: seq<Incoming>, h: nat, w: Wanted, seqNo: bv8, m: Bytes, e: nat, s: bv8)
    requires h < |x| && IsMsg(x[h])
    ensures Begin(x, h, w, seqNo) == Complete(m, e, s) <==> s == seqNo && Message(x, h, e, w, s, m)
  {
    hide Joined, AllMsgs;
    var data := x[h].data;
    if GoodHeader(w, data) && |data| - MSG_HDR_LEN <= DeclaredLength(data) {
      CollectExactly(x, h + 1, data[MSG_HDR_LEN..], DeclaredLength(data), seqNo, m, e);
      CollectNumber(x, h + 1, data[MSG_HDR_LEN..], DeclaredLength(data), seqNo);
    }
  }

  lemma {:induction false} CollectNumber(x: seq<Incoming>, p: nat, got: Bytes, length: nat, seqNo: bv8)
    ensures Collect(x, p, got, length, seqNo) == Failed ||
            (Collect(x, p, got, length, seqNo).Complete? && Collect(x, p, got, length, seqNo).seqNo == seqNo)
    decreases |x| - p
  {
    if p < |x| && IsMsg(x[p]) {
      CollectNumber(x, p + 1, got + x[p].data, length, seqNo);
    }
  }

  /** From `p` to `q` there are packets, but none of a message. */
  predicate Skips(x: seq<Incoming>, p: nat, q: nat) {
    p <= q <= |x| && forall i :: p <= i < q ==> x[i].Received? && x[i].kind != MSG
  }

  predicate Quiet(x: seq<Incoming>, p: nat, q: nat) {
    Skips(x, p, q) && forall i :: p <= i < q ==> !IsEot(x[i])
  }

  /** From `p` to `q` there are packets, but no EOT. */
  predicate NoEot(x: seq<Incoming>, p: nat, q: nat) {
    p <= q <= |x| && forall i :: p <= i < q ==> x[i].Received? && x[i].kind != EOT
  }

  lemma {:induction false} FirstMsgExactly(x: seq<Incoming>, p: nat, h: nat)
    ensures FirstMsg(x, p) == Some(h) <==> Skips(x, p, h) && h < |x| && IsMsg(x[h])
    decreases |x| - p
  {
    if p < |x| && x[p].Received? && !IsMsg(x[p]) {
      FirstMsgExactly(x, p + 1, h);
    }
  }

  /** Without an error, a call returns `m` exactly if the first message packet starts a message with this content. */
  lemma MessageExactly(x: seq<Incoming>, p: nat, w: Wanted, seqNo: bv8, m: Bytes, e: nat, s: bv8)
    ensures Call(x, p, w, NoError, seqNo) == Complete(m, e, s) <==>
            s == seqNo && exists h: nat :: Skips(x, p, h) && Message(x, h, e, w, s, m)
  {
    hide Message, Skips, FirstMsg, Begin;
    if Call(x, p, w, NoError, seqNo) == Complete(m, e, s) {
      var h := FirstMsg(x, p).value;
      FirstMsgExactly(x, p, h);
      BeginExactly(x, h, w, seqNo, m, e, s);
    }
    forall h | s == seqNo && Skips(x, p, h) && Message(x, h, e, w, s, m)
      ensures Call(x, p, w, NoError, seqNo) == Complete(m, e, s)
    {
      FirstMsgExactly(x, p, h);
      BeginExactly(x, h, w, seqNo, m, e, s);
    }
  }

  /** Behind `p`, the first message packet starts a message that holds `m` and ends with packet `e`; the number of `e`
      is `number`, modulo 256. */
  ghost predicate OneInTurn(x: seq<Incoming>, p: nat, number: nat, w: Wanted, m: Bytes, e: nat) {
    e < |x| && IsEot(x[e]) && x[e].seqNo as nat == number % 256 &&
    exists h: nat :: Skips(x, p, h) && Message(x, h, e, w, x[e].seqNo, m)
  }

  /** Messages one behind the other, up to packet `end`, and each with the number behind that of the one before. */
  ghost predicate InTurn(x: seq<Incoming>, p: nat, number: nat, ws: seq<Wanted>, ms: seq<Bytes>, end: nat)
    decreases |ws|
  {
    if ws == [] then ms == [] && end == p
    else
      && ms != []
      && exists e: nat ::
           OneInTurn(x, p, number, ws[0], ms[0], e) && InTurn(x, e + 1, number + 1, ws[1..], ms[1..], end)
  }

  lemma OneInTurnExactly(x: seq<Incoming>, p: nat, number: nat, w: Wanted, s: bv8, m: Bytes, e: nat)
    requires s as nat == number % 256
    ensures Call(x, p, w, NoError, s) == Complete(m, e, s) <==> OneInTurn(x, p, number, w, m, e)
    ensures forall n :: Call(x, p, w, NoError, s) == Complete(m, e, n) ==> n == s
  {
    hide Skips, Call;
    forall n ensures Call(x, p, w, NoError, s) == Complete(m, e, n) ==> n == s {
      MessageExactly(x, p, w, s, m, e, n);
    }
    MessageExactly(x, p, w, s, m, e, s);
  }

  /** No others come in turn. */
  ghost predicate OnlyThese(x: seq<Incoming>, p: nat, number: nat, ws: seq<Wanted>, rs: seq<Bytes>, end: nat) {
    forall ms: seq<Bytes>, e: nat :: InTurn(x, p, number, ws, ms, e) ==> ms == rs && e == end
  }

  lemma NoneInTurn(x: seq<Incoming>, p: nat, number: nat)
    ensures InTurn(x, p, number, [], [], p) && OnlyThese(x, p, number, [], [], p)
  {
  }

  lemma NoMoreInTurn(x: seq<Incoming>, p: nat, number: nat, ws: seq<Wanted>, end: nat)
    requires forall ms: seq<Bytes>, e: nat :: !InTurn(x, p, number, ws, ms, e)
    ensures OnlyThese(x, p, number, ws, [], end)
  {
    hide InTurn;
  }

  lemma RestInTurn(x: seq<Incoming>, p: nat, number: nat, ws: seq<Wanted>, q: nat, m: Bytes, rest: seq<Bytes>, end: nat)
    requires ws != []
    requires forall ms: seq<Bytes>, e: nat :: InTurn(x, p, number, ws, ms, e) <==>
               ms != [] && ms[0] == m && InTurn(x, q, number + 1, ws[1..], ms[1..], e)
    requires OnlyThese(x, q, number + 1, ws[1..], rest, end)
    ensures OnlyThese(x, p, number, ws, [m] + rest, end)
    ensures InTurn(x, q, number + 1, ws[1..], rest, end) ==> InTurn(x, p, number, ws, [m] + rest, end)
  {
    hide InTurn;
    assert ([m] + rest)[1..] == rest;
    forall ms: seq<Bytes>, e: nat | InTurn(x, p, number, ws, ms, e) ensures ms == [m] + rest && e == end {
      assert InTurn(x, q, number + 1, ws[1..], ms[1..], e);
      assert ms == [ms[0]] + ms[1..];
    }
  }

  /** The first call decides how the messages can go on. */
  lemma FirstInTurn(x: seq<Incoming>, p: nat, number: nat, ws: seq<Wanted>, s: bv8)
    requires s as nat == number % 256 && ws != []
    ensures !Call(x, p, ws[0], NoError, s).Empty?
    ensures Call(x, p, ws[0], NoError, s).Failed? ==>
              forall ms: seq<Bytes>, end: nat :: !InTurn(x, p, number, ws, ms, end)
    ensures Call(x, p, ws[0], NoError, s).Complete? ==>
              var first := Call(x, p, ws[0], NoError, s);
              first.seqNo == s &&
              forall ms: seq<Bytes>, end: nat :: InTurn(x, p, number, ws, ms, end) <==>
                ms != [] && ms[0] == first.message && InTurn(x, first.end + 1, number + 1, ws[1..], ms[1..], end)
  {
    hide OneInTurn, Begin;
    var outcome := Call(x, p, ws[0], NoError, s);
    CallFills(x, p, ws[0], s);
    if outcome.Complete? {
      OneInTurnExactly(x, p, number, ws[0], s, outcome.message, outcome.end);
    }
    forall m, e: nat
      ensures outcome == Complete(m, e, s) <==> OneInTurn(x, p, number, ws[0], m, e)
    {
      OneInTurnExactly(x, p, number, ws[0], s, m, e);
    }
  }

  lemma CallFills(x: seq<Incoming>, p: nat, w: Wanted, s: bv8)
    ensures !Call(x, p, w, NoError, s).Empty?
  {
    hide Begin;
    if FirstMsg(x, p).Some? {
      BeginFills(x, FirstMsg(x, p).value, w, s);
    }
  }

  /** Behind an error that the camera knows of: how the message, or an EOT instead of it, comes. */
  lemma {:induction false} RestartExactly(x: seq<Incoming>, p: nat, w: Wanted, seqNo: bv8, m: Bytes, e: nat, s: bv8)
    ensures Restart(x, p, w, seqNo) == Complete(m, e, s) <==>
      s == seqNo && exists h: nat :: Quiet(x, p, h) && Message(x, h, e, w, s, m)
    ensures Restart(x, p, w, seqNo) == Empty(e, s) <==>
      s == seqNo && Quiet(x, p, e) && e < |x| && IsEot(x[e]) && x[e].seqNo == s
    decreases |x| - p
  {
    hide Message, Begin;
    if p >= |x| || x[p].Nothing? {
    } else if IsMsg(x[p]) {
      BeginExactly(x, p, w, seqNo, m, e, s);
      BeginFills(x, p, w, seqNo);
      assert Quiet(x, p, p);
    } else if !IsEot(x[p]) {
      RestartExactly(x, p + 1, w, seqNo, m, e, s);
      QuietNext(x, p);
    }
  }

  lemma BeginFills(x: seq<Incoming>, h: nat, w: Wanted, seqNo: bv8)
    requires h < |x| && IsMsg(x[h])
    ensures !Begin(x, h, w, seqNo).Empty?
  {
    var data := x[h].data;
    if GoodHeader(w, data) {
      CollectNumber(x, h + 1, data[MSG_HDR_LEN..], DeclaredLength(data), seqNo);
    }
  }

  lemma QuietNext(x: seq<Incoming>, p: nat)
    requires p < |x| && x[p].Received? && !IsMsg(x[p]) && !IsEot(x[p])
    ensures forall q: nat :: p < q ==> Quiet(x, p, q) == Quiet(x, p + 1, q)
  {
  }

  /** An error comes to an end with the EOT at `r`. */
  function ErrorEnds(x: seq<Incoming>, p: nat, r: nat): (b: bool)
    ensures b ==> r < |x| && x[r].Received?
  {
    NoEot(x, p, r) && r < |x| && IsEot(x[r])
  }

  lemma {:induction false} AwaitExactly(x: seq<Incoming>, p: nat, w: Wanted) returns (r: nat)
    ensures AwaitEot(x, p, w) != Failed ==> ErrorEnds(x, p, r)
    ensures forall q: nat :: ErrorEnds(x, p, q) ==> q == r && AwaitEot(x, p, w) == Restart(x, r + 1, w, x[r].seqNo)
    decreases |x| - p
  {
    hide Restart;
    r := p;
    if p < |x| && x[p].Received? && !IsEot(x[p]) {
      r := AwaitExactly(x, p + 1, w);
      assert forall q: nat :: ErrorEnds(x, p, q) <==> ErrorEnds(x, p + 1, q);
    }
  }

  predicate StartsWith(x: seq<Incoming>, p: nat, k: nat) {
    Skips(x, p, k) && k < |x| && IsMsg(x[k])
  }

  /** After an error, a call returns `m` exactly if it starts behind the EOT that ended the error; and it is empty
      exactly if the next EOT has the number of that one, with no message in between. */
  lemma RecoveryExactly(x: seq<Incoming>, p: nat, w: Wanted, seqNo: bv8, m: Bytes, e: nat, s: bv8)
    ensures Call(x, p, w, ErrorReceived, seqNo) == Complete(m, e, s) <==>
            exists k: nat, r: nat, h: nat :: StartsWith(x, p, k) && ErrorEnds(x, k + 1, r) && s == x[r].seqNo &&
                              Quiet(x, r + 1, h) && Message(x, h, e, w, s, m)
    ensures Call(x, p, w, ErrorReceived, seqNo) == Empty(e, s) <==>
            exists k: nat, r: nat :: StartsWith(x, p, k) && ErrorEnds(x, k + 1, r) && s == x[r].seqNo &&
                              Quiet(x, r + 1, e) && e < |x| && IsEot(x[e]) && x[e].seqNo == s
  {
    hide Message, Skips, Quiet, FirstMsg, AwaitEot, Restart, ErrorEnds;
    forall k: nat | StartsWith(x, p, k) ensures FirstMsg(x, p) == Some(k) {
      FirstMsgExactly(x, p, k);
    }
    if FirstMsg(x, p).Some? {
      var k := FirstMsg(x, p).value;
      FirstMsgExactly(x, p, k);
      var r := AwaitExactly(x, k + 1, w);
      if ErrorEnds(x, k + 1, r) {
        RestartExactly(x, r + 1, w, x[r].seqNo, m, e, s);
        if Restart(x, r + 1, w, x[r].seqNo) == Complete(m, e, s) {
          var h: nat :| Quiet(x, r + 1, h) && Message(x, h, e, w, s, m);
          assert StartsWith(x, p, k) && ErrorEnds(x, k + 1, r) && Quiet(x, r + 1, h);
        }
      }
    }
  }
}
