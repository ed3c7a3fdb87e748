/** The pending-send queue of the Berkeley socket adapter. */
module SendQueue {
  import opened Bytes
  import opened Wrappers

  /** One answer of the socket: it takes up to `room` bytes of what is offered, or would block (EAGAIN, ENOBUFS),
      or fails. */
  datatype Answer = Takes(room: nat) | WouldBlock | Fails

  datatype IoState = Closed | Open | Error

  /** A buffer handed to `socketio_send`, and the context of its completion callback, if it has one. */
  datatype Request = Request(data: bytes, callback: Option<int>)

  function Flatten(rs: seq<Request>): bytes {
    if rs == [] then [] else rs[0].data + Flatten(rs[1..])
  }

  /** The callbacks of the requests, in order. */
  function Callbacks(rs: seq<Request>): seq<int> {
    if rs == [] then []
    else (match rs[0].callback case None => [] case Some(c) => [c]) + Callbacks(rs[1..])
  }

  lemma {:induction false} FlattenConcat(a: seq<Request>, b: seq<Request>)
    ensures Flatten(a + b) == Flatten(a) + Flatten(b)
    ensures Callbacks(a + b) == Callbacks(a) + Callbacks(b)
  {
    if a == [] {
      assert a + b == b;
    } else {
      assert (a + b)[1..] == a[1..] + b;
      FlattenConcat(a[1..], b);
    }
  }

  lemma FlattenPrefix(rs: seq<Request>, k: nat)
    requires k < |rs|
    ensures Flatten(rs[..k + 1]) == Flatten(rs[..k]) + rs[k].data
    ensures Callbacks(rs[..k + 1]) == Callbacks(rs[..k]) + Callbacks([rs[k]])
  {
    hide Flatten, Callbacks;
    assert rs[..k + 1] == rs[..k] + [rs[k]];
    FlattenConcat(rs[..k], [rs[k]]);
    SingleRequest(rs[k]);
  }

  lemma SplitAt(s: bytes, m: nat, n: nat)
    requires m <= n <= |s|
    ensures s[..m] + s[m..] == s
    ensures s[m..][n - m..] == s[n..] && s[..m] + s[m..][..n - m] == s[..n]
  {
  }

  lemma SingleRequest(r: Request)
    ensures Flatten([r]) == r.data
    ensures Callbacks([r]) == match r.callback case None => [] case Some(c) => [c]
  {
  }

  /** Of the accepted requests the first `done` are complete: their bytes are on the wire, followed by what is
      already sent of the next one; the queue holds the rest of that and all later requests; and exactly the
      callbacks of the complete requests have been called, in order. */
  ghost predicate Consistent(accepted: seq<Request>, done: nat, pending: seq<Request>, wire: bytes,
                             completed: seq<int>)
  {
    && done + |pending| == |accepted|
    && (forall i :: 0 <= i < |accepted| ==> accepted[i].data != [])
    && (forall i :: 0 < i < |pending| ==> pending[i] == accepted[done + i])
    && (pending == [] ==> wire == Flatten(accepted[..done]))
    && (pending != [] ==>
          && pending[0].callback == accepted[done].callback
          && 0 < |pending[0].data| <= |accepted[done].data|
          && var sent := |accepted[done].data| - |pending[0].data|;
             && pending[0].data == accepted[done].data[sent..]
             && wire == Flatten(accepted[..done]) + accepted[done].data[..sent])
    && completed == Callbacks(accepted[..done])
  }

  /** A request queued behind others. */
  lemma QueuedBehind(accepted: seq<Request>, done: nat, pending: seq<Request>, wire: bytes, completed: seq<int>,
                     r: Request)
    requires Consistent(accepted, done, pending, wire, completed) && pending != [] && r.data != []
    ensures Consistent(accepted + [r], done, pending + [r], wire, completed)
  {
    assert (accepted + [r])[..done] == accepted[..done];
  }

  /** A request sent in part, or not at all, to an idle socket. */
  lemma QueuedFirst(accepted: seq<Request>, done: nat, wire: bytes, completed: seq<int>, r: Request, n: nat)
    requires Consistent(accepted, done, [], wire, completed) && n < |r.data|
    ensures Consistent(accepted + [r], done, [Request(r.data[n..], r.callback)], wire + r.data[..n], completed)
  {
    assert (accepted + [r])[..done] == accepted[..done];
  }

  /** A part of the first queued request goes out. */
  lemma SentInPart(accepted: seq<Request>, done: nat, pending: seq<Request>, wire: bytes, completed: seq<int>, n: nat)
    requires Consistent(accepted, done, pending, wire, completed) && pending != [] && n < |pending[0].data|
    ensures Consistent(accepted, done, pending[0 := Request(pending[0].data[n..], pending[0].callback)],
                       wire + pending[0].data[..n], completed)
  {
    hide Flatten, Callbacks;
    var data := accepted[done].data;
    var sent := |data| - |pending[0].data|;
    SplitAt(data, sent, sent + n);
    Regroup(Flatten(accepted[..done]), data[..sent], data[sent..][..n], data[..sent + n]);
  }

  /** The first queued request goes out whole. */
  lemma SentWhole(accepted: seq<Request>, done: nat, pending: seq<Request>, wire: bytes, completed: seq<int>)
    requires Consistent(accepted, done, pending, wire, completed) && pending != []
    ensures Consistent(accepted, done + 1, pending[1..], wire + pending[0].data, completed + Callbacks([pending[0]]))
  {
    hide Flatten, Callbacks;
    var data := accepted[done].data;
    var sent := |data| - |pending[0].data|;
    FlattenPrefix(accepted, done);
    SingleRequest(accepted[done]);
    SingleRequest(pending[0]);
    SplitAt(data, sent, sent);
    Regroup(Flatten(accepted[..done]), data[..sent], data[sent..], data);
    assert wire + pending[0].data == Flatten(accepted[..done + 1]);
  }

  /** A request that an idle socket takes whole. */
  lemma SentAtOnce(accepted: seq<Request>, done: nat, wire: bytes, completed: seq<int>, r: Request)
    requires Consistent(accepted, done, [], wire, completed) && r.data != []
    ensures Consistent(accepted + [r], done + 1, [], wire + r.data, completed + Callbacks([r]))
  {
    assert accepted[..done] == accepted && (accepted + [r])[..done + 1] == accepted + [r];
    FlattenConcat(accepted, [r]);
    SingleRequest(r);
  }

  lemma FlattenFirst(r: Request, pending: seq<Request>)
    requires pending != []
    ensures Flatten([r] + pending[1..]) == r.data + Flatten(pending[1..])
    ensures Flatten(pending) == pending[0].data + Flatten(pending[1..])
  {
    assert ([r] + pending[1..])[1..] == pending[1..];
  }

  /** Conservation: the bytes on the wire followed by the queued bytes are the accepted buffers in order. */
  lemma Conservation(accepted: seq<Request>, done: nat, pending: seq<Request>, wire: bytes, completed: seq<int>)
    requires Consistent(accepted, done, pending, wire, completed)
    ensures wire + Flatten(pending) == Flatten(accepted)
  {
    hide Flatten, Callbacks;
    assert accepted == accepted[..done] + accepted[done..];
    FlattenConcat(accepted[..done], accepted[done..]);
    if pending != [] {
      var data := accepted[done].data;
      var sent := |data| - |pending[0].data|;
      assert accepted[done..] == [accepted[done]] + pending[1..];
      FlattenFirst(accepted[done], pending);
      SplitAt(data, sent, sent);
      Regroup(data[..sent], data[sent..], Flatten(pending[1..]), data[sent..] + Flatten(pending[1..]));
      Regroup(Flatten(accepted[..done]), data[..sent], Flatten(pending), Flatten(accepted[done..]));
    } else {
      FlattenNothing();
      assert accepted[done..] == [] && accepted[..done] == accepted;
    }
  }

  lemma FlattenNothing()
    ensures Flatten([]) == [] && Callbacks([]) == []
  {
  }

  /** The callbacks called are those of a prefix of the accepted requests, which is the longest prefix whose bytes
      are all on the wire. */
  lemma CompletedAreSent(accepted: seq<Request>, done: nat, pending: seq<Request>, wire: bytes, completed: seq<int>)
    requires Consistent(accepted, done, pending, wire, completed)
    ensures done <= |accepted| && completed == Callbacks(accepted[..done])
    ensures |Flatten(accepted[..done])| <= |wire|
    ensures done < |accepted| ==> |wire| < |Flatten(accepted[..done + 1])|
  {
    hide Flatten, Callbacks;
    if done < |accepted| {
      FlattenPrefix(accepted, done);
    }
  }

  /** What a round of the sending loop, or a whole call of `socketio_dowork`, does: what stays queued, the bytes that
      go out, the callbacks called, and whether the socket failed. */
  datatype Outcome = Outcome(pending: seq<Request>, sent: bytes, called: seq<int>, failed: bool)

  function Round(pending: seq<Request>, answer: Answer): Outcome
    requires pending != []
  {
    var first := pending[0];
    match answer
    case WouldBlock => Outcome(pending, [], [], false)
    case Fails => Outcome(pending[1..], [], [], true)
    case Takes(room) =>
      if room < |first.data| then
        Outcome([Request(first.data[room..], first.callback)] + pending[1..], first.data[..room], [], false)
      else Outcome(pending[1..], first.data, Callbacks([first]), false)
  }

  predicate Stops(pending: seq<Request>, answer: Answer)
    requires pending != []
  {
    answer.WouldBlock? || (answer.Takes? && answer.room < |pending[0].data|)
  }

  function Drain(pending: seq<Request>, answers: seq<Answer>): Outcome {
    if pending == [] || answers == [] then Outcome(pending, [], [], false)
    else
      var round := Round(pending, answers[0]);
      if Stops(pending, answers[0]) then round
      else
        var rest := Drain(round.pending, answers[1..]);
        Outcome(rest.pending, round.sent + rest.sent, round.called + rest.called, round.failed || rest.failed)
  }

  lemma DrainNothing(answers: seq<Answer>)
    ensures Drain([], answers) == Outcome([], [], [], false)
  {
  }

  /** Nothing is lost, repeated or reordered between two states of the queue. */
  predicate Conserves(before: seq<Request>, o: Outcome) {
    && o.sent + Flatten(o.pending) == Flatten(before)
    && o.called + Callbacks(o.pending) == Callbacks(before)
  }

  lemma CallbacksFirst(r: Request, pending: seq<Request>)
    requires pending != [] && r.callback == pending[0].callback
    ensures Callbacks([r] + pending[1..]) == Callbacks(pending)
    ensures Callbacks(pending) == Callbacks([r]) + Callbacks(pending[1..])
  {
    assert ([r] + pending[1..])[1..] == pending[1..];
    SingleRequest(r);
  }

  lemma RoundConserves(pending: seq<Request>, answer: Answer)
    requires pending != [] && !answer.Fails?
    ensures !Round(pending, answer).failed && Conserves(pending, Round(pending, answer))
  {
    hide Flatten, Callbacks;
    var first := pending[0];
    FlattenFirst(first, pending);
    CallbacksFirst(first, pending);
    if answer.Takes? && answer.room < |first.data| {
      var left := Request(first.data[answer.room..], first.callback);
      FlattenFirst(left, pending);
      CallbacksFirst(left, pending);
      SplitAt(first.data, answer.room, answer.room);
      Regroup(first.data[..answer.room], left.data, Flatten(pending[1..]), left.data + Flatten(pending[1..]));
    } else if answer.WouldBlock? {
      EmptyParts(Flatten(pending));
    }
  }

  /** Without a hard error, one call loses, repeats and reorders nothing, and no callback is called before or after
      its turn; and the call empties the queue when the socket has room for every queued buffer. */
  lemma {:induction false} DrainConserves(pending: seq<Request>, answers: seq<Answer>)
    requires forall a :: a in answers ==> !a.Fails?
    ensures !Drain(pending, answers).failed && Conserves(pending, Drain(pending, answers))
    ensures |pending| <= |answers| && (forall i :: 0 <= i < |pending| ==>
        && answers[i].Takes?
        && |pending[i].data| <= answers[i].room)
            ==> Drain(pending, answers).pending == []
  {
    hide Flatten, Callbacks;
    if pending == [] || answers == [] {
      EmptyParts(Flatten(pending));
    } else {
      RoundConserves(pending, answers[0]);
      if !Stops(pending, answers[0]) {
        var round, rest := Round(pending, answers[0]), Drain(pending[1..], answers[1..]);
        DrainConserves(pending[1..], answers[1..]);
        Regroup(round.sent, rest.sent, Flatten(rest.pending), Flatten(pending[1..]));
        assert (round.called + rest.called) + Callbacks(rest.pending)
            == round.called + (rest.called + Callbacks(rest.pending));
      }
    }
  }

  /** The queued requests without those whose turn met a hard error. */
  function Undropped(pending: seq<Request>, answers: seq<Answer>): (rs: seq<Request>)
    ensures |rs| <= |pending|
  {
    if pending == [] || answers == [] then pending
    else if answers[0].Fails? then Undropped(pending[1..], answers[1..])
    else if Stops(pending, answers[0]) then pending
    else [pending[0]] + Undropped(pending[1..], answers[1..])
  }

  lemma {:induction false} UndroppedStays(pending: seq<Request>, answers: seq<Answer>)
    requires pending != [] && answers != [] && !answers[0].Fails? && !Stops(pending, answers[0])
    ensures Flatten(Undropped(pending, answers)) == pending[0].data + Flatten(Undropped(pending[1..], answers[1..]))
    ensures Callbacks(Undropped(pending, answers))
         == Callbacks([pending[0]]) + Callbacks(Undropped(pending[1..], answers[1..]))
  {
    hide Flatten, Callbacks;
    FlattenConcat([pending[0]], Undropped(pending[1..], answers[1..]));
    SingleRequest(pending[0]);
  }

  /** One call under any answers: a hard error drops the request whose turn it is, its callback with it, and of the
      others nothing is lost, repeated or reordered. */
  lemma {:induction false} DrainDrops(pending: seq<Request>, answers: seq<Answer>)
    ensures Conserves(Undropped(pending, answers), Drain(pending, answers))
    ensures Drain(pending, answers).failed <==> |Undropped(pending, answers)| < |pending|
  {
    hide Flatten, Callbacks;
    if pending == [] || answers == [] {
      EmptyParts(Flatten(pending));
    } else {
      if Stops(pending, answers[0]) {
        RoundConserves(pending, answers[0]);
      } else {
        DrainDrops(pending[1..], answers[1..]);
        if answers[0].Fails? {
          AfterDropped(pending, answers);
        } else {
          AfterSent(pending, answers);
        }
      }
    }
  }

  lemma {:induction false} AfterDropped(pending: seq<Request>, answers: seq<Answer>)
    requires pending != [] && answers != [] && answers[0].Fails?
    requires Conserves(Undropped(pending[1..], answers[1..]), Drain(pending[1..], answers[1..]))
    ensures Conserves(Undropped(pending, answers), Drain(pending, answers)) && Drain(pending, answers).failed
  {
    hide Flatten, Callbacks;
    var rest := Drain(pending[1..], answers[1..]);
    EmptyParts(rest.sent);
    assert [] + rest.called == rest.called;
  }

  lemma {:induction false} AfterSent(pending: seq<Request>, answers: seq<Answer>)
    requires pending != [] && answers != [] && !answers[0].Fails? && !Stops(pending, answers[0])
    requires Conserves(Undropped(pending[1..], answers[1..]), Drain(pending[1..], answers[1..]))
    ensures Conserves(Undropped(pending, answers), Drain(pending, answers))
    ensures Drain(pending, answers).failed == Drain(pending[1..], answers[1..]).failed
  {
    hide Flatten, Callbacks, Undropped;
    var round, rest := Round(pending, answers[0]), Drain(pending[1..], answers[1..]);
    UndroppedStays(pending, answers);
    Regroup(round.sent, rest.sent, Flatten(rest.pending), Flatten(Undropped(pending[1..], answers[1..])));
    assert (round.called + rest.called) + Callbacks(rest.pending)
        == round.called + (rest.called + Callbacks(rest.pending));
  }

  /** The loop goes on behind a hard error: here the first buffer is dropped, and the second one is sent anyway. */
  lemma SendsBehindError()
    ensures var a, b := Request([0x61], Some(1)), Request([0x62], Some(2));
            Drain([a, b], [Fails, Takes(1)]) == Outcome([], [0x62], [2], true)
  {
    var a, b := Request([0x61], Some(1)), Request([0x62], Some(2));
    DrainNothing([]);
    assert [a, b][1..] == [b] && [Fails, Takes(1)][1..] == [Takes(1)];
    SingleRequest(b);
    var rest := Drain([b], [Takes(1)]);
    assert [b][1..] == [] && [Takes(1)][1..] == [];
    assert Drain([b][1..], []) == Outcome([], [], [], false);
    assert rest == Outcome([], [0x62] + [], [2] + [], false);
  }

  /** After `sent` and `called`, the rest of a call does `rest`; in all the call does `all`. */
  predicate Continues(all: Outcome, sent: bytes, called: seq<int>, failed: bool, rest: Outcome) {
    all == Outcome(rest.pending, sent + rest.sent, called + rest.called, failed || rest.failed)
  }

  lemma DrainOnce(all: Outcome, sent: bytes, called: seq<int>, failed: bool, pending: seq<Request>,
                  answers: seq<Answer>)
    requires pending != [] && Continues(all, sent, called, failed, Drain(pending, answers))
    ensures var answer := if answers == [] then WouldBlock else answers[0];
            var round := Round(pending, answer);
            && (Stops(pending, answer) ==>
                  Continues(all, sent + round.sent, called + round.called, failed || round.failed,
                            Outcome(round.pending, [], [], false)))
            && (!Stops(pending, answer) ==>
                  && answers != []
                  && round.pending == pending[1..]
                  && Continues(all, sent + round.sent, called + round.called, failed || round.failed,
                               Drain(round.pending, answers[1..])))
  {
    var answer := if answers == [] then WouldBlock else answers[0];
    var round := Round(pending, answer);
    if Stops(pending, answer) {
      EmptyParts(sent + round.sent);
    } else {
      var rest := Drain(round.pending, answers[1..]);
      Regroup(sent, round.sent, rest.sent, round.sent + rest.sent);
    }
  }

  class SocketIo {
    var ioState: IoState
    var pending: seq<Request>
    /** What the socket has taken, and which callbacks were called. */
    var wire: bytes
    var completed: seq<int>
    /** Every request that `socketio_send` accepted, and how many of them are complete. */
    ghost var accepted: seq<Request>
    ghost var done: nat

    ghost predicate Valid()
      reads this
    {
      ioState == Open ==> Consistent(accepted, done, pending, wire, completed)
    }

    constructor ()
      ensures Valid() && ioState == Open && pending == [] && wire == [] && completed == [] && accepted == []
    {
      ioState, pending, wire, completed, accepted, done := Open, [], [], [], [], 0;
    }

    /** `send`: the socket takes a prefix of the bytes.  The result is the number of bytes, or -1. */
    method SocketSend(data: bytes, answer: Answer) returns (result: int)
      modifies this`wire
      ensures match answer
              case Takes(room) =>
                && result == (if room < |data| then room else |data|)
                && wire == old(wire) + data[..result]
              case _ => result == -1 && wire == old(wire)
    {
      if answer.Takes? {
        result := if answer.room < |data| then answer.room else |data|;
        wire := wire + data[..result];
      } else {
        result := -1;
      }
    }

    /** `add_pending_io`. */
    method AddPendingIo(data: bytes, callback: Option<int>)
      modifies this`pending
      ensures pending == old(pending) + [Request(data, callback)]
    {
      pending := pending + [Request(data, callback)];
    }

    /** The completion callback, when there is one, is called with IO_SEND_OK. */
    method CompleteSend(request: Request)
      modifies this`completed
      ensures completed == old(completed) + Callbacks([request])
    {
      SingleRequest(request);
      if request.callback.Some? {
        completed := completed + [request.callback.value];
      }
    }

    /** `socketio_send`. */
    method Send(buffer: bytes, callback: Option<int>, answer: Answer) returns (ok: bool)
      requires Valid()
      modifies this
      ensures Valid() && ioState == old(ioState)
      ensures ok <==> buffer != [] && old(ioState) == Open && (old(pending) != [] || !answer.Fails?)
      ensures ok ==> accepted == old(accepted) + [Request(buffer, callback)]
      ensures ok && old(pending) != [] ==>
                && pending == old(pending) + [Request(buffer, callback)]
                && wire == old(wire) && completed == old(completed)
      ensures ok && old(pending) == [] ==>
                var taken := if answer.Takes? then if answer.room < |buffer| then answer.room else |buffer| else 0;
                && wire == old(wire) + buffer[..taken]
                && pending == (if taken < |buffer| then [Request(buffer[taken..], callback)] else [])
                && completed == old(completed) + if taken < |buffer| then [] else Callbacks([Request(buffer, callback)])
      ensures !ok ==>
          && accepted == old(accepted) && wire == old(wire) && pending == old(pending)
          && completed == old(completed)
    {
      hide Consistent, Callbacks, Flatten;
      if |buffer| == 0 || ioState != Open {
        return false;
      }
      ghost var request := Request(buffer, callback);
      if pending != [] {
        QueuedBehind(accepted, done, pending, wire, completed, request);
        AddPendingIo(buffer, callback);
        accepted := accepted + [request];
        return true;
      }
      ghost var before := wire;
      var sendResult := SocketSend(buffer, answer);
      if sendResult != |buffer| {
        if answer.Fails? {
          return false;
        }
        var bytesSent := if sendResult < 0 then 0 else sendResult;
        QueuedFirst(accepted, done, before, completed, request, bytesSent);
        assert answer.WouldBlock? ==> before + buffer[..0] == before;
        AddPendingIo(buffer[bytesSent..], callback);
        assert pending == [Request(buffer[bytesSent..], callback)];
        accepted := accepted + [request];
        return true;
      }
      SentAtOnce(accepted, done, before, completed, request);
      assert buffer[..|buffer|] == buffer;
      CompleteSend(Request(buffer, callback));
      accepted, done := accepted + [request], done + 1;
      return true;
    }

    /** The sending loop of `socketio_dowork`; the socket answers one call of send after the other, and would block
        when no answer is left.  On a hard error the adapter drops the request, leaves the open state and goes on. */
    method DoWork(answers: seq<Answer>)
      requires Valid()
      modifies this
      ensures Valid() && accepted == old(accepted)
      ensures old(ioState) != Open ==>
          && ioState == old(ioState) && wire == old(wire) && pending == old(pending)
          && completed == old(completed)
      ensures old(ioState) == Open ==>
                var all := Drain(old(pending), answers);
                && pending == all.pending
                && wire == old(wire) + all.sent
                && completed == old(completed) + all.called
                && ioState == if all.failed then Error else Open
    {
      hide Consistent, Drain, Callbacks, Flatten, Round;
      if ioState != Open {
        return;
      }
      var calls := 0;
      ghost var rest := Drain(pending, answers);
      ghost var all := Outcome(rest.pending, wire + rest.sent, completed + rest.called, rest.failed);
      assert answers[0..] == answers;
      while pending != []
        invariant Valid() && accepted == old(accepted) && 0 <= calls <= |answers|
        invariant ioState == Open || ioState == Error
        invariant rest == Drain(pending, answers[calls..])
        invariant Continues(all, wire, completed, ioState == Error, rest)
        decreases |pending|
      {
        var answer := if calls < |answers| then answers[calls] else WouldBlock;
        DrainOnce(all, wire, completed, ioState == Error, pending, answers[calls..]);
        var stop := SendFirst(answer);
        calls := if calls < |answers| then calls + 1 else calls;
        if stop {
          rest := Outcome(pending, [], [], false);
          break;
        }
        rest := Drain(pending, answers[calls..]);
      }
      DrainNothing(answers[calls..]);
      assert rest == Outcome(pending, [], [], false);
      EmptyParts(wire);
    }

    /** One round of the loop. */
    method SendFirst(answer: Answer) returns (stop: bool)
      requires Valid() && pending != []
      modifies this
      ensures Valid() && accepted == old(accepted)
      ensures stop <==> Stops(old(pending), answer)
      ensures var round := Round(old(pending), answer);
              && pending == round.pending
              && wire == old(wire) + round.sent
              && completed == old(completed) + round.called
              && ioState == if round.failed then Error else old(ioState)
    {
      hide Consistent, Callbacks, Flatten;
      var first := pending[0];
      ghost var before := wire;
      var sendResult := SocketSend(first.data, answer);
      if sendResult < 0 || sendResult != |first.data| {
        if sendResult == -1 {
          if answer.WouldBlock? {
            return true;
          }
          pending := pending[1..];
          ioState := Error;
          return false;
        }
        if ioState == Open {
          SentInPart(accepted, done, pending, before, completed, sendResult);
        }
        pending := pending[0 := Request(first.data[sendResult..], first.callback)];
        return true;
      }
      SplitAt(first.data, |first.data|, |first.data|);
      if ioState == Open {
        SentWhole(accepted, done, pending, before, completed);
        done := done + 1;
      }
      CompleteSend(first);
      pending := pending[1..];
      return false;
    }
  }
  /** A call by the layer above, with the answers the socket gives during it. */
  datatype Call = SendCall(request: Request, answer: Answer) | DoWorkCall(answers: seq<Answer>)

  /** The requests for which `socketio_send` reported success, in order. */
  function Accepted(calls: seq<Call>, results: seq<bool>): seq<Request>
    requires |results| == |calls|
  {
    if calls == [] then []
    else (if calls[0].SendCall? && results[0] then [calls[0].request] else []) + Accepted(calls[1..], results[1..])
  }

  lemma {:induction false} AcceptedNext(calls: seq<Call>, results: seq<bool>, k: nat, result: bool)
    requires k == |results| < |calls|
    ensures Accepted(calls[..k + 1], results + [result]) ==
            Accepted(calls[..k], results) + if calls[k].SendCall? && result then [calls[k].request] else []
  {
    if k > 0 {
      AcceptedNext(calls[1..], results[1..], k - 1, result);
      assert calls[1..][..k] == calls[..k + 1][1..] && calls[1..][..k - 1] == calls[..k][1..];
      assert (results + [result])[1..] == results[1..] + [result];
    }
  }

  /** Any run of calls on an open socket, where no call of `socketio_dowork` meets a hard error: the bytes handed to
      the socket, followed by the queued ones, are the accepted buffers in order, whatever the lengths of the partial
      sends; and the callbacks called are those of the accepted requests whose last byte is out, each once and in
      order. */
  method Run(calls: seq<Call>) returns (io: SocketIo, results: seq<bool>)
    requires forall i, a :: 0 <= i < |calls| && calls[i].DoWorkCall? && a in calls[i].answers ==> !a.Fails?
    ensures |results| == |calls| && fresh(io) && io.Valid() && io.ioState == Open
    ensures io.wire + Flatten(io.pending) == Flatten(Accepted(calls, results))
    ensures io.accepted == Accepted(calls, results) && io.done <= |io.accepted|
    ensures io.completed == Callbacks(io.accepted[..io.done])
    ensures |Flatten(io.accepted[..io.done])| <= |io.wire|
    ensures io.done < |io.accepted| ==> |io.wire| < |Flatten(io.accepted[..io.done + 1])|
  {
    hide Consistent, Callbacks, Flatten, Drain;
    io := new SocketIo();
    results := [];
    assert calls[..0] == [];
    while |results| < |calls|
      invariant |results| <= |calls| && fresh(io) && io.Valid() && io.ioState == Open
      invariant io.accepted == Accepted(calls[..|results|], results)
    {
      var call, result := calls[|results|], true;
      match call {
        case SendCall(request, answer) => result := io.Send(request.data, request.callback, answer);
        case DoWorkCall(answers) =>
          DrainConserves(io.pending, answers);
          io.DoWork(answers);
      }
      AcceptedNext(calls, results, |results|, result);
      results := results + [result];
    }
    assert calls[..|results|] == calls;
    Conservation(io.accepted, io.done, io.pending, io.wire, io.completed);
    CompletedAreSent(io.accepted, io.done, io.pending, io.wire, io.completed);
  }
}
