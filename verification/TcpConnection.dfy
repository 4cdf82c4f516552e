/** The output side of a connection: a socket written directly while nothing is buffered, an output
    buffer drained under write interest, half-close on request, and close. Every method is one
    step of the loop thread; the results of system calls are parameters. */
module TcpConnections {
  import opened Buffers

  datatype ConnState = Disconnected | Connecting | Connected | Disconnecting

  /** What ::write does to a message: takes some bytes, or fails. A fault is EPIPE or ECONNRESET. */
  datatype WriteResult = Wrote(n: nat) | WouldBlock | Fault | OtherError

  /** The bits of `revents_` that the channel looks at. */
  datatype Ready = Ready(hup: bool, err: bool, input: bool, pri: bool, output: bool)

  /** What a message callback may do: send, or shut down. */
  datatype Action = Reply(message: string, result: WriteResult, beyond: char) | HangUp

  /** The socket takes no more than it is given. */
  predicate Possible(a: Action) { a.Reply? && a.result.Wrote? ==> a.result.n <= |a.message| }

  // ---- what the events come to ----------------------------------------------------------------

  /** A connection from outside: its state, its interest in reading, what the socket has taken, and
      what waits in the output buffer. */
  datatype View = View(state: ConnState, reading: bool, wire: string, left: string)

  /** Where a send goes: how full the buffer may get before it keeps anything. */
  datatype Limits = Limits(mark: nat, callback: bool)

  /** The bytes of a send that the socket takes, if it is written directly. */
  function Took(message: string, result: WriteResult): string {
    if result.Wrote? && result.n <= |message| then message[..result.n] else ""
  }

  /** A send that is kept: it meets a fault and reaches the mark. */
  predicate IsKept(l: Limits, message: string, result: WriteResult) {
    result.Fault? && l.callback && 0 < l.mark <= |message| + 1
  }

  function AfterSend(l: Limits, v: View, message: string, result: WriteResult, beyond: char): View {
    if v.state.Disconnected? || v.left != "" then v
    else v.(wire := v.wire + Took(message, result),
            left := if IsKept(l, message, result) then message + [beyond] else "")
  }

  lemma SendIs(l: Limits, v: View, message: string, result: WriteResult, beyond: char)
    requires result.Wrote? ==> result.n <= |message|
    ensures var u := AfterSend(l, v, message, result, beyond);
            message != "" ==>
              (u.wire + u.left == v.wire + v.left + message <==>
               !v.state.Disconnected? && v.left == "" && result == Wrote(|message|))
  {
    var u := AfterSend(l, v, message, result, beyond);
    if u.wire + u.left == v.wire + v.left + message && !v.state.Disconnected? && v.left == "" {
      assert |u.wire + u.left| == |v.wire| + |message|;
    }
  }

  /** The first hang-up of a callback, or the end. */
  function FirstHangUp(actions: seq<Action>): (r: nat)
    ensures r <= |actions| && forall i :: 0 <= i < r ==> actions[i].Reply?
    ensures r < |actions| ==> actions[r].HangUp?
  {
    if actions == [] || actions[0].HangUp? then 0 else 1 + FirstHangUp(actions[1..])
  }

  /** The first reply that is kept, or the end. */
  function FirstKept(l: Limits, replies: seq<Action>): (r: nat)
    requires forall i :: 0 <= i < |replies| ==> replies[i].Reply?
    ensures r <= |replies| && forall i :: 0 <= i < r ==> !IsKept(l, replies[i].message, replies[i].result)
    ensures r < |replies| ==> IsKept(l, replies[r].message, replies[r].result)
  {
    if replies == [] || IsKept(l, replies[0].message, replies[0].result) then 0 else 1 + FirstKept(l, replies[1..])
  }

  /** What the socket takes of replies that are all written directly, in order. */
  function TookAll(replies: seq<Action>): string
    requires forall i :: 0 <= i < |replies| ==> replies[i].Reply?
  {
    if replies == [] then ""
    else
      var last := replies[|replies| - 1];
      TookAll(replies[..|replies| - 1]) + Took(last.message, last.result)
  }

  /** A message callback, exactly. On a connected connection with nothing buffered the socket gets what
      it takes of the replies in front of the first hang-up, up to the first one that is kept, which
      is what waits then. A hang-up makes a connected connection disconnect, and closes the write
      side if nothing waits. On any other connection nothing happens. */
  function AfterCallback(l: Limits, v: View, actions: seq<Action>): (View, bool) {
    if !v.state.Connected? then (v, false) else
    var h := FirstHangUp(actions);
    var replies := actions[..h];
    var k := FirstKept(l, replies);
    var wire := if v.left == "" then v.wire + TookAll(replies[..k]) else v.wire;
    var left := if v.left == "" && k < h then replies[k].message + [replies[k].beyond] else v.left;
    if h == |actions| then (View(Connected, v.reading, wire, left), false)
    else (View(Disconnecting, v.reading, wire, left), left == "")
  }

  lemma {:induction false} HangUpSnoc(actions: seq<Action>, a: Action)
    ensures FirstHangUp(actions + [a]) ==
            if FirstHangUp(actions) < |actions| || a.HangUp? then FirstHangUp(actions) else |actions| + 1
  {
    var r, r' := FirstHangUp(actions), FirstHangUp(actions + [a]);
    assert forall i :: 0 <= i < |actions| ==> (actions + [a])[i] == actions[i];
    assert (actions + [a])[|actions|] == a;
  }

  lemma {:induction false} KeptSnoc(l: Limits, replies: seq<Action>, a: Action)
    requires a.Reply? && forall i :: 0 <= i < |replies| ==> replies[i].Reply?
    ensures forall i :: 0 <= i < |replies + [a]| ==> (replies + [a])[i].Reply?
    ensures var k := FirstKept(l, replies);
            FirstKept(l, replies + [a]) ==
            if k < |replies| || IsKept(l, a.message, a.result) then k else |replies| + 1
  {
    var r, r' := FirstKept(l, replies), FirstKept(l, replies + [a]);
    assert forall i :: 0 <= i < |replies| ==> (replies + [a])[i] == replies[i];
    assert (replies + [a])[|replies|] == a;
  }

  lemma TookSnoc(replies: seq<Action>, a: Action)
    requires a.Reply? && forall i :: 0 <= i < |replies| ==> replies[i].Reply?
    ensures forall i :: 0 <= i < |replies + [a]| ==> (replies + [a])[i].Reply?
    ensures TookAll(replies + [a]) == TookAll(replies) + Took(a.message, a.result)
  {
    assert (replies + [a])[..|replies|] == replies;
  }

  /** One more action, as send and shutdown do it. */
  lemma CallbackSnoc(l: Limits, v: View, actions: seq<Action>, a: Action)
    ensures var (u, closed) := AfterCallback(l, v, actions);
            AfterCallback(l, v, actions + [a]) ==
            match a
            case Reply(message, result, beyond) =>
              (if u.state.Connected? then AfterSend(l, u, message, result, beyond) else u, closed)
            case HangUp => if u.state.Connected? then (u.(state := Disconnecting), u.left == "") else (u, closed)
  {
    HangUpSnoc(actions, a);
    var h := FirstHangUp(actions);
    assert (actions + [a])[..h] == actions[..h];
    if v.state.Connected? && h == |actions| && a.Reply? {
      assert actions[..h] == actions && (actions + [a])[..h + 1] == actions + [a];
      if FirstKept(l, actions) == |actions| {
        ReplyBehindTaken(l, v, actions, a);
      } else {
        ReplyBehindKept(l, v, actions, a);
      }
    }
  }

  /** The same for a reply behind replies, none of which is kept, ... */
  lemma ReplyBehindTaken(l: Limits, v: View, replies: seq<Action>, a: Action)
    requires a.Reply? && v.state.Connected? && forall i :: 0 <= i < |replies| ==> replies[i].Reply?
    requires FirstHangUp(replies) == |replies| && FirstHangUp(replies + [a]) == |replies| + 1
    requires FirstKept(l, replies) == |replies|
    ensures AfterCallback(l, v, replies + [a]) ==
            (AfterSend(l, AfterCallback(l, v, replies).0, a.message, a.result, a.beyond), false)
  {
    AllTaken(l, v, replies);
    OneMoreTaken(l, v, replies, a);
    hide AfterCallback, FirstHangUp, FirstKept, TookAll;
  }

  lemma AllTaken(l: Limits, v: View, replies: seq<Action>)
    requires v.state.Connected? && forall i :: 0 <= i < |replies| ==> replies[i].Reply?
    requires FirstHangUp(replies) == |replies| && FirstKept(l, replies) == |replies|
    ensures AfterCallback(l, v, replies) ==
            (if v.left != "" then v else View(Connected, v.reading, v.wire + TookAll(replies), ""), false)
  {
    RepliesOnly(l, v, replies);
    assert replies[..|replies|] == replies;
    hide AfterCallback, FirstHangUp, FirstKept, TookAll;
  }

  lemma OneMoreTaken(l: Limits, v: View, replies: seq<Action>, a: Action)
    requires a.Reply? && v.state.Connected? && forall i :: 0 <= i < |replies| ==> replies[i].Reply?
    requires FirstHangUp(replies + [a]) == |replies| + 1 && FirstKept(l, replies) == |replies|
    ensures AfterCallback(l, v, replies + [a]) ==
            (if v.left != "" then v
             else View(Connected, v.reading, v.wire + TookAll(replies) + Took(a.message, a.result),
                       if IsKept(l, a.message, a.result) then a.message + [a.beyond] else ""), false)
  {
    KeptSnoc(l, replies, a);
    RepliesOnly(l, v, replies + [a]);
    TookSnoc(replies, a);
    BehindAll(replies, a);
    hide AfterCallback, FirstHangUp, FirstKept, TookAll;
    assert IsKept(l, a.message, a.result) ==> Took(a.message, a.result) == "";
    Joined(v.wire, TookAll(replies), Took(a.message, a.result));
  }

  lemma Joined(a: string, b: string, c: string)
    ensures a + (b + c) == a + b + c && a + b + "" == a + b
  {
  }

  lemma BehindAll(replies: seq<Action>, a: Action)
    ensures replies[..|replies|] == replies
    ensures (replies + [a])[..|replies|] == replies && (replies + [a])[..|replies| + 1] == replies + [a]
  {
  }

  /** ... and one of which is kept. */
  lemma ReplyBehindKept(l: Limits, v: View, replies: seq<Action>, a: Action)
    requires a.Reply? && v.state.Connected? && forall i :: 0 <= i < |replies| ==> replies[i].Reply?
    requires FirstHangUp(replies) == |replies| && FirstHangUp(replies + [a]) == |replies| + 1
    requires FirstKept(l, replies) < |replies|
    ensures AfterCallback(l, v, replies + [a]) ==
            (AfterSend(l, AfterCallback(l, v, replies).0, a.message, a.result, a.beyond), false)
  {
    var k := FirstKept(l, replies);
    KeptSnoc(l, replies, a);
    RepliesOnly(l, v, replies);
    RepliesOnly(l, v, replies + [a]);
    assert (replies + [a])[..k] == replies[..k] && (replies + [a])[k] == replies[k];
    hide AfterCallback, FirstHangUp, FirstKept, TookAll;
  }

  lemma RepliesOnly(l: Limits, v: View, replies: seq<Action>)
    requires v.state.Connected? && forall i :: 0 <= i < |replies| ==> replies[i].Reply?
    requires FirstHangUp(replies) == |replies|
    ensures var k := FirstKept(l, replies);
            AfterCallback(l, v, replies) ==
            (if v.left != "" then v
             else View(Connected, v.reading, v.wire + TookAll(replies[..k]),
                       if k < |replies| then replies[k].message + [replies[k].beyond] else ""), false)
  {
    assert replies[..|replies|] == replies;
  }

  function AfterClose(v: View): View { v.(state := Disconnected, reading := false) }

  function AfterRead(l: Limits, v: View, result: int, actions: seq<Action>): (View, bool) {
    if result > 0 then AfterCallback(l, v, actions) else if result == 0 then (AfterClose(v), false) else (v, false)
  }

  /** The write part of a dispatch, which finds write interest exactly if bytes wait and the
      connection is in use. */
  function AfterWrite(v: View, result: int): (View, bool) {
    var n := if v.state.Disconnected? || result < 0 then 0 else if result <= |v.left| then result else |v.left|;
    (v.(wire := v.wire + v.left[..n], left := v.left[n..]), n > 0 && n == |v.left| && v.state.Disconnecting?)
  }

  /** A dispatch up to its write part. */
  function AfterInput(l: Limits, v: View, ready: Ready, readResult: int, actions: seq<Action>): (View, bool) {
    var v1 := if ready.hup && !ready.input then AfterClose(v) else v;
    if ready.input || ready.pri then AfterRead(l, v1, readResult, actions) else (v1, false)
  }

  function AfterDispatch(l: Limits, v: View, ready: Ready, readResult: int, actions: seq<Action>, writeResult: int)
    : (View, bool)
  {
    var (v1, closed) := AfterInput(l, v, ready, readResult, actions);
    var (v2, closedNow) := if ready.output then AfterWrite(v1, writeResult) else (v1, false);
    (v2, closed || closedNow)
  }

  class TcpConnection {
    var state: ConnState
    /** The channel's interest. */
    var reading: bool
    var writing: bool
    const output: Buffer
    var highWaterMark: nat
    var hasHighWaterCallback: bool

    /** The bytes the socket has taken. */
    var wire: string
    /** The bytes ever put into the output buffer, and those written from it. */
    ghost var buffered: string
    ghost var drained: string

    /** Outside Disconnected, write interest says exactly whether bytes wait; the buffer is drained
        in the order it was filled; and a disconnected channel is interested in nothing. */
    ghost predicate Valid()
      reads this, output, output.buffer
    {
      && output.Valid()
      && buffered == drained + output.Contents()
      && (state != Disconnected ==> (writing <==> output.Contents() != ""))
      && (state == Disconnected ==> !writing && !reading)
    }

    ghost function Look(): View
      requires output.Valid()
      reads this, output, output.buffer
    {
      View(state, reading, wire, output.Contents())
    }

    ghost function Limit(): Limits
      reads this`highWaterMark, this`hasHighWaterCallback
    {
      Limits(highWaterMark, hasHighWaterCallback)
    }

    constructor (mark: nat, callback: bool)
      ensures Valid() && state == Connecting && wire == "" && output.Contents() == ""
      ensures fresh(output) && fresh(output.buffer)
      ensures highWaterMark == mark && hasHighWaterCallback == callback
    {
      state, reading, writing := Connecting, false, false;
      output := new Buffer(1024);
      highWaterMark, hasHighWaterCallback := mark, callback;
      wire, buffered, drained := "", "", "";
    }

    /** connectionEstablished, called once, right after construction. */
    method ConnectionEstablished()
      requires Valid() && state == Connecting
      modifies this`state, this`reading
      ensures Valid() && state == Connected && reading
    {
      state, reading := Connected, true;
    }

    /** sendInLoop. A failed write leaves `remaining` at one more than the length, so what is kept is
        the message and the byte `beyond` behind it; without a fault nothing is kept at all. So a message
        gets through whole if and only if nothing waits and the socket takes all of it at once. */
    method SendInLoop(message: string, result: WriteResult, beyond: char)
      requires Valid()
      requires result.Wrote? ==> result.n <= |message|
      modifies this`wire, this`buffered, this`writing, output, output.buffer
      ensures Valid() && (fresh(output.buffer) || output.buffer == old(output.buffer))
      ensures var direct := old(state != Disconnected && !writing && output.Contents() == "");
              && wire == old(wire) + (if direct && result.Wrote? then message[..result.n] else "")
              && output.Contents() == old(output.Contents()) +
                   (if direct && result.Fault? && hasHighWaterCallback && 0 < highWaterMark <= |message| + 1
                    then message + [beyond] else "")
      ensures Look() == AfterSend(Limit(), old(Look()), message, result, beyond)
      ensures message != "" ==>
                (wire + output.Contents() == old(wire) + old(output.Contents()) + message <==>
                 old(state != Disconnected && !writing && output.Contents() == "") && result == Wrote(|message|))
    {
      SendIs(Limit(), Look(), message, result, beyond);
      var remaining := |message|;
      var fault := false;
      if state == Disconnected {
        return;
      }
      if !writing && output.ReadableBytes() == 0 {
        remaining, fault := WriteDirect(message, result);
      }
      if fault && remaining > 0 {
        var oldLen := output.ReadableBytes();
        if oldLen + remaining >= highWaterMark && oldLen < highWaterMark && hasHighWaterCallback {
          Keep(message + [beyond]);
        }
      }
    }

    /** The write of the whole message. */
    method WriteDirect(message: string, result: WriteResult) returns (remaining: nat, fault: bool)
      requires result.Wrote? ==> result.n <= |message|
      modifies this`wire
      ensures wire == old(wire) + Took(message, result) && fault == result.Fault?
      ensures remaining == if result.Wrote? then |message| - result.n else |message| + 1
    {
      match result {
        case Wrote(n) =>
          wire := wire + message[..n];
          return |message| - n, false;
        case WouldBlock => return |message| + 1, false;
        case OtherError => return |message| + 1, false;
        case Fault => return |message| + 1, true;
      }
    }

    /** Bytes that are left join the output buffer, and the channel becomes interested in writing. */
    method Keep(bytes: string)
      requires Valid() && state != Disconnected && bytes != ""
      modifies this`buffered, this`writing, output, output.buffer
      ensures Valid() && (fresh(output.buffer) || output.buffer == old(output.buffer))
      ensures output.Contents() == old(output.Contents()) + bytes
    {
      Joined(drained, output.Contents(), bytes);
      output.Append(bytes);
      buffered := buffered + bytes;
      if !writing {
        writing := true;
      }
    }

    /** send: from the loop thread at once, from any other by queueing sendInLoop, which then runs
        whatever the state has become. */
    method Send(message: string, result: WriteResult, beyond: char, inLoop: bool) returns (queued: bool)
      requires Valid()
      requires result.Wrote? ==> result.n <= |message|
      modifies this`wire, this`buffered, this`writing, output, output.buffer
      ensures Valid() && (fresh(output.buffer) || output.buffer == old(output.buffer))
      ensures queued == (state == Connected && !inLoop)
      ensures Look() == if old(state) == Connected && inLoop
                        then AfterSend(Limit(), old(Look()), message, result, beyond) else old(Look())
      ensures var direct := old(state == Connected && inLoop && output.Contents() == "");
              && wire == old(wire) + (if direct && result.Wrote? then message[..result.n] else "")
              && output.Contents() == old(output.Contents()) +
                   (if direct && result.Fault? && hasHighWaterCallback && 0 < highWaterMark <= |message| + 1
                    then message + [beyond] else "")
    {
      hide AfterSend;
      queued := state == Connected && !inLoop;
      if state == Connected && inLoop {
        SendInLoop(message, result, beyond);
      }
    }

    /** shutdown, the part before the functor runs. */
    method Shutdown() returns (queue: bool)
      requires Valid()
      modifies this`state
      ensures Valid() && queue == (old(state) == Connected)
      ensures state == if queue then Disconnecting else old(state)
    {
      queue := state == Connected;
      if queue {
        state := Disconnecting;
      }
    }

    /** shutdownInLoop, whenever the functor runs: the write side is closed over buffered bytes if and
        only if there are some and the connection is disconnected; otherwise it is closed only behind
        the last of them. */
    method ShutdownInLoop() returns (closed: bool)
      requires Valid()
      ensures closed <==> !writing
      ensures closed && output.Contents() != "" <==> state == Disconnected && output.Contents() != ""
      ensures closed && state != Disconnected ==> output.Contents() == "" && drained == buffered
    {
      closed := !writing;
    }

    /** writeFd that takes `n` bytes, and retrieve. */
    method WriteOut(n: nat)
      requires output.Valid() && n <= |output.Contents()| && buffered == drained + output.Contents()
      modifies this`wire, this`drained, output`readerIndex, output`writerIndex
      ensures output.Valid() && buffered == drained + output.Contents()
      ensures wire == old(wire) + old(output.Contents())[..n] && drained == old(drained) + old(output.Contents())[..n]
      ensures output.Contents() == old(output.Contents())[n..]
    {
      ghost var was := output.Contents();
      var taken := output.RetrieveAsString(n);
      FrontTaken(drained, was, taken, output.Contents());
      wire, drained := wire + taken, drained + taken;
    }

    /** handleWrite, with `result` the return value of the write of the whole buffer. */
    method HandleWrite(result: int) returns (closed: bool)
      requires Valid()
      requires result <= |output.Contents()|
      modifies this`wire, this`drained, this`writing, output`readerIndex, output`writerIndex
      ensures Valid() && output.buffer == old(output.buffer)
      ensures var n := if old(writing) && result > 0 then result else 0;
              && wire == old(wire) + old(output.Contents())[..n]
              && drained == old(drained) + old(output.Contents())[..n]
              && output.Contents() == old(output.Contents())[n..]
      ensures closed <==> old(writing) && result > 0 && output.Contents() == "" && state == Disconnecting
      ensures closed ==> drained == buffered
      ensures (Look(), closed) == AfterWrite(old(Look()), result)
    {
      closed := false;
      if writing {
        if result > 0 {
          WriteOut(result);
          if output.ReadableBytes() == 0 {
            writing := false;
            if state == Disconnecting {
              closed := ShutdownInLoop();
            }
          }
        }
      }
    }

    /** handleClose, and connnectionDestroyed, whose test of the state is an assignment. */
    method HandleClose()
      requires Valid()
      modifies this`state, this`reading, this`writing
      ensures Valid() && state == Disconnected
    {
      state, reading, writing := Disconnected, false, false;
    }

    /** What the user's message callback does with the connection, in order. In the loop thread a
        shutdown closes the write side at once, if nothing is buffered. */
    method RunCallback(actions: seq<Action>) returns (closed: bool)
      requires Valid()
      requires forall a :: a in actions ==> Possible(a)
      modifies this`state, this`wire, this`buffered, this`writing, output, output.buffer
      ensures Valid() && (fresh(output.buffer) || output.buffer == old(output.buffer))
      ensures (Look(), closed) == AfterCallback(Limit(), old(Look()), actions)
    {
      hide AfterCallback, FirstHangUp, FirstKept, TookAll;
      closed := false;
      ghost var start := Look();
      CallbackStarts(Limit(), start);
      for i := 0 to |actions|
        invariant Valid() && (fresh(output.buffer) || output.buffer == old(output.buffer))
        invariant (Look(), closed) == AfterCallback(Limit(), start, actions[..i])
      {
        assert actions[i] in actions && actions[..i] + [actions[i]] == actions[..i + 1];
        CallbackSnoc(Limit(), start, actions[..i], actions[i]);
        match actions[i] {
          case Reply(message, result, beyond) =>
            var queued := Send(message, result, beyond, true);
          case HangUp =>
            var now := Shutdown();
            if now {
              closed := ShutdownInLoop();
            }
        }
      }
      assert actions[..|actions|] == actions;
    }

    /** handleRead, with `result` what readFd returned, and what the message callback does. */
    method HandleRead(result: int, actions: seq<Action>) returns (closed: bool)
      requires Valid()
      requires forall a :: a in actions ==> Possible(a)
      modifies this`state, this`reading, this`writing, this`wire, this`buffered, output, output.buffer
      ensures Valid() && (fresh(output.buffer) || output.buffer == old(output.buffer))
      ensures (Look(), closed) == AfterRead(Limit(), old(Look()), result, actions)
    {
      hide AfterCallback;
      closed := false;
      if result > 0 {
        closed := RunCallback(actions);
      } else if result == 0 {
        HandleClose();
      }
    }

    /** handlelEvent, while the guard holds the connection: close, error, read, write, in this order. A
        dispatch that closes the connection, by a hang-up or by reading its end, writes nothing any
        more; one that closes the write side has nothing left to write. */
    method HandleEvent(ready: Ready, readResult: int, actions: seq<Action>, writeResult: int) returns (closed: bool)
      requires Valid()
      requires forall a :: a in actions ==> Possible(a)
      modifies this`state, this`reading, this`writing, this`wire, this`buffered, this`drained, output, output.buffer
      ensures Valid() && (fresh(output.buffer) || output.buffer == old(output.buffer))
      ensures (Look(), closed) == AfterDispatch(Limit(), old(Look()), ready, readResult, actions, writeResult)
      ensures state == Disconnected <==>
              || old(state) == Disconnected || (ready.hup && !ready.input)
              || ((ready.input || ready.pri) && readResult == 0)
      ensures state == Disconnected ==> wire == old(wire) && !closed
      ensures closed ==> drained == buffered && output.Contents() == ""
      ensures old(wire) <= wire
    {
      DispatchKeeps(Limit(), Look(), ready, readResult, actions, writeResult);
      hide AfterDispatch;
      closed := HandleEventWithGuard(ready, readResult, actions, writeResult);
    }

    method HandleEventWithGuard(ready: Ready, readResult: int, actions: seq<Action>, writeResult: int)
      returns (closed: bool)
      requires Valid()
      requires forall a :: a in actions ==> Possible(a)
      modifies this`state, this`reading, this`writing, this`wire, this`buffered, this`drained, output, output.buffer
      ensures Valid() && (fresh(output.buffer) || output.buffer == old(output.buffer))
      ensures (Look(), closed) == AfterDispatch(Limit(), old(Look()), ready, readResult, actions, writeResult)
    {
      hide AfterInput, AfterWrite;
      closed := HandleInput(ready, readResult, actions);
      if ready.output {
        var left := output.ReadableBytes();
        WriteIsCut(Look(), writeResult);
        var closedNow := HandleWrite(if writeResult <= left then writeResult else left);
        closed := closed || closedNow;
      }
    }

    /** The close and read parts. */
    method HandleInput(ready: Ready, readResult: int, actions: seq<Action>) returns (closed: bool)
      requires Valid()
      requires forall a :: a in actions ==> Possible(a)
      modifies this`state, this`reading, this`writing, this`wire, this`buffered, output, output.buffer
      ensures Valid() && (fresh(output.buffer) || output.buffer == old(output.buffer))
      ensures (Look(), closed) == AfterInput(Limit(), old(Look()), ready, readResult, actions)
    {
      hide AfterRead;
      if ready.hup && !ready.input {
        HandleClose();
      }
      closed := false;
      if ready.input || ready.pri {
        closed := HandleRead(readResult, actions);
      }
    }
  }

  lemma WriteIsCut(v: View, result: int)
    ensures AfterWrite(v, if result <= |v.left| then result else |v.left|) == AfterWrite(v, result)
  {
  }

  lemma CallbackStarts(l: Limits, v: View)
    ensures AfterCallback(l, v, []) == (v, false)
  {
    var none: seq<Action> := [];
    assert none[..0] == none;
    assert v.wire + "" == v.wire;
  }

  lemma DispatchKeeps(l: Limits, v: View, ready: Ready, readResult: int, actions: seq<Action>, writeResult: int)
    ensures var (u, closed) := AfterDispatch(l, v, ready, readResult, actions, writeResult);
            && v.wire <= u.wire && (closed ==> u.left == "")
            && (u.state.Disconnected? <==>
                  || v.state.Disconnected? || (ready.hup && !ready.input)
                  || ((ready.input || ready.pri) && readResult == 0))
            && (u.state.Disconnected? ==> u.wire == v.wire && u.left == v.left && !closed)
  {
  }

  lemma FrontTaken(before: string, was: string, taken: string, rest: string)
    requires taken + rest == was
    ensures taken == was[..|taken|] && rest == was[|taken|..] && before + taken + rest == before + was
  {
  }

  // ---- whole runs -----------------------------------------------------------------------------

  datatype Event =
    | Sent(message: string, result: WriteResult, beyond: char)  // sendInLoop, direct or queued
    | AskShutdown
    | RunShutdown                                               // the queued shutdownInLoop
    | Dispatch(ready: Ready, readResult: int, actions: seq<Action>, writeResult: int)
    | Destroy

  predicate PossibleEvent(e: Event) {
    && (e.Sent? && e.result.Wrote? ==> e.result.n <= |e.message|)
    && (e.Dispatch? ==> forall a :: a in e.actions ==> Possible(a))
  }

  function AfterEvent(l: Limits, v: View, e: Event): View {
    match e
    case Sent(message, result, beyond) => AfterSend(l, v, message, result, beyond)
    case AskShutdown => if v.state.Connected? then v.(state := Disconnecting) else v
    case RunShutdown => v
    case Dispatch(ready, readResult, actions, writeResult) =>
      AfterDispatch(l, v, ready, readResult, actions, writeResult).0
    case Destroy => AfterClose(v)
  }

  /** The bytes that an event hands to the connection for good: what the socket takes of a direct send or
      reply, and the text of the one that is kept. */
  function Given(l: Limits, v: View, e: Event): string {
    if v.state.Disconnected? || v.left != "" then ""
    else
      match e
      case Sent(message, result, beyond) =>
        Took(message, result) + if IsKept(l, message, result) then message + [beyond] else ""
      case Dispatch(ready, readResult, actions, _) =>
        if !v.state.Connected? || readResult <= 0 || !(ready.input || ready.pri) || (ready.hup && !ready.input) then ""
        else CallbackGives(l, actions)
      case _ => ""
  }

  function CallbackGives(l: Limits, actions: seq<Action>): string {
    var replies := actions[..FirstHangUp(actions)];
    var k := FirstKept(l, replies);
    TookAll(replies[..k]) + if k < |replies| then replies[k].message + [replies[k].beyond] else ""
  }

  lemma CallbackConserves(l: Limits, v: View, actions: seq<Action>)
    ensures var u := AfterCallback(l, v, actions).0;
            u.wire + u.left ==
            v.wire + v.left + if v.state.Connected? && v.left == "" then CallbackGives(l, actions) else ""
  {
    var replies := actions[..FirstHangUp(actions)];
    var k := FirstKept(l, replies);
    var kept := if k < |replies| then replies[k].message + [replies[k].beyond] else "";
    Joined(v.wire, TookAll(replies[..k]), kept);
    hide FirstHangUp, FirstKept, TookAll;
    assert v.left == "" ==> v.wire + v.left == v.wire;
    assert v.wire + v.left + "" == v.wire + v.left;
  }

  /** Conservation: what has gone out, and behind it what waits, grows by exactly that. */
  lemma EventConserves(l: Limits, v: View, e: Event)
    ensures AfterEvent(l, v, e).wire + AfterEvent(l, v, e).left == v.wire + v.left + Given(l, v, e)
  {
    match e
    case Sent(message, result, beyond) => SendConserves(l, v, message, result, beyond);
    case Dispatch(ready, readResult, actions, writeResult) =>
      InputConserves(l, v, ready, readResult, actions, writeResult);
      WriteConserves(AfterInput(l, v, ready, readResult, actions).0, writeResult);
      hide AfterInput, AfterWrite, Given;
    case _ =>
  }

  lemma SendConserves(l: Limits, v: View, message: string, result: WriteResult, beyond: char)
    ensures var u := AfterSend(l, v, message, result, beyond);
            u.wire + u.left == v.wire + v.left + Given(l, v, Sent(message, result, beyond))
  {
    var kept := if IsKept(l, message, result) then message + [beyond] else "";
    Joined(v.wire, Took(message, result), kept);
    assert v.left == "" ==> v.wire + v.left == v.wire;
    assert v.wire + v.left + "" == v.wire + v.left;
  }

  lemma InputConserves(l: Limits, v: View, ready: Ready, readResult: int, actions: seq<Action>, writeResult: int)
    ensures var u := AfterInput(l, v, ready, readResult, actions).0;
            u.wire + u.left == v.wire + v.left + Given(l, v, Dispatch(ready, readResult, actions, writeResult))
  {
    CallbackConserves(l, if ready.hup && !ready.input then AfterClose(v) else v, actions);
    hide AfterCallback, CallbackGives;
    assert v.wire + v.left + "" == v.wire + v.left;
  }

  lemma WriteConserves(v: View, result: int)
    ensures AfterWrite(v, result).0.wire + AfterWrite(v, result).0.left == v.wire + v.left
  {
    var n := if v.state.Disconnected? || result < 0 then 0 else if result <= |v.left| then result else |v.left|;
    assert v.left[..n] + v.left[n..] == v.left;
    Joined(v.wire, v.left[..n], v.left[n..]);
  }

  /** The event closes a connection, or asks a connected one to shut down. */
  predicate ClosesIt(e: Event) {
    match e
    case Destroy => true
    case Dispatch(ready, readResult, _, _) =>
      (ready.hup && !ready.input) || ((ready.input || ready.pri) && readResult == 0)
    case _ => false
  }

  predicate AsksIt(e: Event) {
    match e
    case AskShutdown => true
    case Dispatch(ready, readResult, actions, _) =>
      (ready.input || ready.pri) && readResult > 0 && exists a :: a in actions && a.HangUp?
    case _ => false
  }

  /** The state after an event, exactly: disconnected if it was or the event closes it; otherwise
      disconnecting if it was, or was connected and the event asks for it; otherwise as before. */
  lemma EventStates(l: Limits, v: View, e: Event)
    ensures AfterEvent(l, v, e).state ==
            if v.state.Disconnected? || ClosesIt(e) then Disconnected
            else if v.state.Connected? && AsksIt(e) then Disconnecting
            else v.state
  {
    if e.Dispatch? {
      var h := FirstHangUp(e.actions);
      assert h < |e.actions| ==> e.actions[h] in e.actions;
      assert h == |e.actions| ==> forall a :: a in e.actions ==> a.Reply?;
      hide FirstHangUp, FirstKept, TookAll, AfterSend;
    }
  }

  function GivenAll(l: Limits, trace: seq<View>, events: seq<Event>): string
    requires |trace| >= |events|
  {
    if events == [] then ""
    else
      var n := |events| - 1;
      GivenAll(l, trace[..n], events[..n]) + Given(l, trace[n], events[n])
  }

  /** What a connection looks like before, between and after the events. */
  ghost predicate IsTrace(l: Limits, trace: seq<View>, events: seq<Event>) {
    && |trace| == |events| + 1 && trace[0] == View(Connected, true, "", "")
    && forall i :: 0 <= i < |events| ==> trace[i + 1] == AfterEvent(l, trace[i], events[i])
  }

  /** Conservation over every series of events: what has gone out, and behind it what waits, are the bytes
      that the events have handed over, in order. */
  lemma {:induction false} TraceConserves(l: Limits, trace: seq<View>, events: seq<Event>)
    requires IsTrace(l, trace, events)
    ensures var last := trace[|events|];
            last.wire + last.left == GivenAll(l, trace[..|events|], events)
    decreases |events|
  {
    hide AfterEvent, Given;
    if events != [] {
      var n := |events| - 1;
      assert IsTrace(l, trace[..n + 1], events[..n]);
      TraceConserves(l, trace[..n + 1], events[..n]);
      EventConserves(l, trace[n], events[n]);
      assert trace[..n + 1][..n] == trace[..n] && trace[..n + 1][n] == trace[n];
      assert trace[..|events|][..n] == trace[..n];
    }
  }

  /** Every series of events on a fresh connection: `trace` is what it looks like before, between and
      after them; `early` would report a write side closed over buffered bytes of a connection still in
      use, and `wireAtClose` is what the socket had taken when the connection was closed. */
  method RunConnection(mark: nat, callback: bool, events: seq<Event>)
    returns (wire: string, wireAtClose: string, gone: bool, early: bool, trace: seq<View>)
    requires forall e :: e in events ==> PossibleEvent(e)
    ensures IsTrace(Limits(mark, callback), trace, events)
    ensures wire == trace[|events|].wire && (gone <==> trace[|events|].state.Disconnected?)
    ensures wire + trace[|events|].left == GivenAll(Limits(mark, callback), trace[..|events|], events)
    ensures !early
    ensures gone ==> wire == wireAtClose
  {
    hide AfterEvent, Given, GivenAll;
    var conn := new TcpConnection(mark, callback);
    conn.ConnectionEstablished();
    wireAtClose, gone, early := "", false, false;
    trace := [View(Connected, true, "", "")];
    for i := 0 to |events|
      invariant conn.Valid() && conn.Limit() == Limits(mark, callback)
      invariant fresh(conn) && fresh(conn.output) && fresh(conn.output.buffer)
      invariant |trace| == i + 1 && trace[0] == View(Connected, true, "", "") && trace[i] == conn.Look()
      invariant forall j :: 0 <= j < i ==> trace[j + 1] == AfterEvent(Limits(mark, callback), trace[j], events[j])
      invariant !early && (gone <==> conn.state == Disconnected)
      invariant gone ==> conn.wire == wireAtClose
    {
      var before := conn.wire;
      assert events[i] in events;
      var closed := RunEvent(conn, events[i]);
      if closed && conn.state != Disconnected && conn.output.ReadableBytes() != 0 {
        early := true;
      }
      if conn.state == Disconnected && !gone {
        gone, wireAtClose := true, before;
      }
      var buffer := conn.output;
      var left := buffer.buffer[buffer.readerIndex..buffer.writerIndex];
      trace := trace + [View(conn.state, conn.reading, conn.wire, left)];
    }
    TraceConserves(Limits(mark, callback), trace, events);
    wire := conn.wire;
  }

  method RunEvent(conn: TcpConnection, e: Event) returns (closed: bool)
    requires conn.Valid() && PossibleEvent(e)
    modifies conn`state, conn`reading, conn`writing, conn`wire, conn`buffered, conn`drained
    modifies conn.output, conn.output.buffer
    ensures conn.Valid() && (fresh(conn.output.buffer) || conn.output.buffer == old(conn.output.buffer))
    ensures conn.Look() == AfterEvent(conn.Limit(), old(conn.Look()), e)
    ensures closed && conn.state != Disconnected ==> conn.output.Contents() == ""
    ensures old(conn.state) == Disconnected ==> conn.state == Disconnected
    ensures conn.state == Disconnected ==> conn.wire == old(conn.wire)
  {
    hide AfterDispatch;
    closed := false;
    match e {
      case Sent(message, result, beyond) => conn.SendInLoop(message, result, beyond);
      case AskShutdown => var queue := conn.Shutdown();
      case RunShutdown => closed := conn.ShutdownInLoop();
      case Dispatch(ready, readResult, actions, writeResult) =>
        closed := conn.HandleEvent(ready, readResult, actions, writeResult);
      case Destroy => conn.HandleClose();
    }
  }

  /** The order of a dispatch: a reply that its callback has to leave in the buffer goes out in the
      write part of the same dispatch. */
  method ReplyGoesOutAtOnce(message: string) returns (wire: string, left: nat)
    ensures wire == message + "!" && left == 0
  {
    ReplyThenWrite(message);
    hide AfterDispatch;
    var e := Dispatch(Ready(false, false, true, false, true), 1, [Reply(message, Fault, '!')], |message| + 1);
    var atClose, gone, early, trace;
    wire, atClose, gone, early, trace := RunConnection(1, true, [e]);
    assert trace[1] == AfterEvent(Limits(1, true), trace[0], [e][0]);
    left := |trace[1].left|;
  }

  lemma ReplyThenWrite(message: string)
    ensures AfterDispatch(Limits(1, true), View(Connected, true, "", ""), Ready(false, false, true, false, true), 1,
                          [Reply(message, Fault, '!')], |message| + 1)
            == (View(Connected, true, message + "!", ""), false)
  {
    var l, v := Limits(1, true), View(Connected, true, "", "");
    var none: seq<Action> := [];
    var a := Reply(message, Fault, '!');
    CallbackStarts(l, v);
    CallbackSnoc(l, v, none, a);
    assert none + [a] == [a];
    var kept := v.(left := message + "!");
    assert AfterSend(l, v, message, Fault, '!') == kept by { assert "" + "" == ""; }
    assert AfterRead(l, v, 1, [a]) == (kept, false);
    assert kept.left[..|message| + 1] == kept.left && kept.left[|message| + 1..] == "" && "" + kept.left == kept.left;
    assert AfterWrite(kept, |message| + 1) == (View(Connected, true, message + "!", ""), false);
    hide AfterRead, AfterWrite;
  }

  /** The exception is real: a shutdown asked for while bytes are buffered, and run after the
      connection has been closed, closes the write side over the bytes that are left. */
  method ShutdownAfterClose(message: string) returns (closed: bool, left: nat)
    ensures closed && left == |message| + 1
  {
    var conn := new TcpConnection(1, true);
    conn.ConnectionEstablished();
    var later := conn.Send(message, Fault, '\0', true);
    var queued := conn.Shutdown();
    conn.HandleClose();
    closed := conn.ShutdownInLoop();
    left := conn.output.ReadableBytes();
  }
}
