/** The connection manager (SocketManager) run one step at a time: the
    registry of connections, the queue of message deliveries waiting for an
    invoker, the count of running invokers, and what the reader and writer
    task of a connection do. Callbacks are recorded as events, in order. */
module Manager {
  import opened Text
  import opened Framing
  import opened Connections
  import opened Heartbeat

  /** A callback made to the application. */
  datatype Event =
    | Succeeded(id: int)
    | Failed(id: int)
    | Received(id: int, content: seq<byte>)
    | Disconnected(id: int)

  /** A pending onReceiveMessage call, waiting in the queue. */
  datatype Task = Deliver(id: int, content: seq<byte>)

  const MaxInvokeThread: int := 1

  function Tasks(id: int, msgs: seq<seq<byte>>): (ts: seq<Task>) {
    seq(|msgs|, i requires 0 <= i < |msgs| => Deliver(id, msgs[i]))
  }

  lemma TasksAppend(id: int, a: seq<seq<byte>>, b: seq<seq<byte>>)
    ensures Tasks(id, a + b) == Tasks(id, a) + Tasks(id, b)
  {
    assert forall i :: 0 <= i < |a + b| ==> Tasks(id, a + b)[i] == (Tasks(id, a) + Tasks(id, b))[i];
  }

  lemma Associative<T>(a: seq<T>, b: seq<T>, c: seq<T>)
    ensures a + (b + c) == (a + b) + c
  {
  }

  /** The callbacks an invoker makes for the given tasks, in queue order. */
  function Deliveries(ts: seq<Task>): seq<Event> {
    seq(|ts|, i requires 0 <= i < |ts| => Received(ts[i].id, ts[i].content))
  }

  /** The messages of msgs that are not the heartbeat bytes, in order. */
  function NonHeartbeats(msgs: seq<seq<byte>>, response: string): (r: seq<seq<byte>>)
    requires IsAscii(response)
  {
    if msgs == [] then []
    else (if msgs[0] != Bytes(response) then [msgs[0]] else []) + NonHeartbeats(msgs[1..], response)
  }

  /** What the reader queues for one received frame: the frame itself,
      unless it is the heartbeat response. */
  function Queued(content: seq<byte>, response: string): (q: seq<seq<byte>>)
    requires IsAscii(response)
    ensures q == [] <==> content == Bytes(response)
    ensures q != [] ==> q == [content]
  {
    if Delivers(content, response) then [content] else []
  }

  /** What one reader task queues from an open stream s before its first
      failed read, and what it leaves unread. */
  function ReaderRun(s: seq<byte>, response: string): (r: (seq<seq<byte>>, seq<byte>))
    requires IsAscii(response)
    decreases |s|
  {
    var d := DecodeFrame(s);
    if d.result.Err? then ([], d.rest)
    else
      var later := ReaderRun(d.rest, response);
      (Queued(d.result.value, response) + later.0, later.1)
  }

  /** Every message the reader queues is a non-empty payload that passes the
      heartbeat filter, and it never leaves more input than it started with. */
  lemma {:induction false} ReaderRunQueues(s: seq<byte>, response: string)
    requires IsAscii(response)
    ensures forall m :: m in ReaderRun(s, response).0 ==> 1 <= |m| && Delivers(m, response)
    ensures |ReaderRun(s, response).1| <= |s|
    decreases |s|
  {
    var d := DecodeFrame(s);
    if d.result.Ok? {
      ReaderRunQueues(d.rest, response);
      ReaderRunStep(s, response);
      var now := Queued(d.result.value, response);
      assert ReaderRun(s, response).0 == now + ReaderRun(d.rest, response).0;
      assert forall m :: m in now ==> m == d.result.value && Delivers(m, response);
    }
  }

  /** One successful read: what it queues, then the rest of the run. */
  lemma ReaderRunStep(s: seq<byte>, response: string)
    requires IsAscii(response) && DecodeFrame(s).result.Ok?
    ensures ReaderRun(s, response).0 ==
              Queued(DecodeFrame(s).result.value, response) + ReaderRun(DecodeFrame(s).rest, response).0
    ensures ReaderRun(s, response).1 == ReaderRun(DecodeFrame(s).rest, response).1
  {
  }

  /** The reader run seen from the queue: starting with queue, the queue and
      the unread input once the reader stops. */
  function ReaderLoop(s: seq<byte>, response: string, id: int, queue: seq<Task>): (r: (seq<Task>, seq<byte>))
    requires IsAscii(response)
    decreases |s|
  {
    var d := DecodeFrame(s);
    if d.result.Err? then (queue, d.rest)
    else ReaderLoop(d.rest, response, id, queue + Tasks(id, Queued(d.result.value, response)))
  }

  /** The queue ends with the deliveries of what ReaderRun queues, behind
      what was already waiting. */
  lemma {:induction false} ReaderLoopRun(s: seq<byte>, response: string, id: int, queue: seq<Task>)
    requires IsAscii(response)
    ensures ReaderLoop(s, response, id, queue).0 == queue + Tasks(id, ReaderRun(s, response).0)
    ensures ReaderLoop(s, response, id, queue).1 == ReaderRun(s, response).1
    decreases |s|
  {
    var d := DecodeFrame(s);
    if d.result.Ok? {
      var now := Queued(d.result.value, response);
      ReaderLoopRun(d.rest, response, id, queue + Tasks(id, now));
      ReaderRunStep(s, response);
      TasksAppend(id, now, ReaderRun(d.rest, response).0);
      Associative(queue, Tasks(id, now), Tasks(id, ReaderRun(d.rest, response).0));
    } else {
      assert Tasks(id, []) == [];
      assert queue + [] == queue;
    }
  }

  /** FIFO per connection: the reader queues the peer's messages in the
      order they were sent, leaving out only the heartbeats. */
  lemma {:induction false} ReaderKeepsOrder(msgs: seq<seq<byte>>, response: string)
    requires IsAscii(response)
    requires forall i :: 0 <= i < |msgs| ==> 1 <= |msgs[i]| <= MaxInt
    ensures ReaderRun(EncodeAll(msgs), response) == (NonHeartbeats(msgs, response), [])
  {
    if msgs != [] {
      DecodeEncode(msgs[0], EncodeAll(msgs[1..]));
      ReaderKeepsOrder(msgs[1..], response);
    }
  }

  /** A heartbeat frame is read and dropped: nothing is queued for it. */
  lemma HeartbeatDropped(response: string, s: seq<byte>)
    requires IsAscii(response) && 1 <= |response| <= MaxInt
    ensures ReaderRun(EncodeFrame(Bytes(response)) + s, response) == ReaderRun(s, response)
  {
    DecodeEncode(Bytes(response), s);
    SkipsDecodedHeartbeat(EncodeFrame(Bytes(response)) + s, s, response);
  }

  lemma SkipsDecodedHeartbeat(f: seq<byte>, s: seq<byte>, response: string)
    requires IsAscii(response) && DecodeFrame(f) == Decoded(Ok(Bytes(response)), s)
    ensures ReaderRun(f, response) == ReaderRun(s, response)
  {
    ReaderRunStep(f, response);
    assert ReaderRun(f, response).0 == ReaderRun(s, response).0;
    assert ReaderRun(f, response).1 == ReaderRun(s, response).1;
  }

  /** The connections among the server's accept outcomes (null: that accept failed). */
  function Accepted(outcomes: seq<TdSocket?>): seq<TdSocket> {
    if outcomes == [] then []
    else
      var last := outcomes[|outcomes| - 1];
      Accepted(outcomes[..|outcomes| - 1]) + (if last != null then [last] else [])
  }

  /** The accepted connections are exactly the non-null outcomes. */
  lemma {:induction false} AcceptedOutcomes(outcomes: seq<TdSocket?>)
    ensures |Accepted(outcomes)| <= |outcomes|
    ensures forall t :: t in Accepted(outcomes) ==> t in outcomes
    ensures forall i :: 0 <= i < |outcomes| && outcomes[i] != null ==> outcomes[i] in Accepted(outcomes)
  {
    if outcomes != [] {
      var init := outcomes[..|outcomes| - 1];
      AcceptedOutcomes(init);
      assert forall i :: 0 <= i < |init| ==> init[i] == outcomes[i];
    }
  }

  /** The callbacks of the server's accept loop, one per attempt. */
  function AcceptEvents(serverId: int, outcomes: seq<TdSocket?>): seq<Event> {
    if outcomes == [] then []
    else
      var last := outcomes[|outcomes| - 1];
      AcceptEvents(serverId, outcomes[..|outcomes| - 1]) + [if last != null then Succeeded(serverId) else Failed(serverId)]
  }

  /** One callback per accept attempt: success for a connection, failure for null. */
  lemma {:induction false} AcceptEventsOutcomes(serverId: int, outcomes: seq<TdSocket?>)
    ensures |AcceptEvents(serverId, outcomes)| == |outcomes|
    ensures forall i :: 0 <= i < |outcomes| ==>
              AcceptEvents(serverId, outcomes)[i] == if outcomes[i] != null then Succeeded(serverId) else Failed(serverId)
  {
    if outcomes != [] {
      var init := outcomes[..|outcomes| - 1];
      AcceptEventsOutcomes(serverId, init);
      assert forall i :: 0 <= i < |init| ==> init[i] == outcomes[i];
    }
  }

  /** One more accept outcome extends both the connections and the callbacks. */
  lemma AcceptStep(serverId: int, outcomes: seq<TdSocket?>, i: nat)
    requires i < |outcomes|
    ensures Accepted(outcomes[..i + 1]) ==
              Accepted(outcomes[..i]) + if outcomes[i] != null then [outcomes[i]] else []
    ensures AcceptEvents(serverId, outcomes[..i + 1]) ==
              AcceptEvents(serverId, outcomes[..i]) + [if outcomes[i] != null then Succeeded(serverId) else Failed(serverId)]
  {
    assert outcomes[..i + 1][..i] == outcomes[..i] && outcomes[..i + 1][i] == outcomes[i];
  }

  /** ArrayList.remove(Object): drops the first occurrence of x, if any. */
  function RemoveFirst(s: seq<TdSocket>, x: TdSocket): (r: seq<TdSocket>)
    ensures x !in s ==> r == s
    ensures multiset(r) == multiset(s) - multiset{x}
  {
    if s == [] then []
    else if s[0] == x then
      assert s == [s[0]] + s[1..];
      s[1..]
    else
      assert s == [s[0]] + s[1..];
      [s[0]] + RemoveFirst(s[1..], x)
  }

  /** What remove leaves: everything before the first x, then everything after it. */
  lemma {:induction false} RemoveFirstAt(s: seq<TdSocket>, x: TdSocket, i: nat)
    requires i < |s| && s[i] == x && x !in s[..i]
    ensures RemoveFirst(s, x) == s[..i] + s[i + 1..]
  {
    if i > 0 {
      var t := s[1..];
      assert s[0] in s[..i];
      var before, prefix := t[..i - 1], s[..i];
      forall k | 0 <= k < |before| ensures before[k] != x {
        assert before[k] == prefix[k + 1];
      }
      RemoveFirstAt(t, x, i - 1);
      assert before == s[1..i] && t[i..] == s[i + 1..];
      assert RemoveFirst(s, x) == [s[0]] + (s[1..i] + s[i + 1..]);
      Associative([s[0]], s[1..i], s[i + 1..]);
      assert prefix == [s[0]] + s[1..i];
    }
  }

  /** The bytes of n copies of frame, one after the other. */
  function Repeat(frame: seq<byte>, n: nat): seq<byte> {
    if n == 0 then [] else frame + Repeat(frame, n - 1)
  }

  /** The writer over the given iterations, from the last send time last
      with output already written: the last send time and the output at
      the end. */
  function WriterRun(timeOut: int, frame: seq<byte>, ticks: seq<Tick>, last: int, output: seq<byte>): (r: (int, seq<byte>))
    decreases |ticks|
  {
    if ticks == [] then (last, output)
    else if SkipHeartbeat(timeOut, ticks[0].after, last) then WriterRun(timeOut, frame, ticks[1..], last, output)
    else WriterRun(timeOut, frame, ticks[1..], ticks[0].after, output + frame)
  }

  /** The writer sends one frame at each of the HeartbeatTimes and nothing
      else, and the last of them is the send time in force afterwards. */
  lemma {:induction false} WriterRunSends(timeOut: int, frame: seq<byte>, ticks: seq<Tick>, last: int, output: seq<byte>)
    ensures var times := HeartbeatTimes(timeOut, last, ticks);
            && WriterRun(timeOut, frame, ticks, last, output).0 == LastSent(last, times)
            && WriterRun(timeOut, frame, ticks, last, output).1 == output + Repeat(frame, |times|)
    decreases |ticks|
  {
    if ticks == [] {
      assert output + [] == output;
    } else if SkipHeartbeat(timeOut, ticks[0].after, last) {
      WriterRunSends(timeOut, frame, ticks[1..], last, output);
    } else {
      var now := ticks[0].after;
      var later := HeartbeatTimes(timeOut, now, ticks[1..]);
      WriterRunSends(timeOut, frame, ticks[1..], now, output + frame);
      Associative(output, frame, Repeat(frame, |later|));
      assert HeartbeatTimes(timeOut, last, ticks) == [now] + later;
      assert LastSent(last, [now] + later) == LastSent(now, later);
    }
  }

  /** One iteration of the writer, at position i of the ticks. */
  lemma WriterRunStep(timeOut: int, frame: seq<byte>, ticks: seq<Tick>, i: nat, last: int, output: seq<byte>)
    requires i < |ticks|
    ensures WriterRun(timeOut, frame, ticks[i..], last, output) ==
              if SkipHeartbeat(timeOut, ticks[i].after, last)
              then WriterRun(timeOut, frame, ticks[i + 1..], last, output)
              else WriterRun(timeOut, frame, ticks[i + 1..], ticks[i].after, output + frame)
  {
    assert ticks[i..][0] == ticks[i] && ticks[i..][1..] == ticks[i + 1..];
  }

  class SocketManager {
    var invokeThreadCount: int
    var invokeTaskList: seq<Task>
    var tdSocketList: seq<TdSocket>
    /** The connections whose reader and writer tasks have been started. */
    var started: seq<TdSocket>
    /** The callbacks made so far, in order. */
    var events: seq<Event>

    ghost predicate Valid()
      reads this
    {
      0 <= invokeThreadCount <= MaxInvokeThread
    }

    constructor ()
      ensures Valid() && invokeThreadCount == 0
      ensures invokeTaskList == [] && tdSocketList == [] && started == [] && events == []
    {
      invokeThreadCount, invokeTaskList, tdSocketList, started, events := 0, [], [], [], [];
    }

    /** start: launches the connection's reader and writer, then starts
        invokers until MaxInvokeThread of them run. */
    method Start(c: TdSocket) returns (spawned: int)
      modifies this`started, this`invokeThreadCount
      ensures started == old(started) + [c]
      ensures old(invokeThreadCount) < MaxInvokeThread ==>
                invokeThreadCount == MaxInvokeThread && spawned == MaxInvokeThread - old(invokeThreadCount)
      ensures old(invokeThreadCount) >= MaxInvokeThread ==>
                invokeThreadCount == old(invokeThreadCount) && spawned == 0
    {
      started := started + [c];
      spawned := 0;
      if invokeThreadCount < MaxInvokeThread {
        while invokeThreadCount < MaxInvokeThread
          invariant started == old(started) + [c]
          invariant old(invokeThreadCount) <= invokeThreadCount <= MaxInvokeThread
          invariant spawned == invokeThreadCount - old(invokeThreadCount)
        {
          spawned := spawned + 1;
          invokeThreadCount := invokeThreadCount + 1;
        }
      }
    }

    /** addTdSocketClient: registers the client first, then connects it;
        on success starts it and reports success, otherwise reports the
        failure, and either way the client stays registered. */
    method AddTdSocketClient(client: TdSocket, peer: Option<seq<byte>>)
      requires Valid() && client.Valid()
      modifies this`tdSocketList, this`started, this`invokeThreadCount, this`events
      modifies client`socket, client`input, client`output, client`soTimeout
      ensures Valid() && tdSocketList == old(tdSocketList) + [client]
      ensures peer.None? ==> client.socket == Unconnected && events == old(events) + [Failed(client.id)]
      ensures peer.None? ==> started == old(started) && invokeThreadCount == old(invokeThreadCount)
      ensures peer.Some? ==> client.socket == Open && client.input == peer.value
      ensures peer.Some? ==> events == old(events) + [Succeeded(client.id)]
      ensures peer.Some? ==> started == old(started) + [client] && invokeThreadCount == MaxInvokeThread
      ensures client.soTimeout == 0
      ensures peer.None? ==> client.input == old(client.input) && client.output == old(client.output)
      ensures peer.Some? ==> client.output == []
    {
      tdSocketList := tdSocketList + [client];
      var connected := client.Connect(peer);
      if connected.Err? {
        events := events + [Failed(client.id)];
        return;
      }
      var _ := Start(client);
      events := events + [Succeeded(client.id)];
    }

    /** addTdSocketServer: one accept per allowed connection; each accepted
        connection is registered, started and reported, each failed accept
        reported, all under the server's id. */
    method AddTdSocketServer(serverId: int, outcomes: seq<TdSocket?>)
      requires Valid()
      modifies this`tdSocketList, this`started, this`invokeThreadCount, this`events
      ensures Valid()
      ensures tdSocketList == old(tdSocketList) + Accepted(outcomes)
      ensures started == old(started) + Accepted(outcomes)
      ensures events == old(events) + AcceptEvents(serverId, outcomes)
      ensures invokeThreadCount == if Accepted(outcomes) == [] then old(invokeThreadCount) else MaxInvokeThread
    {
      ghost var accepted: seq<TdSocket> := [];
      ghost var reported: seq<Event> := [];
      for i := 0 to |outcomes|
        invariant Valid()
        invariant accepted == Accepted(outcomes[..i]) && reported == AcceptEvents(serverId, outcomes[..i])
        invariant tdSocketList == old(tdSocketList) + accepted && started == old(started) + accepted
        invariant events == old(events) + reported
        invariant invokeThreadCount == if accepted == [] then old(invokeThreadCount) else MaxInvokeThread
      {
        AcceptStep(serverId, outcomes, i);
        var tdSocket := outcomes[i];
        AcceptOne(serverId, tdSocket);
        if tdSocket == null {
          Associative(old(events), reported, [Failed(serverId)]);
          reported := reported + [Failed(serverId)];
          assert accepted + [] == accepted;
        } else {
          Associative(old(tdSocketList), accepted, [tdSocket]);
          Associative(old(started), accepted, [tdSocket]);
          Associative(old(events), reported, [Succeeded(serverId)]);
          accepted := accepted + [tdSocket];
          reported := reported + [Succeeded(serverId)];
        }
      }
      assert outcomes[..|outcomes|] == outcomes;
    }

    /** One pass of the accept loop: an accepted connection is registered,
        started and reported; a failed accept (null) is only reported. */
    method AcceptOne(serverId: int, tdSocket: TdSocket?)
      requires Valid()
      modifies this`tdSocketList, this`started, this`invokeThreadCount, this`events
      ensures Valid()
      ensures tdSocket == null ==>
                && tdSocketList == old(tdSocketList) && started == old(started)
                && invokeThreadCount == old(invokeThreadCount) && events == old(events) + [Failed(serverId)]
      ensures tdSocket != null ==>
                && tdSocketList == old(tdSocketList) + [tdSocket] && started == old(started) + [tdSocket]
                && invokeThreadCount == MaxInvokeThread && events == old(events) + [Succeeded(serverId)]
    {
      if tdSocket == null {
        events := events + [Failed(serverId)];
      } else {
        tdSocketList := tdSocketList + [tdSocket];
        var _ := Start(tdSocket);
        events := events + [Succeeded(serverId)];
      }
    }

    /** removeTdSocket: drops the connection from the registry and closes a
        socket that exists and is not closed yet. */
    method RemoveTdSocket(c: TdSocket)
      modifies this`tdSocketList, c`socket
      ensures tdSocketList == RemoveFirst(old(tdSocketList), c)
      ensures c.socket == if old(c.Live()) then Closed else old(c.socket)
    {
      tdSocketList := RemoveFirst(tdSocketList, c);
      if c.Live() {
        c.Close();
      }
    }

    /** invokeTaskList.add: a task joins at the tail. */
    method AddTask(t: Task)
      modifies this`invokeTaskList
      ensures invokeTaskList == old(invokeTaskList) + [t]
    {
      invokeTaskList := invokeTaskList + [t];
    }

    /** The invoker's take: the head of the queue, if there is one. */
    method TakeTask() returns (t: Option<Task>)
      modifies this`invokeTaskList
      ensures old(invokeTaskList) == [] ==> t == None && invokeTaskList == []
      ensures old(invokeTaskList) != [] ==>
                t == Some(old(invokeTaskList)[0]) && invokeTaskList == old(invokeTaskList)[1..]
    {
      if |invokeTaskList| < 1 {
        return None;
      }
      t := Some(invokeTaskList[0]);
      invokeTaskList := invokeTaskList[1..];
    }

    /** One invoker, from the time it runs until it would wait: while some
        connection is registered it runs the queued deliveries in order;
        with the queue empty it waits (returns without exiting); with no
        connection registered it exits and is no longer counted. */
    method RunInvoker() returns (exited: bool)
      requires Valid() && invokeThreadCount >= 1
      modifies this`invokeTaskList, this`events, this`invokeThreadCount
      ensures Valid()
      ensures exited <==> tdSocketList == []
      ensures exited ==> invokeThreadCount == old(invokeThreadCount) - 1
      ensures exited ==> invokeTaskList == old(invokeTaskList) && events == old(events)
      ensures !exited ==> invokeThreadCount == old(invokeThreadCount)
      ensures !exited ==> invokeTaskList == [] && events == old(events) + Deliveries(old(invokeTaskList))
    {
      ghost var done := 0;
      while tdSocketList != []
        invariant 0 <= done <= |old(invokeTaskList)|
        invariant invokeThreadCount == old(invokeThreadCount)
        invariant tdSocketList == [] ==> done == 0
        invariant invokeTaskList == old(invokeTaskList)[done..]
        invariant events == old(events) + Deliveries(old(invokeTaskList)[..done])
        decreases |invokeTaskList|
      {
        var task := TakeTask();
        if task.None? {
          assert old(invokeTaskList)[..done] == old(invokeTaskList);
          return false;
        }
        assert old(invokeTaskList)[..done + 1] == old(invokeTaskList)[..done] + [task.value];
        events := events + [Received(task.value.id, task.value.content)];
        done := done + 1;
      }
      invokeThreadCount := invokeThreadCount - 1;
      return true;
    }

    /** The reader's check on one received frame: anything but the
        heartbeat response is queued for delivery. */
    method OnFrame(c: TdSocket, content: seq<byte>)
      requires c.Valid()
      modifies this`invokeTaskList
      ensures Delivers(content, c.heartbeatResponse) ==> invokeTaskList == old(invokeTaskList) + [Deliver(c.id, content)]
      ensures !Delivers(content, c.heartbeatResponse) ==> invokeTaskList == old(invokeTaskList)
    {
      var heartbeatResponse := c.heartbeatResponse;
      if |content| != |Bytes(heartbeatResponse)| || Chars(content) != heartbeatResponse {
        AddTask(Deliver(c.id, content));
      }
    }

    /** One pass of the reader loop: reads a frame and queues it unless it
        is a heartbeat; ok is false when the read failed. A socket without
        streams fails at once. */
    method ReaderStep(c: TdSocket) returns (ok: bool)
      requires c.Valid() && c.Live()
      modifies this`invokeTaskList, c`input
      ensures c.socket == Unconnected ==> !ok && c.input == old(c.input)
      ensures c.socket == Open ==>
                var d := DecodeFrame(old(c.input));
                ok == d.result.Ok? && c.input == d.rest
      ensures !ok ==> invokeTaskList == old(invokeTaskList)
      ensures ok ==>
                var content := DecodeFrame(old(c.input)).result.value;
                invokeTaskList == old(invokeTaskList) + Tasks(c.id, Queued(content, c.heartbeatResponse))
    {
      var content := c.ReadMessage();
      if content.Err? {
        return false;
      }
      OnFrame(c, content.value);
      assert Tasks(c.id, [content.value]) == [Deliver(c.id, content.value)];
      assert Tasks(c.id, []) == [];
      ok := true;
    }

    /** The reader task, started on an open connection: reads frames while
        the socket is open, queues every frame that is not a heartbeat,
        stops at the first failed read, and always reports the
        disconnection at the end. */
    method RunReader(c: TdSocket)
      requires c.Valid() && c.socket == Open
      modifies this`invokeTaskList, this`events, c`input
      ensures var run := ReaderRun(old(c.input), c.heartbeatResponse);
              && invokeTaskList == old(invokeTaskList) + Tasks(c.id, run.0)
              && c.input == run.1
      ensures events == old(events) + [Disconnected(c.id)]
    {
      ReaderLoopRun(c.input, c.heartbeatResponse, c.id, invokeTaskList);
      while c.Live()
        invariant c.Valid() && events == old(events)
        invariant ReaderLoop(old(c.input), c.heartbeatResponse, c.id, old(invokeTaskList)) ==
                  ReaderLoop(c.input, c.heartbeatResponse, c.id, invokeTaskList)
        decreases |c.input|
      {
        var ok := ReaderStep(c);
        if !ok {
          break;
        }
      }
      events := events + [Disconnected(c.id)];
    }

    /** The writer's sleep, computed from the clock reading now. */
    method WriterSleep(c: TdSocket, now: int) returns (ms: int)
      ensures ms >= 0 && ms == SleepTime(c.timeOut, now, c.lastSentTime)
    {
      ms := SleepTime(c.timeOut, now, c.lastSentTime);
    }

    /** The writer on waking at now: skips when something was sent recently
        enough, otherwise sends the heartbeat request. */
    method WriterWake(c: TdSocket, now: int) returns (sent: bool, r: Result<()>)
      requires c.Valid()
      modifies c`lastSentTime, c`output
      ensures sent <==> !SkipHeartbeat(c.timeOut, now, old(c.lastSentTime))
      ensures !sent ==> r == Ok(()) && c.lastSentTime == old(c.lastSentTime) && c.output == old(c.output)
      ensures sent ==> c.lastSentTime == now
      ensures sent && c.socket == Open ==>
                r == Ok(()) && c.output == old(c.output) + EncodeFrame(Bytes(c.heartbeatRequest))
      ensures sent && c.socket != Open ==> r == Err(NotConnected) && c.output == old(c.output)
    {
      if now - c.lastSentTime + SkipMargin < c.timeOut {
        return false, Ok(());
      }
      sent := true;
      r := c.SendMessage(Bytes(c.heartbeatRequest), now);
    }

    /** One pass of the writer loop: the sleep computed at the first clock
        reading, then the wake at the second. The sleep itself is not
        modelled: the second reading is given, and the length of the sleep
        (ms) constrains it only where Slept says so. */
    method WriterIteration(c: TdSocket, tick: Tick, frame: seq<byte>) returns (sent: bool)
      requires c.Valid() && frame == EncodeFrame(Bytes(c.heartbeatRequest))
      modifies c`lastSentTime, c`output
      ensures sent <==> !SkipHeartbeat(c.timeOut, tick.after, old(c.lastSentTime))
      ensures c.lastSentTime == if sent then tick.after else old(c.lastSentTime)
      ensures c.output == if sent && c.socket == Open then old(c.output) + frame else old(c.output)
    {
      var ms := WriterSleep(c, tick.before);
      var r;
      sent, r := WriterWake(c, tick.after);
    }

    /** The writer task on a connection nobody else writes to, over the
        given iterations: it sleeps, then sends a heartbeat unless it may
        skip it, as long as the socket is open. */
    method RunWriter(c: TdSocket, ticks: seq<Tick>)
      requires c.Valid() && c.socket != Unconnected
      modifies c`lastSentTime, c`output
      ensures c.socket != Open ==> c.lastSentTime == old(c.lastSentTime) && c.output == old(c.output)
      ensures c.socket == Open ==>
                var times := HeartbeatTimes(c.timeOut, old(c.lastSentTime), ticks);
                && c.output == old(c.output) + Repeat(EncodeFrame(Bytes(c.heartbeatRequest)), |times|)
                && c.lastSentTime == LastSent(old(c.lastSentTime), times)
    {
      if !c.Live() {
        // Without a live socket the loop below does not run at all.
        return;
      }
      var frame := EncodeFrame(Bytes(c.heartbeatRequest));
      WriterRunSends(c.timeOut, frame, ticks, c.lastSentTime, c.output);
      var i := 0;
      while c.Live() && i < |ticks|
        invariant 0 <= i <= |ticks|
        invariant WriterRun(c.timeOut, frame, ticks, old(c.lastSentTime), old(c.output)) ==
                  WriterRun(c.timeOut, frame, ticks[i..], c.lastSentTime, c.output)
      {
        WriterRunStep(c.timeOut, frame, ticks, i, c.lastSentTime, c.output);
        var sent := WriterIteration(c, ticks[i], frame);
        i := i + 1;
      }
      assert ticks[|ticks|..] == [];
    }
  }
}
