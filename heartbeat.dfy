/** The decisions the reader and writer tasks make without touching any
    state: which received frames are heartbeats, how long the writer sleeps,
    and when it sends a heartbeat after waking. Times are milliseconds. */
module Heartbeat {
  import opened Text

  /** The writer wakes this long before the timeout would expire. */
  const SleepMargin: int := 2000
  /** On waking, a send this recent (with this margin) makes the heartbeat unnecessary. */
  const SkipMargin: int := 3000

  /** The reader's test: a frame is delivered unless it has the length of
      the response's UTF-8 bytes and decodes to the response. For an ASCII
      response this holds exactly when the frame is not those bytes. */
  function Delivers(content: seq<byte>, response: string): (d: bool)
    requires IsAscii(response)
    ensures d <==> content != Bytes(response)
  {
    CharsInjective(content, response);
    |content| != |Bytes(response)| || Chars(content) != response
  }

  function Max(a: int, b: int): int {
    if a >= b then a else b
  }

  /** The writer's sleep, computed at time now: until SleepMargin before the
      timeout runs out since the last send, and none if that point has passed. */
  function SleepTime(timeOut: int, now: int, lastSentTime: int): (ms: int)
    ensures ms >= 0
    ensures ms == 0 <==> now - lastSentTime >= timeOut - SleepMargin
    ensures ms > 0 ==> now + ms == lastSentTime + timeOut - SleepMargin
  {
    Max(0, timeOut - (now - lastSentTime) - SleepMargin)
  }

  /** After waking at now, the writer skips the heartbeat when something was
      sent recently enough. */
  predicate SkipHeartbeat(timeOut: int, now: int, lastSentTime: int) {
    now - lastSentTime + SkipMargin < timeOut
  }

  /** A wake that skips the heartbeat is followed by a sleep of more than
      SkipMargin - SleepMargin, so the writer never spins. */
  lemma SkipThenSleeps(timeOut: int, now: int, lastSentTime: int)
    requires SkipHeartbeat(timeOut, now, lastSentTime)
    ensures SleepTime(timeOut, now, lastSentTime) > SkipMargin - SleepMargin
  {
  }

  /** If nothing was sent while the writer slept, it sends a heartbeat when it wakes. */
  lemma IdleWakeSends(timeOut: int, before: int, after: int, lastSentTime: int)
    requires after >= before + SleepTime(timeOut, before, lastSentTime)
    ensures !SkipHeartbeat(timeOut, after, lastSentTime)
  {
  }

  /** The two clock readings of one writer iteration: before its sleep and
      after it. */
  datatype Tick = Tick(before: int, after: int)

  /** The times the writer sends a heartbeat over the given iterations, when
      nobody else sends on the connection. */
  function HeartbeatTimes(timeOut: int, lastSentTime: int, ticks: seq<Tick>): (times: seq<int>)
    decreases |ticks|
    ensures |times| <= |ticks|
    ensures |times| > 0 ==> times[0] - lastSentTime + SkipMargin >= timeOut
    ensures forall i :: 0 <= i < |times| - 1 ==> times[i + 1] - times[i] + SkipMargin >= timeOut
  {
    if ticks == [] then []
    else if SkipHeartbeat(timeOut, ticks[0].after, lastSentTime) then
      HeartbeatTimes(timeOut, lastSentTime, ticks[1..])
    else
      [ticks[0].after] + HeartbeatTimes(timeOut, ticks[0].after, ticks[1..])
  }

  /** The send time in force after the writer's iterations. */
  function LastSent(lastSentTime: int, times: seq<int>): int {
    if times == [] then lastSentTime else times[|times| - 1]
  }

  /** The ticks are real sleeps: each wake comes no sooner than the sleep
      computed before it asked for. */
  predicate Slept(timeOut: int, lastSentTime: int, ticks: seq<Tick>)
    decreases |ticks|
  {
    ticks == [] ||
    (var t := ticks[0];
     && t.after >= t.before + SleepTime(timeOut, t.before, lastSentTime)
     && Slept(timeOut, if SkipHeartbeat(timeOut, t.after, lastSentTime) then lastSentTime else t.after, ticks[1..]))
  }

  /** On an idle connection the writer sends a heartbeat at every wake. */
  lemma {:induction false} IdleWriterSendsEveryTime(timeOut: int, lastSentTime: int, ticks: seq<Tick>)
    requires Slept(timeOut, lastSentTime, ticks)
    ensures HeartbeatTimes(timeOut, lastSentTime, ticks) == seq(|ticks|, i requires 0 <= i < |ticks| => ticks[i].after)
    decreases |ticks|
  {
    if ticks != [] {
      IdleWakeSends(timeOut, ticks[0].before, ticks[0].after, lastSentTime);
      IdleWriterSendsEveryTime(timeOut, ticks[0].after, ticks[1..]);
    }
  }
}
