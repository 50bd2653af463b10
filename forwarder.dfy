/**
 * The log forwarder of one service: the chunks read from its pty or pipe,
 * already decoded to text, are handed to the console one by one under the
 * service's tag; a read error ends the stream with a warning line.
 */
module LogForwarding {
  import opened Wrappers
  import opened PyText
  import opened Console
  import opened Orchestrator

  /** Rendering a sequence of chunks from one process, skipping empty ones, in order. */
  function RenderAll(st: ConsoleState, processName: string, chunks: seq<string>, prefix: string): (r: Step)
    // a run that writes nothing leaves the console as it was
    ensures r.emitted == [] ==> r.next == st
    decreases |chunks|
  {
    if chunks == [] then
      Step(st, [])
    else
      var r := RenderAll(st, processName, chunks[..|chunks| - 1], prefix);
      var chunk := chunks[|chunks| - 1];
      if chunk == [] then r
      else
        var s := Render(r.next, processName, chunk, prefix);
        Step(s.next, r.emitted + s.emitted)
  }

  lemma AppendAssociates(a: string, b: string, c: string)
    ensures a + b + c == a + (b + c)
  {
  }

  /** One more chunk extends the run by that chunk's own render. */
  lemma RenderAllStep(st: ConsoleState, processName: string, chunks: seq<string>, i: nat, prefix: string)
    requires i < |chunks|
    ensures var done := RenderAll(st, processName, chunks[..i], prefix);
            RenderAll(st, processName, chunks[..i + 1], prefix)
            == if chunks[i] == [] then done
               else var s := Render(done.next, processName, chunks[i], prefix); Step(s.next, done.emitted + s.emitted)
  {
    assert chunks[..i + 1][..i] == chunks[..i];
  }

  /**
   * After a run of chunks the console belongs to this process as soon as
   * one chunk had content; a run of blank chunks writes nothing and changes
   * nothing.
   */
  lemma {:induction false} RenderAllOwnership(st: ConsoleState, processName: string, chunks: seq<string>, prefix: string)
    ensures var r := RenderAll(st, processName, chunks, prefix);
            && ((forall k :: 0 <= k < |chunks| ==> IsBlank(chunks[k])) ==> r == Step(st, []))
            && ((exists k :: 0 <= k < |chunks| && !IsBlank(chunks[k])) ==> r.next.lastProcessName == Some(processName))
    decreases |chunks|
  {
    if chunks != [] {
      var init := chunks[..|chunks| - 1];
      RenderAllOwnership(st, processName, init, prefix);
      var r := RenderAll(st, processName, init, prefix);
      var chunk := chunks[|chunks| - 1];
      if forall k :: 0 <= k < |chunks| ==> IsBlank(chunks[k]) {
        assert forall k :: 0 <= k < |init| ==> IsBlank(init[k]) by {
          forall k | 0 <= k < |init| ensures IsBlank(init[k]) { assert init[k] == chunks[k]; }
        }
        assert IsBlank(chunk);
        assert r.emitted + [] == r.emitted;
      }
      if exists k :: 0 <= k < |chunks| && !IsBlank(chunks[k]) {
        var k :| 0 <= k < |chunks| && !IsBlank(chunks[k]);
        if k < |init| {
          assert init[k] == chunks[k];
        }
      }
    }
  }

  /** Rendering a run of chunks keeps the dangling flag truthful about the console. */
  lemma {:induction false} RenderAllKeepsCursorConsistent(st: ConsoleState, output: string, processName: string, chunks: seq<string>, prefix: string)
    requires CursorConsistent(st, output)
    ensures var r := RenderAll(st, processName, chunks, prefix); CursorConsistent(r.next, output + r.emitted)
    decreases |chunks|
  {
    if chunks != [] {
      var n := |chunks| - 1;
      RenderAllKeepsCursorConsistent(st, output, processName, chunks[..n], prefix);
      RenderAllStep(st, processName, chunks, n, prefix);
      assert chunks[..n + 1] == chunks;
      var done := RenderAll(st, processName, chunks[..n], prefix);
      if chunks[n] != [] {
        RenderKeepsCursorConsistent(done.next, output + done.emitted, processName, chunks[n], prefix);
        AppendAssociates(output, done.emitted, Render(done.next, processName, chunks[n], prefix).emitted);
      }
    }
  }

  /** One turn of the read loop moves the console from the run's state after `i` chunks to that after `i + 1`. */
  lemma ForwardStep(st0: ConsoleState, out0: string, processName: string, chunks: seq<string>, i: nat, prefix: string,
                        stNow: ConsoleState, outNow: string, stNew: ConsoleState, outNew: string)
    requires i < |chunks|
    requires stNow == RenderAll(st0, processName, chunks[..i], prefix).next
    requires outNow == out0 + RenderAll(st0, processName, chunks[..i], prefix).emitted
    requires chunks[i] == [] ==> stNew == stNow && outNew == outNow
    requires chunks[i] != [] ==> var s := Render(stNow, processName, chunks[i], prefix); stNew == s.next && outNew == outNow + s.emitted
    ensures stNew == RenderAll(st0, processName, chunks[..i + 1], prefix).next
    ensures outNew == out0 + RenderAll(st0, processName, chunks[..i + 1], prefix).emitted
  {
    RenderAllStep(st0, processName, chunks, i, prefix);
    if chunks[i] != [] {
      var done := RenderAll(st0, processName, chunks[..i], prefix);
      AppendAssociates(out0, done.emitted, Render(stNow, processName, chunks[i], prefix).emitted);
    }
  }

  /** The read loop of `_log_forwarder`: every chunk is printed under the service's tag, in order. */
  method ForwardChunks(console: ConsoleManager, processName: string, chunks: seq<string>, prefix: string)
    requires console.Valid()
    modifies console
    ensures console.Valid()
    ensures var r := RenderAll(old(console.State()), processName, chunks, prefix);
            console.State() == r.next && console.output == old(console.output) + r.emitted
  {
    ghost var st0, out0 := console.State(), console.output;
    var i := 0;
    while i < |chunks|
      invariant 0 <= i <= |chunks|
      invariant console.Valid()
      invariant console.State() == RenderAll(st0, processName, chunks[..i], prefix).next
      invariant console.output == out0 + RenderAll(st0, processName, chunks[..i], prefix).emitted
    {
      var message := chunks[i];
      ghost var stNow, outNow := console.State(), console.output;
      if message != [] {
        console.Print(processName, message, prefix);
        ForwardStep(st0, out0, processName, chunks, i, prefix, stNow, outNow, console.State(), console.output);
      } else {
        ForwardStep(st0, out0, processName, chunks, i, prefix, stNow, outNow, stNow, outNow);
      }
      i := i + 1;
    }
    assert chunks[..i] == chunks;
  }

  /**
   * `_log_forwarder`: every chunk read is printed under the service's tag
   * until the stream ends; if it ended with a read error, a warning line
   * naming the service and the error follows. `readError` is the text of
   * that error, or `None` when the stream simply closed.
   */
  method ForwardLogs(console: ConsoleManager, processName: string, groupId: string, hash: string -> int,
                     chunks: seq<string>, readError: Option<string>)
    requires console.Valid()
    modifies console
    ensures console.Valid()
    ensures var prefix := ServicePrefix(processName, groupId, hash);
            var r := RenderAll(old(console.State()), processName, chunks, prefix);
            if readError.None? then
              console.State() == r.next && console.output == old(console.output) + r.emitted
            else
              var w := Render(r.next, OrchestratorName, WarningText(processName, readError.value) + "\n", OrchestratorPrefix("warn"));
              console.State() == w.next && console.output == old(console.output) + r.emitted + w.emitted
  {
    var colorIndex := GroupColorIndex(hash(groupId));
    var groupColor := GroupColors[colorIndex];
    var prefix := Bold + groupColor + "[" + processName + "]" + EndC + " ";
    ForwardChunks(console, processName, chunks, prefix);
    if readError.Some? {
      PrintOrchestrator(console, WarningText(processName, readError.value), "warn");
    }
  }

  /** "Log forwarder for '<name>' stopped due to IO error: <error>" */
  function WarningText(processName: string, error: string): (w: string)
    ensures |w| == 19 + |processName| + 27 + |error|
    ensures w[..19] == "Log forwarder for '" && w[19..19 + |processName|] == processName
    ensures w[|w| - |error|..] == error
  {
    "Log forwarder for '" + processName + "' stopped due to IO error: " + error
  }
}
