/**
 * The supervisor's own console lines and the colours of service tags:
 * `TColors`, `print_orchestrator`, and the group colour picked for each
 * forwarded service.
 */
module Orchestrator {
  import opened Wrappers
  import opened PyText
  import opened Console

  // TColors
  const OkGreen: string := "\U{1B}[92m"
  const Warning: string := "\U{1B}[93m"
  const Fail: string := "\U{1B}[91m"
  const EndC: string := "\U{1B}[0m"
  const Bold: string := "\U{1B}[1m"

  /** Ten contrasting tag colours; every service of a group is tagged with the same one. */
  const GroupColors: seq<string> := [
    "\U{1B}[93m", "\U{1B}[96m", "\U{1B}[92m", "\U{1B}[95m", "\U{1B}[97m",
    "\U{1B}[91m", "\U{1B}[94m", "\U{1B}[36m", "\U{1B}[35m", "\U{1B}[32m"
  ]

  /** The name the supervisor's own lines are written under. */
  const OrchestratorName: string := "Orchestrator"

  /** The colour of a log level; any level other than "warn" and "error" is shown green. */
  function LevelColor(level: string): (c: string)
    ensures |c| == 5 && c[0] == '\U{1B}'
    ensures c == Warning <==> level == "warn"
    ensures c == Fail <==> level == "error"
    ensures c == OkGreen <==> level != "warn" && level != "error"
  {
    if level == "info" then OkGreen
    else if level == "warn" then Warning
    else if level == "error" then Fail
    else OkGreen
  }

  /** `[Orchestrator] ` in bold and in the level's colour. */
  function OrchestratorPrefix(level: string): (p: string)
    ensures |p| > 0 && p[0] != '\n' && '\r' !in p
  {
    LevelColor(level) + Bold + "[Orchestrator]" + EndC + " "
  }

  /** `print_orchestrator(message, level)`: the message goes to the console as one whole line. */
  method PrintOrchestrator(console: ConsoleManager, message: string, level: string)
    requires console.Valid()
    modifies console
    ensures console.Valid()
    ensures var r := Render(old(console.State()), OrchestratorName, message + "\n", OrchestratorPrefix(level));
            console.State() == r.next && console.output == old(console.output) + r.emitted
  {
    var color := LevelColor(level);
    var prefix := color + Bold + "[Orchestrator]" + EndC + " ";
    console.Print(OrchestratorName, message + "\n", prefix);
  }

  /**
   * Every orchestrator line is finished by its own newline: a blank message
   * writes nothing, and any other leaves the console owned by the
   * orchestrator, not dangling, with the cursor at the start of a line.
   */
  lemma OrchestratorLineIsFinalized(st: ConsoleState, message: string, level: string)
    ensures var r := Render(st, OrchestratorName, message + "\n", OrchestratorPrefix(level));
            && (IsBlank(message) ==> r == Step(st, []))
            && (!IsBlank(message) ==> r.next == ConsoleState(Some(OrchestratorName), false) && EndsWithNewline(r.emitted))
  {
    AppendNewlineKeepsBlankness(message);
  }

  lemma AppendNewlineKeepsBlankness(s: string)
    ensures IsBlank(s + "\n") <==> IsBlank(s)
  {
    assert IsSpace('\n');
    if IsBlank(s) {
      forall k | 0 <= k < |s + "\n"| ensures IsSpace((s + "\n")[k]) {
        if k < |s| { assert (s + "\n")[k] == s[k]; }
      }
    } else {
      var k :| 0 <= k < |s| && !IsSpace(s[k]);
      assert (s + "\n")[k] == s[k];
    }
  }

  /** Python's `a % b`: floor division, so the result has the sign of the divisor. */
  function PyMod(a: int, b: int): (r: int)
    requires b != 0
    ensures b > 0 ==> 0 <= r < b
    ensures b < 0 ==> b < r <= 0
    ensures a == b * PyFloorDiv(a, b) + r
  {
    var e := a % b;
    if b < 0 && e != 0 then e + b else e
  }

  /** Python's `a // b`, rounding toward negative infinity. */
  function PyFloorDiv(a: int, b: int): int
    requires b != 0
  {
    if b < 0 && a % b != 0 then a / b - 1 else a / b
  }

  /** `hash(group_id) % len(GROUP_COLORS)`: always a valid palette index, whatever the hash. */
  function GroupColorIndex(groupHash: int): (i: nat)
    ensures i < |GroupColors|
    ensures groupHash == |GroupColors| * PyFloorDiv(groupHash, |GroupColors|) + i
  {
    PyMod(groupHash, |GroupColors|)
  }

  /**
   * The tag prefix of a forwarded service, `[name] ` in bold and in its
   * group's colour. `hash` stands for Python's per-run seeded `hash`.
   */
  function ServicePrefix(processName: string, groupId: string, hash: string -> int): (p: string)
    ensures |p| > 0 && p[0] != '\n'
    ensures '\r' !in processName ==> '\r' !in p
  {
    var groupColor := GroupColors[GroupColorIndex(hash(groupId))];
    Bold + groupColor + "[" + processName + "]" + EndC + " "
  }
}
