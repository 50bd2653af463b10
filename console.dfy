/**
 * The console multiplexer: one shared stdout onto which many processes'
 * output chunks are rendered.  The state is the name of the last writer
 * and whether the last line was left without a newline ("dangling");
 * `Render` is one call of `print`, and `ConsoleManager` is the object
 * whose fields that call updates.
 */
module Console {
  import opened Wrappers
  import opened PyText

  /** ANSI "erase from the cursor to the end of the line" (ESC [ K). */
  const EraseToEndOfLine: string := "\U{1B}[K"

  datatype ConsoleState = ConsoleState(lastProcessName: Option<string>, lastLineWasDangling: bool)

  /** The state of a freshly constructed manager. */
  const Fresh: ConsoleState := ConsoleState(None, false)

  /** A chunk asks to overwrite the current line when it holds a carriage return anywhere. */
  predicate IsOverwriteIntent(message: string) {
    '\r' in message
  }

  /** A chunk is finalized by the child when it ends with a newline. */
  predicate IsFinalizedByChild(message: string) {
    EndsWithNewline(message)
  }

  /** A different process's line was left dangling and must be committed first. */
  predicate NeedsCommit(st: ConsoleState, processName: string) {
    st.lastProcessName.Some? && st.lastProcessName.value != processName && st.lastLineWasDangling
  }

  /** The newline written to commit a dangling line of another process. */
  function CommitText(st: ConsoleState, processName: string): string {
    if NeedsCommit(st, processName) then "\n" else ""
  }

  /** The line itself: overwrite style returns to column zero and clears the rest. */
  function LineText(prefix: string, content: string, overwrite: bool): string {
    if overwrite then "\r" + prefix + content + EraseToEndOfLine else prefix + content
  }

  /** What one `print` call leaves behind: the new state and the text written to stdout. */
  datatype Step = Step(next: ConsoleState, emitted: string)

  /** The cursor is at the start of a line: nothing written yet, or the last thing written was a newline. */
  predicate AtLineStart(output: string) {
    output == [] || output[|output| - 1] == '\n'
  }

  /**
   * The dangling flag tells the truth about the console: it is set exactly
   * when the output so far stops in the middle of a line, and a dangling
   * line always has a known writer.
   */
  predicate CursorConsistent(st: ConsoleState, output: string) {
    && (st.lastLineWasDangling <==> !AtLineStart(output))
    && (st.lastLineWasDangling ==> st.lastProcessName.Some?)
  }

  /**
   * One call of `ConsoleManager.print(process_name, message, prefix)`.
   * A blank chunk is dropped; otherwise an optional commit newline, the
   * stripped content in overwrite or plain style, and the child's own
   * newline if it sent one.
   */
  function Render(st: ConsoleState, processName: string, message: string, prefix: string): (r: Step)
    // a blank chunk writes nothing and leaves the state alone, and only a blank one does
    ensures r.emitted == [] <==> IsBlank(message)
    ensures IsBlank(message) ==> r.next == st
    // after a non-blank chunk: this process wrote last, and its line dangles iff it sent no newline
    ensures !IsBlank(message) ==> r.next == ConsoleState(Some(processName), !EndsWithNewline(message))
    // the output ends in a newline exactly when the chunk did
    ensures !IsBlank(message) ==> (EndsWithNewline(r.emitted) <==> EndsWithNewline(message))
  {
    var content := Strip(message);
    if content == [] then
      Step(st, [])
    else
      var overwrite := IsOverwriteIntent(message);
      var finalized := IsFinalizedByChild(message);
      var line := LineText(prefix, content, overwrite);
      var emitted := CommitText(st, processName) + line + (if finalized then "\n" else "");
      RenderFacts(st, processName, message, prefix, content, emitted);
      Step(ConsoleState(Some(processName), !finalized), emitted)
  }

  /** Where a render can write a newline first, and when it writes a carriage return at all. */
  lemma RenderEdges(st: ConsoleState, processName: string, message: string, prefix: string)
    // a leading newline is a commit, and appears exactly when another process left a dangling line
    ensures var e := Render(st, processName, message, prefix).emitted;
      (prefix == [] || prefix[0] != '\n') ==>
        ((|e| > 0 && e[0] == '\n') <==> (!IsBlank(message) && NeedsCommit(st, processName)))
    // carriage returns reach the console only from chunks that carry one
    ensures '\r' !in prefix ==>
      ('\r' in Render(st, processName, message, prefix).emitted <==> !IsBlank(message) && IsOverwriteIntent(message))
  {
    var content := Strip(message);
    if content != [] {
      var overwrite := IsOverwriteIntent(message);
      var emitted := CommitText(st, processName) + LineText(prefix, content, overwrite)
                     + (if IsFinalizedByChild(message) then "\n" else "");
      RenderFacts(st, processName, message, prefix, content, emitted);
    }
  }

  /** The observable shape of a non-blank render, from the properties of `Strip`. */
  lemma RenderFacts(st: ConsoleState, processName: string, message: string, prefix: string, content: string, emitted: string)
    requires content == Strip(message) && content != []
    requires emitted == CommitText(st, processName) + LineText(prefix, content, IsOverwriteIntent(message))
                        + (if IsFinalizedByChild(message) then "\n" else "")
    ensures emitted != []
    ensures EndsWithNewline(emitted) <==> EndsWithNewline(message)
    ensures (prefix == [] || prefix[0] != '\n') ==>
      ((emitted[0] == '\n') <==> NeedsCommit(st, processName))
    ensures '\r' !in prefix ==> ('\r' in emitted <==> IsOverwriteIntent(message))
  {
    StripKeepsCharacters(message);
    EmittedShape(CommitText(st, processName), prefix, content, IsOverwriteIntent(message), IsFinalizedByChild(message), emitted);
  }

  /** Every character of a stripped string comes from the original. */
  lemma StripKeepsCharacters(s: string)
    ensures forall c :: c in Strip(s) ==> c in s
  {
    var r := Strip(s);
    var i := StripIsInfix(s);
    forall c | c in r ensures c in s {
      var k :| 0 <= k < |r| && r[k] == c;
      assert s[i + k] == c;
    }
  }

  /** Where the newlines and carriage returns of a rendered chunk can be. */
  lemma EmittedShape(commit: string, prefix: string, content: string, overwrite: bool, finalized: bool, emitted: string)
    requires commit == "" || commit == "\n"
    requires content != [] && !IsSpace(content[0]) && !IsSpace(content[|content| - 1])
    requires emitted == commit + LineText(prefix, content, overwrite) + (if finalized then "\n" else "")
    ensures emitted != []
    ensures EndsWithNewline(emitted) <==> finalized
    ensures (prefix == [] || prefix[0] != '\n') ==> (emitted[0] == '\n' <==> commit == "\n")
    ensures ('\r' !in prefix && !overwrite && '\r' !in content) ==> '\r' !in emitted
    ensures overwrite ==> '\r' in emitted
  {
    var line := LineText(prefix, content, overwrite);
    var fin := if finalized then "\n" else "";
    assert line[|line| - 1] == (if overwrite then 'K' else content[|content| - 1]);
    if !finalized {
      assert emitted == commit + line;
      assert emitted[|emitted| - 1] == line[|line| - 1];
    }
    if commit == [] {
      assert emitted[0] == line[0];
      if !overwrite && prefix == [] {
        assert line[0] == content[0];
      }
    }
    if overwrite {
      assert emitted[|commit|] == '\r';
    } else if '\r' !in prefix && '\r' !in content {
      assert emitted == commit + prefix + content + fin;
    }
  }

  /** `Render` of a non-blank chunk, spelled out piece by piece. */
  lemma RenderOfNonBlank(st: ConsoleState, processName: string, message: string, prefix: string, content: string, written: string)
    requires content == Strip(message) && content != []
    requires written == CommitText(st, processName) + LineText(prefix, content, IsOverwriteIntent(message))
                        + (if IsFinalizedByChild(message) then "\n" else "")
    ensures Render(st, processName, message, prefix) == Step(ConsoleState(Some(processName), !EndsWithNewline(message)), written)
  {
  }

  /** Rendering keeps the dangling flag truthful about the console. */
  lemma RenderKeepsCursorConsistent(st: ConsoleState, output: string, processName: string, message: string, prefix: string)
    requires CursorConsistent(st, output)
    ensures var r := Render(st, processName, message, prefix); CursorConsistent(r.next, output + r.emitted)
  {
  }

  /**
   * A process that takes over the console never draws over another
   * process's unfinished line: once the commit newline (if any) is written,
   * the cursor is at the start of a line.
   */
  lemma SwitchStartsOnFreshLine(st: ConsoleState, output: string, processName: string)
    requires CursorConsistent(st, output)
    requires st.lastProcessName != Some(processName)
    ensures AtLineStart(output + CommitText(st, processName))
  {
    if NeedsCommit(st, processName) {
      assert (output + "\n")[|output|] == '\n';
    }
  }

  /** A process continuing its own output never gets a commit newline. */
  lemma SameWriterNeverCommits(st: ConsoleState, processName: string, message: string, prefix: string)
    requires st.lastProcessName == Some(processName)
    requires prefix == [] || prefix[0] != '\n'
    ensures var r := Render(st, processName, message, prefix); r.emitted == [] || r.emitted[0] != '\n'
  {
    RenderEdges(st, processName, message, prefix);
  }

  /** The first chunk a fresh manager prints is never preceded by a commit newline. */
  lemma FreshManagerNeverCommits(processName: string, message: string, prefix: string)
    requires prefix == [] || prefix[0] != '\n'
    ensures var r := Render(Fresh, processName, message, prefix); r.emitted == [] || r.emitted[0] != '\n'
  {
    RenderEdges(Fresh, processName, message, prefix);
  }

  /**
   * Each chunk is stripped on its own: a line that arrives in two reads,
   * `a` and then `b` + newline, is written as two prefixed pieces, whereas
   * the same line in one read gets the prefix once.
   */
  lemma SplitChunkIsRenderedTwice(processName: string, a: string, b: string, prefix: string)
    requires a != [] && !IsSpace(a[0]) && !IsSpace(a[|a| - 1]) && '\r' !in a
    requires b != [] && !IsSpace(b[0]) && !IsSpace(b[|b| - 1]) && '\r' !in b
    ensures Render(Fresh, processName, a + b + "\n", prefix).emitted == prefix + (a + b) + "\n"
    ensures var first := Render(Fresh, processName, a, prefix);
            first.emitted + Render(first.next, processName, b + "\n", prefix).emitted
            == (prefix + a) + (prefix + b + "\n")
  {
    var whole := a + b + "\n";
    assert whole == (a + b) + "\n";
    assert '\r' !in whole;
    StripOfWord(a + b, whole);
    RenderOfNonBlank(Fresh, processName, whole, prefix, a + b, prefix + (a + b) + "\n");
    StripOfWord(a, a);
    RenderOfNonBlank(Fresh, processName, a, prefix, a, prefix + a);
    ContinuedLine(processName, b, prefix);
  }

  /** The same process finishing its own dangling line: prefix, content, newline, no commit. */
  lemma ContinuedLine(processName: string, b: string, prefix: string)
    requires b != [] && !IsSpace(b[0]) && !IsSpace(b[|b| - 1]) && '\r' !in b
    ensures Render(ConsoleState(Some(processName), true), processName, b + "\n", prefix).emitted == prefix + b + "\n"
  {
    StripOfWord(b, b + "\n");
    var st := ConsoleState(Some(processName), true);
    assert CommitText(st, processName) == [];
    assert '\r' !in b + "\n";
    assert [] + LineText(prefix, b, false) + "\n" == prefix + b + "\n";
    RenderOfNonBlank(st, processName, b + "\n", prefix, b, prefix + b + "\n");
  }

  /** A string without whitespace at either end, possibly followed by a newline, strips to itself. */
  lemma StripOfWord(word: string, s: string)
    requires word != [] && !IsSpace(word[0]) && !IsSpace(word[|word| - 1])
    requires s == word || s == word + "\n"
    ensures Strip(s) == word
  {
    assert TrimStart(s) == s;
    if s == word {
      assert TrimEnd(s) == s;
    } else {
      assert s[..|s| - 1] == word;
      assert TrimEnd(word) == word;
    }
  }

  /**
   * The shared console: `lastProcessName` and `lastLineWasDangling` are the
   * object's fields, and `output` is everything written to stdout so far.
   */
  class ConsoleManager {
    var lastProcessName: Option<string>
    var lastLineWasDangling: bool
    var output: string

    function State(): ConsoleState
      reads this
    {
      ConsoleState(lastProcessName, lastLineWasDangling)
    }

    ghost predicate Valid()
      reads this
    {
      CursorConsistent(State(), output)
    }

    /** No writer yet, nothing dangling, nothing written. */
    constructor ()
      ensures Valid() && State() == Fresh && output == []
    {
      lastProcessName := None;
      lastLineWasDangling := false;
      output := [];
    }

    /** `print(process_name, message, prefix)`: render one chunk under the console lock. */
    method Print(processName: string, message: string, prefix: string)
      requires Valid()
      modifies this
      ensures Valid()
      ensures var r := Render(old(State()), processName, message, prefix);
              State() == r.next && output == old(output) + r.emitted
    {
      ghost var st, before := State(), output;
      RenderKeepsCursorConsistent(st, before, processName, message, prefix);
      // 1. intent, read before the chunk is cleaned
      var isOverwriteIntent := '\r' in message;
      var isFinalizedByChild := EndsWithNewline(message);
      // 2. the displayable content
      var content := Strip(message);
      if content == [] {
        return;
      }
      // 3-5. what this call writes, in order: commit, line, the child's newline
      var written := "";
      if lastProcessName.Some? && lastProcessName.value != processName {
        if lastLineWasDangling {
          written := written + "\n";
        }
      }
      assert written == CommitText(st, processName);
      if isOverwriteIntent {
        written := written + ("\r" + prefix + content + EraseToEndOfLine);
      } else {
        written := written + (prefix + content);
      }
      assert written == CommitText(st, processName) + LineText(prefix, content, isOverwriteIntent);
      if isFinalizedByChild {
        written := written + "\n";
        lastLineWasDangling := false;
      } else {
        lastLineWasDangling := true;
      }
      output := output + written;
      lastProcessName := Some(processName);
      RenderOfNonBlank(st, processName, message, prefix, content, written);
    }
  }
}
