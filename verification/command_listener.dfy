/**
 * src/command_listener.py: the operator console that turns speech on and off.
 * `CommandListener` holds the flag; `Listen` is the `while True` loop fed with
 * the lines it would have read from standard input.
 */
module CommandListener {
  import opened Text

  /** What one console line does to the flag. */
  datatype Toggle = Unchanged | Enable | Disable

  /** The decision inside the `listen` loop, on the line stripped and lower-cased:
      blank is ignored, "on" wins, then "off", anything else is ignored. */
  function Classify(line: string): (t: Toggle)
    ensures t == Enable <==> Contains(Lower(line), "on")
    ensures t == Disable <==> !Contains(Lower(line), "on") && Contains(Lower(line), "off")
  {
    var command := Lower(Strip(line));
    StripOfLower(line);
    ContainsStrip(Lower(line), "on");
    ContainsStrip(Lower(line), "off");
    if command == [] then Unchanged
    else if Contains(command, "on") then Enable
    else if Contains(command, "off") then Disable
    else Unchanged
  }

  /** The flag after one console line. */
  function Next(enabled: bool, line: string): (r: bool)
    ensures Contains(Lower(line), "on") ==> r
    ensures !Contains(Lower(line), "on") && Contains(Lower(line), "off") ==> !r
    ensures !Contains(Lower(line), "on") && !Contains(Lower(line), "off") ==> r == enabled
  {
    match Classify(line)
    case Unchanged => enabled
    case Enable => true
    case Disable => false
  }

  /** The flag after a sequence of console lines, starting from `enabled`. */
  function Run(enabled: bool, lines: seq<string>): bool
  {
    if lines == [] then enabled
    else Next(Run(enabled, lines[..|lines| - 1]), lines[|lines| - 1])
  }

  /** Reading one more line applies `Next` to the flag reached so far. */
  lemma RunStep(enabled: bool, lines: seq<string>, i: int, before: bool, after: bool)
    requires 0 <= i < |lines|
    requires before == Run(enabled, lines[..i]) && after == Next(before, lines[i])
    ensures after == Run(enabled, lines[..i + 1])
  {
    assert lines[..i + 1][..i] == lines[..i];
  }

  /** A line that is empty after `strip()` leaves the flag alone. */
  lemma BlankLineKeepsState(enabled: bool, line: string)
    requires AllSpace(line)
    ensures Next(enabled, line) == enabled
  {
    assert Strip(line) == [];
  }

  /** Matching ignores case: a line and its upper-cased form have the same effect. */
  lemma NextIgnoresCase(enabled: bool, line: string)
    ensures Next(enabled, Upper(line)) == Next(enabled, line)
  {
    LowerOfUpper(line);
  }

  /** Lines that change nothing can be dropped from the end of the input. */
  lemma {:induction false} RunIgnoresUnchangedSuffix(enabled: bool, lines: seq<string>, ignored: seq<string>)
    requires forall i :: 0 <= i < |ignored| ==> Classify(ignored[i]) == Unchanged
    ensures Run(enabled, lines + ignored) == Run(enabled, lines)
    decreases |ignored|
  {
    if ignored == [] {
      assert lines + ignored == lines;
    } else {
      var all := lines + ignored;
      var init, last := ignored[..|ignored| - 1], ignored[|ignored| - 1];
      var before := Run(enabled, lines + init);
      assert Run(enabled, all) == Next(before, last) by {
        assert all[..|all| - 1] == lines + init;
        assert all[|all| - 1] == last;
      }
      assert Next(before, last) == before by {
        assert Classify(last) == Unchanged;
      }
      RunIgnoresUnchangedSuffix(enabled, lines, init);
    }
  }

  /** The flag is decided by the last line that says "on" or "off". */
  lemma LastDecisiveLineWins(enabled: bool, lines: seq<string>, line: string, ignored: seq<string>)
    requires Classify(line) != Unchanged
    requires forall i :: 0 <= i < |ignored| ==> Classify(ignored[i]) == Unchanged
    ensures Run(enabled, lines + [line] + ignored) == (Classify(line) == Enable)
  {
    RunIgnoresUnchangedSuffix(enabled, lines + [line], ignored);
    assert (lines + [line])[..|lines|] == lines;
  }

  /** With no line that says "on" or "off", the flag keeps its initial value. */
  lemma {:induction false} RunWithoutCommands(enabled: bool, lines: seq<string>)
    requires forall i :: 0 <= i < |lines| ==> Classify(lines[i]) == Unchanged
    ensures Run(enabled, lines) == enabled
  {
    RunIgnoresUnchangedSuffix(enabled, [], lines);
    assert [] + lines == lines;
  }

  /** The listener object: `_tts_enabled` is its only state (the logger is not modelled). */
  class CommandListener {
    var ttsEnabled: bool

    /** `CommandListener(logger, initial_state)`. */
    constructor (initialState: bool)
      ensures ttsEnabled == initialState
    {
      ttsEnabled := initialState;
    }

    /** `set_tts(status)`; the log line it writes is not modelled. */
    method SetTts(status: bool)
      modifies this
      ensures ttsEnabled == status
    {
      ttsEnabled := status;
    }

    /** `is_tts_enabled()` */
    method IsTtsEnabled() returns (enabled: bool)
      ensures enabled == ttsEnabled
    {
      enabled := ttsEnabled;
    }

    /** One iteration of the `listen` loop. */
    method HandleLine(line: string)
      modifies this
      ensures ttsEnabled == Next(old(ttsEnabled), line)
    {
      var command := Lower(Strip(line));
      if command == [] {
        return;
      }
      if Contains(command, "on") {
        SetTts(true);
      } else if Contains(command, "off") {
        SetTts(false);
      }
    }

    /** The `listen` loop over the lines read from the console, in order. */
    method Listen(lines: seq<string>)
      modifies this
      ensures ttsEnabled == Run(old(ttsEnabled), lines)
    {
      ghost var start := ttsEnabled;
      for i := 0 to |lines|
        invariant ttsEnabled == Run(start, lines[..i])
      {
        ghost var before := ttsEnabled;
        HandleLine(lines[i]);
        RunStep(start, lines, i, before, ttsEnabled);
      }
      assert lines[..|lines|] == lines;
    }
  }

  /** `set_tts` is idempotent: a second identical call leaves the same state. */
  method SetTtsTwice(listener: CommandListener, status: bool)
    modifies listener
    ensures listener.ttsEnabled == status
  {
    listener.SetTts(status);
    var once := listener.IsTtsEnabled();
    listener.SetTts(status);
    var twice := listener.IsTtsEnabled();
    assert once == twice == status;
  }
}
