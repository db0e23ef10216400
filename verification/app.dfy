/**
 * app.py, the original single-file version of the bridge: an older command
 * grammar (`!m [!voice] text`), the username fallback "Desconocido", and a
 * console rule in which every non-blank line without "on" disables speech.
 * The module-level `tts_enabled` is held by an `App` object.
 */
module App {
  import opened Wrappers
  import opened Text
  import opened ChatListener
  import opened CommandListener

  const CommandPrefix: string := "!m "
  const UnknownUser: string := "Desconocido"

  /** The first token of `s` is a bare `!`. */
  predicate BareBang(s: string) {
    |s| >= 1 && s[0] == '!' && (|s| == 1 || IsSpace(s[1]))
  }

  /**
   * The inline parse of what follows `!m `: a first token `!name` selects the
   * voice Name and leaves the rest as text; otherwise Mia speaks the whole
   * stripped content. Nothing here can raise.
   */
  function LegacyParse(rest: string): Command
  {
    var content := Strip(rest);
    var parts := Split1(content);
    if parts != [] && StartsWith(parts[0], "!") then
      Command(Capitalize(Lower(parts[0][1..])), if |parts| > 1 then parts[1] else [])
    else
      Command(DefaultVoice, content)
  }

  /** The text is stripped, the voice capitalised and free of whitespace, and the
      voice is empty exactly when the first token is a bare `!`. */
  lemma LegacyParseShape(rest: string)
    ensures var c := LegacyParse(rest);
      && IsStripped(c.text)
      && IsCapitalized(c.voice) && NoSpace(c.voice)
      && (c.voice == [] <==> BareBang(Strip(rest)))
  {
    var content := Strip(rest);
    var parts := Split1(content);
    if parts != [] && StartsWith(parts[0], "!") {
      SplitStripped(content);
      ExplicitVoiceShape(content, parts[0]);
    } else {
      assert !BareBang(content) by {
        if content != [] {
          SplitFirstToken(content);
          assert parts[0][..1][0] == content[0];
        }
      }
      assert "Mia"[0] == 'M' && "Mia"[1] == 'i' && "Mia"[2] == 'a';
    }
  }

  /** The voice named by a `!name` first token of a stripped content. */
  lemma ExplicitVoiceShape(content: string, tok: string)
    requires tok != [] && tok[0] == '!' && NoSpace(tok)
    requires content != [] && tok[0] == content[0] && (|tok| == 1 <==> (|content| == 1 || IsSpace(content[1])))
    ensures var voice := Capitalize(Lower(tok[1..]));
      && IsCapitalized(voice) && NoSpace(voice)
      && (voice == [] <==> BareBang(content))
  {
    var name := tok[1..];
    assert NoSpace(name) by {
      forall i | 0 <= i < |name| ensures !IsSpace(name[i]) { assert name[i] == tok[i + 1]; }
    }
    CapitalizeKeepsNoSpace(name);
    assert |Capitalize(Lower(name))| == |tok| - 1;
  }

  /** A `!name` first token selects the voice Name and the remainder is the text. */
  lemma LegacyParseExplicitVoice(rest: string, token: string, text: string)
    requires Decomposes(Strip(rest), token, text) && token[0] == '!'
    ensures LegacyParse(rest) == Command(Capitalize(Lower(token[1..])), text)
  {
    SplitOfDecomposes(Strip(rest), token, text);
  }

  /** Without a `!name` first token, Mia speaks the whole stripped content (empty content included). */
  lemma LegacyParseDefaultVoice(rest: string)
    requires Strip(rest) == [] || Strip(rest)[0] != '!'
    ensures LegacyParse(rest) == Command(DefaultVoice, Strip(rest))
  {
    var content := Strip(rest);
    if content != [] {
      SplitFirstToken(content);
      var tok := Split1(content)[0];
      assert !StartsWith(tok, "!") by { assert tok[..1][0] == tok[0]; }
    }
  }

  /** The per-message decision in `kick_listener`: only `!m ` messages are spoken, and none is ever dropped. */
  function KickDecision(ttsEnabled: bool, username: Option<string>, content: Option<string>): (o: ChatOutcome)
    ensures o != Dropped
    ensures var msg := content.GetOr([]);
      o.Speak? <==> ttsEnabled && StartsWith(msg, CommandPrefix)
    ensures var msg := content.GetOr([]);
      o.Speak? ==>
        var c := LegacyParse(msg[|CommandPrefix|..]);
        o.voice == c.voice && o.utterance == FormatTtsText(username.GetOr(UnknownUser), c.text)
    ensures o.Speak? ==>
      StartsWith(o.utterance, username.GetOr(UnknownUser) + Separator) && IsCapitalized(o.voice) && NoSpace(o.voice)
  {
    var msg := content.GetOr([]);
    var user := username.GetOr(UnknownUser);
    if ttsEnabled && StartsWith(msg, CommandPrefix) then
      var command := LegacyParse(msg[|CommandPrefix|..]);
      LegacyParseShape(msg[|CommandPrefix|..]);
      Speak(FormatTtsText(user, command.text), command.voice)
    else Silent
  }

  /**
   * On `!m` messages whose content does not start with `!`, the old and the
   * new parser agree: both speak the stripped content with Mia.
   */
  lemma AliasMessagesAgree(rest: string)
    requires Strip(rest) == [] || Strip(rest)[0] != '!'
    ensures ParseMessage(CommandPrefix + rest) == Some(LegacyParse(rest))
  {
    LegacyParseDefaultVoice(rest);
    var raw := CommandPrefix + rest;
    var text := Strip(rest);
    var i, j := StripTrims(rest);
    // "m", then a blank and the leading blanks of rest, then its stripped text, then its trailing blanks
    var gap := " " + rest[..i];
    AllSpaceConcat(" ", rest[..i]);
    AliasBody(rest, i, j);
    StripThenSplit("m", gap, text, rest[j..]);
    ParseMessageOfDecomposes(raw, "m", text);
    VoiceExamples();
  }

  /** When the content starts with `!` the parsers part ways: `src/` keeps `m` as the
      voice and speaks `!bob hi`, while app.py picks the voice Bob and speaks `hi`. */
  lemma AliasMessagesDifferExample()
    ensures ParseMessage("!m !bob hi") == Some(Command("Mia", "!bob hi"))
    ensures LegacyParse("!bob hi") == Command("Bob", "hi")
  {
    AliasKeepsBang();
    LegacyReadsBang();
  }

  lemma AliasKeepsBang()
    ensures ParseMessage("!m !bob hi") == Some(Command("Mia", "!bob hi"))
  {
    var body := "m !bob hi";
    assert Strip(DropFirst("!m !bob hi")) == body by {
      assert DropFirst("!m !bob hi") == body;
      StripStripped(body);
    }
    assert Decomposes(body, "m", "!bob hi") by {
      assert body[..1] == "m" && body[1..2] == " " && body[2..] == "!bob hi";
    }
    assert VoiceFor("m") == "Mia" by { VoiceExamples(); }
    ParseMessageOfDecomposes("!m !bob hi", "m", "!bob hi");
  }

  lemma LegacyReadsBang()
    ensures LegacyParse("!bob hi") == Command("Bob", "hi")
  {
    assert Decomposes(Strip("!bob hi"), "!bob", "hi") by {
      assert "!bob hi" == "!bob" + " " + "hi" + "";
      StripThenSplit("!bob", " ", "hi", "");
    }
    LegacyParseExplicitVoice("!bob hi", "!bob", "hi");
    assert Capitalize(Lower("!bob"[1..])) == "Bob" by {
      assert "!bob"[1..] == "bob";
      VoiceExamples();
    }
  }

  /** After `!`, an alias message is "m", a blank, then the content, which is its own blanks around its stripped text. */
  lemma AliasBody(rest: string, i: int, j: int)
    requires 0 <= i <= j <= |rest|
    ensures DropFirst(CommandPrefix + rest) == "m" + (" " + rest[..i]) + rest[i..j] + rest[j..]
  {
    var p, q, r := rest[..i], rest[i..j], rest[j..];
    assert DropFirst(CommandPrefix + rest) == "m " + rest by {
      assert (CommandPrefix + rest)[1..] == "m " + rest;
    }
    assert rest == p + q + r;
    assert "m" + (" " + p) == "m " + p;
    assert "m " + (p + q + r) == ("m " + p) + q + r;
  }

  /** The console rule of `command_line_listener`: blank lines are ignored,
      a line containing "on" enables, and every other line disables. */
  function LegacyClassify(line: string): (t: Toggle)
    ensures t == Unchanged <==> AllSpace(line)
    ensures t == Enable <==> Contains(Lower(line), "on")
    ensures t == Disable <==> !AllSpace(line) && !Contains(Lower(line), "on")
  {
    var command := Lower(Strip(line));
    StripOfLower(line);
    ContainsStrip(Lower(line), "on");
    if command == [] then Unchanged
    else if Contains(command, "on") then Enable
    else Disable
  }

  /** The flag after one console line under the app.py rule. */
  function LegacyNext(enabled: bool, line: string): bool
  {
    match LegacyClassify(line)
    case Unchanged => enabled
    case Enable => true
    case Disable => false
  }

  /** The flag after a sequence of console lines under the app.py rule. */
  function LegacyRun(enabled: bool, lines: seq<string>): bool
  {
    if lines == [] then enabled
    else LegacyNext(LegacyRun(enabled, lines[..|lines| - 1]), lines[|lines| - 1])
  }

  lemma LegacyRunStep(enabled: bool, lines: seq<string>, i: int, before: bool, after: bool)
    requires 0 <= i < |lines|
    requires before == LegacyRun(enabled, lines[..i]) && after == LegacyNext(before, lines[i])
    ensures after == LegacyRun(enabled, lines[..i + 1])
  {
    assert lines[..i + 1][..i] == lines[..i];
  }

  /** The two console rules agree on blank lines and on lines that say "on" or "off". */
  lemma ConsoleRulesAgree(enabled: bool, line: string)
    requires AllSpace(line) || Classify(line) != Unchanged
    ensures LegacyNext(enabled, line) == Next(enabled, line)
  {
    if AllSpace(line) { BlankLineKeepsState(enabled, line); }
  }

  /** On any other line app.py disables speech, while the listener keeps its state. */
  lemma ConsoleRulesDiffer(enabled: bool, line: string)
    requires !AllSpace(line) && Classify(line) == Unchanged
    ensures !LegacyNext(enabled, line) && Next(enabled, line) == enabled
  {
  }

  /** Under the app.py rule the flag is decided by the last non-blank line. */
  lemma {:induction false} LegacyLastNonBlankLineWins(enabled: bool, lines: seq<string>, line: string, blanks: seq<string>)
    requires !AllSpace(line)
    requires forall i :: 0 <= i < |blanks| ==> AllSpace(blanks[i])
    ensures LegacyRun(enabled, lines + [line] + blanks) == Contains(Lower(line), "on")
    decreases |blanks|
  {
    var all := lines + [line] + blanks;
    if blanks == [] {
      assert LegacyRun(enabled, all) == LegacyNext(LegacyRun(enabled, lines), line) by {
        assert all[..|all| - 1] == lines && all[|all| - 1] == line;
      }
    } else {
      var init, last := blanks[..|blanks| - 1], blanks[|blanks| - 1];
      var before := LegacyRun(enabled, lines + [line] + init);
      assert LegacyRun(enabled, all) == LegacyNext(before, last) by {
        assert all[..|all| - 1] == lines + [line] + init && all[|all| - 1] == last;
      }
      assert LegacyNext(before, last) == before by {
        assert AllSpace(last);
      }
      LegacyLastNonBlankLineWins(enabled, lines, line, init);
    }
  }

  /** The module-level state of app.py. */
  class App {
    var ttsEnabled: bool

    /** `tts_enabled = (args.set == 'on')` */
    constructor (setOn: bool)
      ensures ttsEnabled == setOn
    {
      ttsEnabled := setOn;
    }

    /** One iteration of `command_line_listener`; the messages it prints are not modelled. */
    method HandleLine(line: string)
      modifies this
      ensures ttsEnabled == LegacyNext(old(ttsEnabled), line)
    {
      var command := Lower(Strip(line));
      if command == [] {
      } else if Contains(command, "on") {
        ttsEnabled := true;
      } else {
        ttsEnabled := false;
      }
    }

    /** The `command_line_listener` loop over the lines read from the console, in order. */
    method CommandLineListener(lines: seq<string>)
      modifies this
      ensures ttsEnabled == LegacyRun(old(ttsEnabled), lines)
    {
      ghost var start := ttsEnabled;
      for i := 0 to |lines|
        invariant ttsEnabled == LegacyRun(start, lines[..i])
      {
        ghost var before := ttsEnabled;
        HandleLine(lines[i]);
        LegacyRunStep(start, lines, i, before, ttsEnabled);
      }
      assert lines[..|lines|] == lines;
    }

    /** `kick_listener` reads the flag once per message. */
    method OnChatMessage(username: Option<string>, content: Option<string>) returns (o: ChatOutcome)
      ensures o == KickDecision(ttsEnabled, username, content)
    {
      o := KickDecision(ttsEnabled, username, content);
    }
  }
}
