# Kick chat to Polly bridge: a Dafny model of its text rules

The bridge reads a Kick chat room and speaks selected chat messages through
Amazon Polly. An operator console switches speech on and off. Apart from I/O,
the program has two text-processing rules. Each exists twice: once in the
refactored `src/` package and once in the original single-file `app.py`.

1. **The chat command rule.**
   - A message that starts with `!` is parsed into a voice and a text.
   - The sentence handed to the synthesiser is `"<sender> dice <text>"`.
   - The enabled flag and the leading `!` decide whether a message is spoken at all.
   - `app.py` uses an older grammar: `!m [!voice] text`.
2. **The console toggle.** Each console line is stripped and lower-cased, then:
   - in `src/`, a line containing `on` enables speech, a line containing `off` but not `on` disables it, and any other line is ignored;
   - in `app.py`, every non-blank line without `on` disables speech.

The project has five modules:

- `Wrappers` (wrappers.dfy) holds `Option`.
- `Text` (text.dfy) models the Python `str` operations that both rules use, on ASCII:
  - `isspace`, `strip()`, `split(maxsplit=1)`, `lower()`, `upper()`, `capitalize()`, `startswith` and `p in s`.
  - `strip` and `split` are computed by index scans.
  - Each is also characterised by a predicate: `Trims` and `Decomposes`. Uniqueness lemmas show that the characterisation fixes the result.
- `ChatListener` (chat_listener.dfy) covers `parse_message`, `format_tts_text` and the per-message decision in `listen`. These are pure functions.
  - `parse_message` raises `IndexError` when only whitespace follows the `!`. The model returns `None` in that case.
  - `HandleChatMessage` reports that outcome as `Dropped`, which is how the caller's `except` treats it.
- `CommandListener` (command_listener.dfy) is the `CommandListener` class.
  - Its only state is the `ttsEnabled` field.
  - `Listen` is the console loop, fed with the sequence of lines it would read.
  - It is proved against the left fold `Run` of the one-line rule `Next`.
- `App` (app.dfy) covers `app.py`:
  - the inline `!m` parse `LegacyParse` and the decision `KickDecision`;
  - the console rule `LegacyNext`/`LegacyRun`;
  - the module-level flag, held by the class `App.App`.
  - Lemmas compare both versions:
    - `AliasMessagesAgree`: on a `!m ` message whose content does not start with `!`, both parsers give the same voice and text. `AliasMessagesDifferExample` shows that they differ on `!m !bob hi`.
    - `ConsoleRulesAgree` and `ConsoleRulesDiffer`: where the two console rules agree and where they differ.

Facts about the code that the model keeps as they are:

- The utterance template is `"<sender> dice <text>"` in both versions.
- The missing-sender placeholder is `"???"` in `src/chat_listener.py` and `"Desconocido"` in `app.py`.
- The `src/` parser raises when only whitespace follows the `!`, and the caller logs the error and loses the message.
- `src/` tests `on` before `off`, and `app.py` tests only `on`. In both, a line that contains both words enables speech.
- The alias `m` becomes `Mia`, so the voice does not keep the first token's length; every other token keeps it.

## Model

| member | source | states |
|---|---|---|
| Text.Strip | src/chat_listener.py:17 | `strip()` gives a result that has whitespace at neither end, and that is empty exactly when the input is all whitespace |
| Text.StripTrims | src/chat_listener.py:17 | `strip()` removes only leading and trailing whitespace: its result is a trimming `s[i..j]` of the input |
| Text.StripOfTrims | src/chat_listener.py:17 | any trimming of `s` (blank outside, stripped inside) equals `strip(s)`, so the characterisation determines `strip` |
| Text.StripStripped | src/chat_listener.py:17 | stripping an already stripped string changes nothing (idempotence of `strip`) |
| Text.SplitDecomposes | src/chat_listener.py:18 | `split(maxsplit=1)` gives no parts exactly for a blank string; otherwise the parts are the first token and, if anything follows the whitespace after it, that non-empty remainder |
| Text.SplitOfDecomposes | src/chat_listener.py:18 | any decomposition of a string into a token, a whitespace run and a remainder is what `split(maxsplit=1)` returns, so the characterisation determines `split` |
| Text.SplitStripped | src/chat_listener.py:17-18 | on a stripped non-blank string the first token starts at its first character, is one character long exactly when the second character is whitespace or absent, and the remainder is stripped |
| Text.StripThenSplit | src/chat_listener.py:17-18 | `strip` then `split` on token + blanks + stripped text + blanks gives back the token and the text |
| Text.Split1 | src/chat_listener.py:18 | `split(maxsplit=1)` by index scans; it returns at most two parts, and its full contract is carried by `SplitDecomposes` and `SplitOfDecomposes` |
| Text.Capitalize | src/chat_listener.py:20 | `capitalize()` keeps the length and the lower-cased form and yields at most an initial capital |
| Text.Lower | src/chat_listener.py:20 | ASCII `lower()`, character by character; it keeps the length, and `StripOfLower`, `LowerOfUpper` and `CapitalizeKeepsNoSpace` state how it interacts with `strip`, `upper` and `capitalize` |
| Text.CapitalizeKeepsNoSpace | src/chat_listener.py:20 | lower-casing then capitalising a whitespace-free token keeps it whitespace-free |
| Text.LowerOfUpper | src/command_listener.py:38 | `s.upper().lower() == s.lower()` |
| Text.StripOfLower | src/command_listener.py:38 | `strip` commutes with `lower` |
| Text.ContainsStrip | src/command_listener.py:38-43 | for a non-empty whitespace-free pattern, `p in s.strip()` holds exactly when `p in s` |
| ChatListener.VoiceFor | src/chat_listener.py:20 | the alias `m` in either case gives `Mia`; any other token gives a capitalised word of the same length with the same lower-cased form; whitespace-free tokens give whitespace-free voices |
| ChatListener.ParseMessage | src/chat_listener.py:15-21 | the parse fails (the `IndexError`) exactly when only whitespace follows the first character; on success the voice is `VoiceFor` of the first token and the text is the remainder after the first whitespace run, so the voice is non-empty, capitalised and whitespace-free and the text is stripped |
| ChatListener.ParseMessageOfDecomposes | src/chat_listener.py:17-20 | the converse: for every decomposition of the stripped body into a token and a text, the parse is `(VoiceFor(token), text)` |
| ChatListener.ParseIgnoresFirstChar | src/chat_listener.py:17 | the first character never affects the parse |
| ChatListener.VoiceExamples | src/chat_listener.py:20 | `m` and `M` give `Mia`; `bob` and `BOB` give `Bob` |
| ChatListener.ParseExampleAlias | src/chat_listener.py:16-21 | `!m hello there` parses to `("Mia", "hello there")` |
| ChatListener.ParseExampleAliasOnly | src/chat_listener.py:16-21 | `!M` parses to `("Mia", "")` |
| ChatListener.ParseExampleVoice | src/chat_listener.py:16-21 | `!bob hi` parses to `("Bob", "hi")` |
| ChatListener.ParseExampleUpperVoice | src/chat_listener.py:16-21 | `!BOB` parses to `("Bob", "")` |
| ChatListener.ParseExampleBlank | src/chat_listener.py:18-19 | `!` and `!` followed by blanks make the parse fail |
| ChatListener.FormatTtsText | src/chat_listener.py:24-25 | the utterance is the sender, then ` dice `, then exactly the text |
| ChatListener.FormatTtsTextInjective | src/chat_listener.py:24-25 | for one sender, different texts give different utterances |
| ChatListener.HandleChatMessage | src/chat_listener.py:39-53 | a message is parsed only when speech is on and it starts with `!`; it is dropped exactly when the parse fails; otherwise it is spoken with the parsed voice and the utterance `FormatTtsText(<sender or "???">, parsed text)`, the voice being non-empty, capitalised and whitespace-free; missing content counts as `""` |
| CommandListener.Classify | src/command_listener.py:38-44 | a line enables exactly when its lower-cased form contains `on`, and disables exactly when it contains `off` but not `on` |
| CommandListener.Next | src/command_listener.py:38-44 | the flag after one line: set if the line says `on`, cleared if it says `off` but not `on`, unchanged otherwise |
| CommandListener.Run | src/command_listener.py:37-44 | the flag after a sequence of lines, the left fold of `Next`; its contract is carried by `RunIgnoresUnchangedSuffix`, `LastDecisiveLineWins`, `RunWithoutCommands` and the `Listen` loop |
| CommandListener.BlankLineKeepsState | src/command_listener.py:38-40 | a line that is empty after `strip()` leaves the flag unchanged |
| CommandListener.NextIgnoresCase | src/command_listener.py:38 | a line and its upper-cased form have the same effect |
| CommandListener.RunIgnoresUnchangedSuffix | src/command_listener.py:37-44 | trailing lines that say neither `on` nor `off` do not change the flag |
| CommandListener.LastDecisiveLineWins | src/command_listener.py:37-44 | after any input the flag is set by the last line that says `on` or `off` |
| CommandListener.RunWithoutCommands | src/command_listener.py:37-44 | without a line that says `on` or `off` the flag keeps its initial value |
| CommandListener.CommandListener.constructor | src/command_listener.py:6-8 | the flag starts at `initial_state` |
| CommandListener.CommandListener.SetTts | src/command_listener.py:10-11 | after `set_tts(b)` the flag is `b` and nothing else changes |
| CommandListener.CommandListener.IsTtsEnabled | src/command_listener.py:17-18 | returns the flag and changes nothing |
| CommandListener.CommandListener.HandleLine | src/command_listener.py:38-44 | one loop iteration moves the flag from `e` to `Next(e, line)` |
| CommandListener.CommandListener.Listen | src/command_listener.py:37-44 | after the loop has read `lines`, the flag is `Run(initial, lines)` |
| CommandListener.SetTtsTwice | src/command_listener.py:10-11 | `set_tts(b)` twice leaves the same state as once |
| App.LegacyParseShape | app.py:89-97 | the `!m` parse never fails; its text is stripped; its voice is capitalised and whitespace-free, and empty exactly when the first token is a bare `!` |
| App.LegacyParse | app.py:89-97 | the inline `!m` parse; its contract is carried by `LegacyParseShape`, `LegacyParseExplicitVoice` and `LegacyParseDefaultVoice` |
| App.LegacyParseExplicitVoice | app.py:89-94 | a first token `!name` gives the voice `name` lower-cased then capitalised, and the remainder (or `""`) as text |
| App.LegacyParseDefaultVoice | app.py:89-97 | without a `!name` first token the voice is `Mia` and the text is the whole stripped content, `("Mia", "")` for empty content included |
| App.KickDecision | app.py:85-101 | nothing is ever dropped; a message is spoken exactly when speech is on and it starts with `!m `; it is spoken with the voice of `LegacyParse` on what follows `!m ` and the utterance `FormatTtsText(<username or "Desconocido">, LegacyParse text)` |
| App.AliasMessagesAgree | app.py:88-97 | on a `!m ` message whose content does not start with `!`, the `src/` parser and the `app.py` parser give the same voice and text |
| App.AliasMessagesDifferExample | app.py:88-97 | on `!m !bob hi` the `src/` parser gives `("Mia", "!bob hi")` while the `app.py` parse gives `("Bob", "hi")`, so the agreement needs its precondition |
| App.LegacyClassify | app.py:60-69 | a line leaves the flag alone exactly when it is blank, enables exactly when its lower-cased form contains `on`, and disables exactly when it is non-blank without `on` |
| App.LegacyNext | app.py:60-69 | the flag after one console line under the `app.py` rule: `LegacyClassify`, `ConsoleRulesAgree` and `ConsoleRulesDiffer` state its cases |
| App.LegacyRun | app.py:57-69 | the flag after a sequence of console lines, the left fold of `LegacyNext`; `LegacyLastNonBlankLineWins` and the `CommandLineListener` loop carry its contract |
| App.ConsoleRulesAgree | app.py:60-69 | on blank lines and on lines that say `on` or `off`, the `app.py` rule and the `src/` rule have the same effect |
| App.ConsoleRulesDiffer | app.py:64-69 | on a non-blank line that says neither word, `app.py` disables while `src/` keeps the flag |
| App.LegacyLastNonBlankLineWins | app.py:57-69 | under the `app.py` rule the flag is decided by the last non-blank line |
| App.App.constructor | app.py:30 | the flag starts as `--set == on` |
| App.App.HandleLine | app.py:60-69 | one loop iteration moves the flag from `e` to `LegacyNext(e, line)` |
| App.App.CommandLineListener | app.py:57-69 | after the loop has read `lines`, the flag is `LegacyRun(initial, lines)` |
| App.App.OnChatMessage | app.py:85-101 | each chat message is decided by `KickDecision` on the current flag |

## Left out

- WebSocket connection, Pusher subscription, the receive loop and JSON decoding (src/chat_listener.py:27-38, app.py:73-84). The model starts from the already-extracted sender and content. Each is an `Option`, `None` when the key is absent. A `null` or non-string value in the JSON is not modelled.
- Threads: one synthesis thread per message, and the daemon threads for the console and the chat listener. The `Speak` outcome carries the arguments that such a thread would receive.
- Standard input. Console loops read from a finite sequence of lines. The endless `while True` and end of file (`readline()` returning `""`, a blank line forever) are not modelled.
- Logging and `print` output, including the warnings and log lines that `set_tts` writes. None of it changes state.
- src/tts_service.py (Polly synthesis, engine fallback, playback and its lock and timing), src/logger_setup.py and src/config.py are not part of this model.
- src/main.py is not part of this model. Its wiring passes `tts_enabled_callable=` while `ChatListener.__init__` takes `state`, so the chat side's flag is a plain boolean parameter here.
- Command-line parsing in `app.py` (`--set on|off`). The initial flag is a constructor parameter.
- Non-ASCII characters. `lower`, `upper`, `capitalize` and `isspace` are modelled on ASCII only; every other character is left unchanged and is not whitespace. Python's Unicode case mapping and Unicode whitespace are not captured.
- ChatListener.VoiceFor: states equal length only for tokens other than the alias `m`, because `Mia` is longer than `m`.
