/**
 * The pure part of src/chat_listener.py: the `!voice text` command parser, the
 * utterance template, and the decision taken for each chat message once the
 * WebSocket frame has been decoded into a sender name and a content string.
 */
module ChatListener {
  import opened Wrappers
  import opened Text

  /** A parsed chat command: the voice to speak with and the text to speak. */
  datatype Command = Command(voice: string, text: string)

  /** What the receive loop does with one chat message. */
  datatype ChatOutcome =
    | Silent                                  // TTS off, or not a `!` command
    | Dropped                                 // the parse raised; the error is logged and the message lost
    | Speak(utterance: string, voice: string) // a synthesis thread is started with these arguments

  const DefaultVoice: string := "Mia"
  const VoiceAlias: string := "m"
  const UnknownSender: string := "???"
  const Separator: string := " dice "

  /** `raw[1:]`: Python slicing, so an empty string stays empty. */
  function DropFirst(raw: string): string
  {
    if raw == [] then [] else raw[1..]
  }

  /** The voice named by the first token: the alias `m` (any case) is Mia,
      anything else is the token lower-cased then capitalised. */
  function VoiceFor(token: string): (voice: string)
    ensures Lower(token) == VoiceAlias ==> voice == DefaultVoice
    ensures Lower(token) != VoiceAlias ==> |voice| == |token| && Lower(voice) == Lower(token)
    ensures token != [] ==> voice != []
    ensures IsCapitalized(voice)
    ensures NoSpace(token) ==> NoSpace(voice)
  {
    if Lower(token) == VoiceAlias then DefaultVoice
    else
      var v := Capitalize(Lower(token));
      assert Lower(Lower(token)) == Lower(token);
      assert forall i :: 0 <= i < |v| ==> (IsSpace(v[i]) ==> IsSpace(token[i])) by {
        forall i | 0 <= i < |v| && IsSpace(v[i]) ensures IsSpace(token[i]) {
          if i > 0 { assert v[i] == Lower(Lower(token)[1..])[i - 1]; }
        }
      }
      v
  }

  /**
   * `ChatListener.parse_message`: drop the first character, strip, split once
   * on whitespace. `None` stands for the IndexError raised by `parts[0]` when
   * nothing but whitespace follows the first character.
   */
  function ParseMessage(raw: string): (r: Option<Command>)
    ensures r.None? <==> AllSpace(DropFirst(raw))
    ensures r.Some? ==>
      exists token :: Decomposes(Strip(DropFirst(raw)), token, r.value.text) && r.value.voice == VoiceFor(token)
    ensures r.Some? ==>
      r.value.voice != [] && NoSpace(r.value.voice) && IsCapitalized(r.value.voice) && IsStripped(r.value.text)
  {
    var content := Strip(DropFirst(raw));
    var parts := Split1(content);
    SplitDecomposes(content);
    if parts == [] then None
    else
      SplitStripped(content);
      Some(Command(VoiceFor(parts[0]), if |parts| == 2 then parts[1] else []))
  }

  /** The converse of `ParseMessage`'s contract: any decomposition of the stripped
      body into a token and a remainder is the parse. */
  lemma ParseMessageOfDecomposes(raw: string, token: string, text: string)
    requires Decomposes(Strip(DropFirst(raw)), token, text)
    ensures ParseMessage(raw) == Some(Command(VoiceFor(token), text))
  {
    SplitOfDecomposes(Strip(DropFirst(raw)), token, text);
  }

  /** The first character is never looked at: the caller has already checked it is `!`. */
  lemma ParseIgnoresFirstChar(c: char, d: char, body: string)
    ensures ParseMessage([c] + body) == ParseMessage([d] + body)
  {
    assert DropFirst([c] + body) == body == DropFirst([d] + body);
  }

  /** `ChatListener.format_tts_text`: "<sender> dice <text>". */
  function FormatTtsText(sender: string, text: string): (r: string)
    ensures |r| == |sender| + |Separator| + |text|
    ensures StartsWith(r, sender + Separator) && r[|sender| + |Separator|..] == text
  {
    sender + Separator + text
  }

  /** For a fixed sender, the utterance determines the spoken text. */
  lemma FormatTtsTextInjective(sender: string, t1: string, t2: string)
    requires FormatTtsText(sender, t1) == FormatTtsText(sender, t2)
    ensures t1 == t2
  {
    assert t1 == FormatTtsText(sender, t1)[|sender| + |Separator|..];
  }

  /**
   * The per-message decision inside `ChatListener.listen`, given the sender's
   * `username` and the message `content` as they were found (or not) in the
   * decoded payload, and the TTS flag read once for this message.
   */
  function HandleChatMessage(ttsEnabled: bool, username: Option<string>, content: Option<string>): (o: ChatOutcome)
    ensures var msg := content.GetOr([]);
      && (o.Silent? <==> !(ttsEnabled && StartsWith(msg, "!")))
      && (o.Dropped? <==> ttsEnabled && StartsWith(msg, "!") && AllSpace(msg[1..]))
    ensures var msg := content.GetOr([]);
      o.Speak? ==>
        && ParseMessage(msg).Some?
        && o.voice == ParseMessage(msg).value.voice
        && o.utterance == FormatTtsText(username.GetOr(UnknownSender), ParseMessage(msg).value.text)
    ensures o.Speak? ==>
      && StartsWith(o.utterance, username.GetOr(UnknownSender) + Separator)
      && o.voice != [] && NoSpace(o.voice) && IsCapitalized(o.voice)
  {
    var msg := content.GetOr([]);
    var sender := username.GetOr(UnknownSender);
    if ttsEnabled && StartsWith(msg, "!") then
      match ParseMessage(msg)
      case None => Dropped
      case Some(command) => Speak(FormatTtsText(sender, command.text), command.voice)
    else Silent
  }

  /** The alias in either case is Mia; any other name is normalised to one capital letter. */
  lemma VoiceExamples()
    ensures VoiceFor("m") == "Mia" && VoiceFor("M") == "Mia"
    ensures VoiceFor("bob") == "Bob" && VoiceFor("BOB") == "Bob"
  {
    assert Lower("m") == "m" && Lower("M") == "m";
    assert Lower("bob") == "bob" && Lower("BOB") == "bob";
    assert Capitalize("bob") == "Bob";
  }

  /** `!m hello there` speaks "hello there" with Mia. */
  lemma ParseExampleAlias()
    ensures ParseMessage("!m hello there") == Some(Command("Mia", "hello there"))
  {
    assert DropFirst("!m hello there") == "m" + " " + "hello there" + "";
    StripThenSplit("m", " ", "hello there", "");
    ParseMessageOfDecomposes("!m hello there", "m", "hello there");
    VoiceExamples();
  }

  /** `!M` alone: the alias in upper case, and no text. */
  lemma ParseExampleAliasOnly()
    ensures ParseMessage("!M") == Some(Command("Mia", ""))
  {
    assert Strip(DropFirst("!M")) == "M" by { StripStripped("M"); }
    assert Decomposes("M", "M", "") by { assert "M"[..1] == "M"; }
    ParseMessageOfDecomposes("!M", "M", "");
    VoiceExamples();
  }

  /** `!bob hi` speaks "hi" with Bob. */
  lemma ParseExampleVoice()
    ensures ParseMessage("!bob hi") == Some(Command("Bob", "hi"))
  {
    assert DropFirst("!bob hi") == "bob" + " " + "hi" + "";
    StripThenSplit("bob", " ", "hi", "");
    ParseMessageOfDecomposes("!bob hi", "bob", "hi");
    VoiceExamples();
  }

  /** `!BOB` is normalised to Bob, with no text. */
  lemma ParseExampleUpperVoice()
    ensures ParseMessage("!BOB") == Some(Command("Bob", ""))
  {
    assert Strip(DropFirst("!BOB")) == "BOB" by { StripStripped("BOB"); }
    assert Decomposes("BOB", "BOB", "") by { assert "BOB"[..3] == "BOB"; }
    ParseMessageOfDecomposes("!BOB", "BOB", "");
    VoiceExamples();
  }

  /** A bare `!`, or `!` and blanks, makes `parts[0]` raise. */
  lemma ParseExampleBlank()
    ensures ParseMessage("!") == None && ParseMessage("!   ") == None
  {
  }
}
