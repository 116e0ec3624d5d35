/**
 * `AIService._format_messages`: a list of role/content messages folded into
 * one prompt, each message as `ROLE: content` and a blank line, then the cue
 * `ASSISTANT: ` for the model's turn.
 */
module AiService {
  import opened Text

  /** One entry of the message list (a dictionary with `role` and `content`). */
  datatype ChatMessage = ChatMessage(role: string, content: string)

  const Cue: string := "ASSISTANT: "

  /** What one message adds to the prompt. */
  function Entry(m: ChatMessage): string {
    ToUpper(m.role) + ": " + m.content + "\n\n"
  }

  /** The prompt before the closing cue: the entries in list order. */
  function Body(ms: seq<ChatMessage>): string {
    if ms == [] then "" else Body(ms[..|ms| - 1]) + Entry(ms[|ms| - 1])
  }

  /** `_format_messages` */
  method FormatMessages(messages: seq<ChatMessage>) returns (prompt: string)
    ensures prompt == Body(messages) + Cue
  {
    prompt := "";
    for i := 0 to |messages|
      invariant prompt == Body(messages[..i])
    {
      var role := ToUpper(messages[i].role);
      var content := messages[i].content;
      assert messages[..i + 1][..i] == messages[..i];
      prompt := prompt + (role + ": " + content + "\n\n");
    }
    assert messages[..|messages|] == messages;
    prompt := prompt + Cue;
  }

  /** The body of a concatenation is the concatenation of the bodies, so list order is kept. */
  lemma {:induction false} BodyConcat(a: seq<ChatMessage>, b: seq<ChatMessage>)
    ensures Body(a + b) == Body(a) + Body(b)
  {
    if b == [] {
      assert a + b == a;
    } else {
      var n := |b| - 1;
      assert (a + b)[..|a + b| - 1] == a + b[..n];
      assert (a + b)[|a + b| - 1] == b[n];
      BodyConcat(a, b[..n]);
      var e := Entry(b[n]);
      calc {
        Body(a + b);
        Body(a + b[..n]) + e;
        (Body(a) + Body(b[..n])) + e;
        Body(a) + (Body(b[..n]) + e);
      }
    }
  }

  /** Every message, whatever its role, contributes its entry. */
  lemma BodyOne(m: ChatMessage)
    ensures Body([m]) == ToUpper(m.role) + ": " + m.content + "\n\n"
  {
    assert [m][..0] == [];
  }

  /** Formatting distributes over concatenation of message lists. */
  lemma FormatConcat(a: seq<ChatMessage>, b: seq<ChatMessage>)
    ensures Body(a + b) + Cue == Body(a) + Body(b) + Cue
  {
    BodyConcat(a, b);
  }

  /** The prompt always ends with the cue, and an empty list gives the cue alone. */
  lemma PromptEndsWithCue(ms: seq<ChatMessage>)
    ensures EndsWith(Body(ms) + Cue, Cue)
    ensures ms == [] ==> Body(ms) + Cue == "ASSISTANT: "
  {
    var p := Body(ms) + Cue;
    assert p[|p| - |Cue|..] == Cue;
  }
}
