/**
 * The prompt built at the start of `generate_response` in the Streamlit
 * application: the same layout as `AIService._format_messages`, but only
 * the three known roles are written, each with a fixed prefix.
 */
module MainPrompt {
  import opened Text
  import opened AiService

  /** The roles the builder writes, and the prefix each is written with. */
  const Prefixes: map<string, string> := map["system" := "SYSTEM: ", "user" := "USER: ", "assistant" := "ASSISTANT: "]

  predicate Known(role: string) {
    role in Prefixes
  }

  /** What one message adds: its prefixed content and a blank line, or nothing for another role. */
  function KnownEntry(m: ChatMessage): string {
    if m.role in Prefixes then Prefixes[m.role] + m.content + "\n\n" else ""
  }

  function KnownBody(ms: seq<ChatMessage>): string {
    if ms == [] then "" else KnownBody(ms[..|ms| - 1]) + KnownEntry(ms[|ms| - 1])
  }

  /** The prompt-building loop of `generate_response`. */
  method BuildPrompt(messages: seq<ChatMessage>) returns (prompt: string)
    ensures prompt == KnownBody(messages) + Cue
  {
    prompt := "";
    for i := 0 to |messages|
      invariant prompt == KnownBody(messages[..i])
    {
      var role := messages[i].role;
      var content := messages[i].content;
      assert messages[..i + 1][..i] == messages[..i];
      ghost var entry := KnownEntry(messages[i]);
      assert KnownBody(messages[..i + 1]) == prompt + entry;
      if role == "system" {
        assert Prefixes[role] == "SYSTEM: ";
        prompt := prompt + ("SYSTEM: " + content + "\n\n");
      } else if role == "user" {
        assert Prefixes[role] == "USER: ";
        prompt := prompt + ("USER: " + content + "\n\n");
      } else if role == "assistant" {
        assert Prefixes[role] == "ASSISTANT: ";
        prompt := prompt + ("ASSISTANT: " + content + "\n\n");
      } else {
        assert entry == "";
      }
    }
    assert messages[..|messages|] == messages;
    prompt := prompt + Cue;
  }

  /** The prefix of a known role is the role in upper case, as the other builder writes it. */
  lemma PrefixIsUpperRole(role: string)
    requires Known(role)
    ensures Prefixes[role] == ToUpper(role) + ": "
  {
    if role == "system" {
      assert ToUpper(role) == "SYSTEM";
      assert "SYSTEM" + ": " == "SYSTEM: ";
    } else if role == "user" {
      assert ToUpper(role) == "USER";
      assert "USER" + ": " == "USER: ";
    } else {
      assert ToUpper(role) == "ASSISTANT";
      assert "ASSISTANT" + ": " == "ASSISTANT: ";
    }
  }

  /** The messages with a known role, in their order. */
  function KnownOnly(ms: seq<ChatMessage>): (r: seq<ChatMessage>)
    ensures forall m :: m in r <==> m in ms && Known(m.role)
  {
    if ms == [] then []
    else
      var init := KnownOnly(ms[..|ms| - 1]);
      assert forall m :: m in ms <==> m in ms[..|ms| - 1] || m == ms[|ms| - 1];
      if Known(ms[|ms| - 1].role) then init + [ms[|ms| - 1]] else init
  }

  /** Filtering keeps the order: the known messages of a concatenation are those of each part, in turn. */
  lemma {:induction false} KnownOnlyConcat(a: seq<ChatMessage>, b: seq<ChatMessage>)
    ensures KnownOnly(a + b) == KnownOnly(a) + KnownOnly(b)
    decreases |b|
  {
    if b == [] {
      assert a + b == a;
    } else {
      var init, m := b[..|b| - 1], b[|b| - 1];
      assert (a + b)[..|a + b| - 1] == a + init && (a + b)[|a + b| - 1] == m;
      KnownOnlyConcat(a, init);
    }
  }

  /** A list of known messages is kept whole. */
  lemma {:induction false} KnownOnlyOfKnown(ms: seq<ChatMessage>)
    requires forall m :: m in ms ==> Known(m.role)
    ensures KnownOnly(ms) == ms
  {
    if ms != [] {
      var n := |ms| - 1;
      assert forall m :: m in ms[..n] ==> m in ms;
      KnownOnlyOfKnown(ms[..n]);
      assert ms[n] in ms;
      assert ms[..n] + [ms[n]] == ms;
    }
  }

  /** Adding a message at the end adds its entry at the end. */
  lemma KnownBodySnoc(ms: seq<ChatMessage>, m: ChatMessage)
    ensures KnownBody(ms + [m]) == KnownBody(ms) + KnownEntry(m)
  {
    assert (ms + [m])[..|ms|] == ms;
  }

  /** Messages with any other role contribute nothing: the prompt is that of the known messages alone. */
  lemma {:induction false} UnknownRolesSkipped(ms: seq<ChatMessage>)
    ensures KnownBody(ms) == KnownBody(KnownOnly(ms))
  {
    if ms != [] {
      var n := |ms| - 1;
      UnknownRolesSkipped(ms[..n]);
      var init := KnownOnly(ms[..n]);
      if Known(ms[n].role) {
        KnownBodySnoc(init, ms[n]);
      }
    }
  }

  /** Order is kept: the prompt of a concatenation is the concatenation of the prompts. */
  lemma {:induction false} KnownBodyConcat(a: seq<ChatMessage>, b: seq<ChatMessage>)
    ensures KnownBody(a + b) == KnownBody(a) + KnownBody(b)
    decreases |b|
  {
    if b == [] {
      assert a + b == a;
    } else {
      var init, m := b[..|b| - 1], b[|b| - 1];
      assert b == init + [m];
      KnownBodyConcat(a, init);
      KnownBodyConcatStep(a, b, init, m);
    }
  }

  lemma KnownBodyConcatStep(a: seq<ChatMessage>, b: seq<ChatMessage>, init: seq<ChatMessage>, m: ChatMessage)
    requires b == init + [m] && KnownBody(a + init) == KnownBody(a) + KnownBody(init)
    ensures KnownBody(a + b) == KnownBody(a) + KnownBody(b)
  {
    var front := a + init;
    assert a + b == front + [m];
    KnownBodySnoc(front, m);
    KnownBodySnoc(init, m);
    AppendAssoc(KnownBody(a), KnownBody(init), KnownEntry(m));
  }

  lemma AppendAssoc(x: string, y: string, z: string)
    ensures (x + y) + z == x + (y + z)
  {
  }

  /** The prompt ends with the cue, and an empty list gives the cue alone. */
  lemma BuiltPromptEndsWithCue(ms: seq<ChatMessage>)
    ensures EndsWith(KnownBody(ms) + Cue, Cue)
    ensures ms == [] ==> KnownBody(ms) + Cue == "ASSISTANT: "
  {
    var p := KnownBody(ms) + Cue;
    assert p[|p| - |Cue|..] == Cue;
  }

  /** When every role is one of the three known ones, both prompt builders agree. */
  lemma {:induction false} BuildersAgreeOnKnownRoles(ms: seq<ChatMessage>)
    requires forall m :: m in ms ==> Known(m.role)
    ensures KnownBody(ms) == Body(ms)
  {
    if ms != [] {
      var n := |ms| - 1;
      assert forall m :: m in ms[..n] ==> m in ms;
      BuildersAgreeOnKnownRoles(ms[..n]);
      assert ms[n] in ms;
      PrefixIsUpperRole(ms[n].role);
      assert KnownEntry(ms[n]) == Entry(ms[n]);
      assert KnownBody(ms) == KnownBody(ms[..n]) + KnownEntry(ms[n]);
      assert Body(ms) == Body(ms[..n]) + Entry(ms[n]);
    }
  }
}
