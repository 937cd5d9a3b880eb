/** The assistant of agent.py: an agent that answers a prompt from a fixed
    knowledge base, after lower-casing and stripping it. */
module Assistant {
  import opened Text
  import opened Agents

  // The long replies are written in pieces so that the verifier can see
  // their characters.
  const Fallback: string := "I'm sorry, I don't understand " + "that request. Try asking for 'help'."

  const HelloReply: string := "Hello! How can I help you today?"
  const WeatherReply: string :=
    "I can't check the current weather, " + "but I can tell you it's always sunny " + "in my code!"
  const TimeReply: string :=
    "I don't have access to real-time " + "information, but it's a great time " + "to code!"
  const HelpReply: string :=
    "I can help you with questions about " + "my name, the weather, and general " + "greetings."

  function NameReply(name: string): (r: string)
  {
    "My name is " + name + ". What's yours?"
  }

  /** The knowledge base built by the constructor for an assistant called
      `name`; the "name" entry quotes that name. */
  function KnowledgeBase(name: string): (kb: map<string, string>)
    ensures kb.Keys == {"hello", "weather", "name", "time", "help"}
  {
    map[
      "hello" := HelloReply,
      "weather" := WeatherReply,
      "name" := NameReply(name),
      "time" := TimeReply,
      "help" := HelpReply
    ]
  }

  /** `dict.get(key, default)`. */
  function Lookup(kb: map<string, string>, key: string, default: string): (r: string)
    ensures key in kb ==> r == kb[key]
    ensures key !in kb ==> r == default
  {
    if key in kb then kb[key] else default
  }

  /** The answer to `prompt` from knowledge base `kb`: an entry of `kb` or
      the fallback, the entry being the one under the lower-cased,
      whitespace-stripped prompt. */
  function Answer(kb: map<string, string>, prompt: string): (r: string)
    ensures r in kb.Values || r == Fallback
    ensures Normalize(prompt) in kb ==> r == kb[Normalize(prompt)]
    ensures Normalize(prompt) !in kb ==> r == Fallback
  {
    Lookup(kb, Normalize(prompt), Fallback)
  }

  class AssistantAgent {
    /** The agent this assistant extends: its name, role and inbox. */
    const base: Agent
    const knowledgeBase: map<string, string>

    constructor (name: string, role: string := "assistant")
      ensures fresh(base)
      ensures base.name == name && base.role == role && base.messageInbox == []
      ensures knowledgeBase == KnowledgeBase(name)
    {
      base := new Agent(name, role);
      knowledgeBase := KnowledgeBase(name);
    }

    /** `act`, overriding the base agent's: the knowledge-base entry for the
        normalised prompt, or the fallback. It reads only constants, so it
        changes neither the knowledge base nor any inbox. */
    function Act(prompt: string): (r: string)
      ensures Normalize(prompt) in knowledgeBase ==> r == knowledgeBase[Normalize(prompt)]
      ensures Normalize(prompt) !in knowledgeBase ==> r == Fallback
    {
      Answer(knowledgeBase, prompt)
    }
  }

  /** An assistant created as `AssistantAgent(name)` answers a prompt whose
      normalised form is a key with that key's entry, and every other prompt
      with the fallback. The match is exact: a key that only occurs inside
      the prompt does not count. */
  lemma {:induction false} AnswerSpec(name: string, prompt: string)
    ensures var key := Normalize(prompt);
      Answer(KnowledgeBase(name), prompt) ==
        if key == "hello" then HelloReply
        else if key == "weather" then WeatherReply
        else if key == "name" then NameReply(name)
        else if key == "time" then TimeReply
        else if key == "help" then HelpReply
        else Fallback
  {
    var kb := KnowledgeBase(name);
    var key := Normalize(prompt);
    if key !in {"hello", "weather", "name", "time", "help"} {
      assert key !in kb;
    }
  }

  /** No entry of the knowledge base is the fallback. */
  lemma {:induction false} NoEntryIsFallback(name: string)
    ensures forall key :: key in KnowledgeBase(name) ==> KnowledgeBase(name)[key] != Fallback
  {
    var kb := KnowledgeBase(name);
    assert Fallback[2] == 'm';
    assert HelloReply[2] != 'm';
    assert WeatherReply[2] != 'm';
    assert NameReply(name)[2] != 'm';
    assert TimeReply[2] != 'm';
    assert HelpReply[2] != 'm';
  }

  /** So the fallback is given exactly when the normalised prompt is not a
      key. */
  lemma {:induction false} FallbackIffUnknown(name: string, prompt: string)
    ensures Answer(KnowledgeBase(name), prompt) == Fallback <==>
      Normalize(prompt) !in KnowledgeBase(name)
  {
    NoEntryIsFallback(name);
  }

  /** The answer does not depend on the case of the prompt or on whitespace
      around it. */
  lemma {:induction false} AnswerIgnoresCaseAndPadding(kb: map<string, string>, lead: string, prompt: string, trail: string)
    requires AllIn(lead, Whitespace) && AllIn(trail, Whitespace)
    ensures Answer(kb, lead + Upper(prompt) + trail) == Answer(kb, prompt)
  {
    NormalizeIgnoresCaseAndPadding(lead, prompt, trail);
  }

  /** The same for an assistant object, in the form `act(" " + p.upper() + " ")`. */
  lemma {:induction false} ActIgnoresCaseAndPadding(a: AssistantAgent, prompt: string)
    ensures a.Act(" " + Upper(prompt) + " ") == a.Act(prompt)
  {
    AnswerIgnoresCaseAndPadding(a.knowledgeBase, " ", prompt, " ");
  }

  /** A prompt that is not padded and whose length is not that of a key
      gets the fallback. */
  lemma {:induction false} UnknownByLength(name: string, prompt: string)
    requires prompt != [] && LowerChar(prompt[0]) !in Whitespace
    requires LowerChar(prompt[|prompt| - 1]) !in Whitespace
    requires |prompt| !in {4, 5, 7}
    ensures Answer(KnowledgeBase(name), prompt) == Fallback
  {
    NormalizeUnpadded(prompt);
    var key := Normalize(prompt);
    assert |key| == |prompt|;
    assert key !in {"hello", "weather", "name", "time", "help"};
    assert key !in KnowledgeBase(name);
  }

  /** The prompts of the demonstration in agent.py: "Hello" is found ... */
  lemma {:induction false} DemoHello()
    ensures Answer(KnowledgeBase("Cody"), "Hello") == HelloReply
  {
    NormalizeUnpadded("Hello");
    var l := Lower("Hello");
    assert l[0] == 'h' && l[1] == 'e' && l[2] == 'l' && l[3] == 'l' && l[4] == 'o';
    assert l == "hello";
  }

  /** ... while "What's the weather like?" and the two other questions get
      the fallback, although "weather" is a key. */
  lemma {:induction false} DemoUnknown()
    ensures Answer(KnowledgeBase("Cody"), "What's the weather like?") == Fallback
    ensures Answer(KnowledgeBase("Cody"), "who are you?") == Fallback
    ensures Answer(KnowledgeBase("Cody"), "what's the capital of France?") == Fallback
  {
    UnknownByLength("Cody", "What's the weather like?");
    UnknownByLength("Cody", "who are you?");
    UnknownByLength("Cody", "what's the capital of France?");
  }
}
