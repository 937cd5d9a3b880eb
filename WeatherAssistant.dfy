/** The assistant of agent_final.py: the knowledge-base assistant of
    agent.py, except that any prompt mentioning the weather is answered from
    a weather client, and the knowledge base has no "weather" entry. */
module WeatherAssistant {
  import opened Text
  import opened Agents
  import Assistant

  /** What one call of the weather client's `get(city)` did: it returned the
      current temperature (whole degrees Celsius) and a description, or it
      raised an exception whose text is `message`. */
  datatype Outcome = Report(temperature: int, description: string) | Failure(message: string)

  /** The city `act` asks about. */
  const DefaultCity: string := "Bangalore"

  function ReportIntro(city: string): (r: string)
  {
    "The current temperature in " + city + " is "
  }

  function FailureIntro(city: string): (r: string)
  {
    "Sorry, I couldn't get " + "the weather for " + city + ". Error: "
  }

  /** `get_weather_info(city)`: the client's outcome made into a sentence.
      A failure is reported in the text and never propagates: its sentence
      ends with the exception's text; a report's sentence ends with a full
      stop. */
  function WeatherInfo(city: string, outcome: Outcome): (r: string)
    ensures outcome.Failure? ==> var n := |FailureIntro(city)|;
      n <= |r| && r[..n] == FailureIntro(city) && r[n..] == outcome.message
    ensures outcome.Report? ==> var n := |ReportIntro(city)|;
      n < |r| && r[..n] == ReportIntro(city) && r[|r| - 1] == '.'
  {
    match outcome
    case Report(t, d) => ReportIntro(city) + IntToString(t) + "°C with " + d + "."
    case Failure(e) => FailureIntro(city) + e
  }

  /** The knowledge base built by the constructor for an assistant called
      `name`. */
  function KnowledgeBase(name: string): (kb: map<string, string>)
    ensures kb.Keys == {"hello", "name", "time", "help"}
  {
    map[
      "hello" := Assistant.HelloReply,
      "name" := Assistant.NameReply(name),
      "time" := Assistant.TimeReply,
      "help" := Assistant.HelpReply
    ]
  }

  /** The reply to `prompt` from knowledge base `kb`; `outcome` is what the
      weather client does if this prompt makes a call to it. A prompt
      mentioning the weather gets the weather sentence for Bangalore; any
      other gets its entry or the fallback, and when no entry is the
      fallback, the fallback means exactly that neither applied. */
  function Respond(kb: map<string, string>, prompt: string, outcome: Outcome): (r: string)
    ensures var clean := Normalize(prompt);
      && (Contains(clean, "weather") ==> r == WeatherInfo(DefaultCity, outcome))
      && (!Contains(clean, "weather") && clean in kb ==> r == kb[clean])
      && (!Contains(clean, "weather") && clean !in kb ==> r == Assistant.Fallback)
    ensures (forall key :: key in kb ==> kb[key] != Assistant.Fallback) ==>
      (r == Assistant.Fallback <==> !Contains(Normalize(prompt), "weather") && Normalize(prompt) !in kb)
  {
    var clean := Normalize(prompt);
    if Contains(clean, "weather") then
      WeatherInfoIsNotFallback(DefaultCity, outcome);
      WeatherInfo(DefaultCity, outcome)
    else Assistant.Lookup(kb, clean, Assistant.Fallback)
  }

  class AssistantAgent {
    /** The agent this assistant extends: its name, role and inbox. */
    const base: Agent
    const knowledgeBase: map<string, string>

    /** The weather client of the source is created here; in the model each
        call's outcome is passed to the call that uses it. */
    constructor (name: string, role: string := "assistant")
      ensures fresh(base)
      ensures base.name == name && base.role == role && base.messageInbox == []
      ensures knowledgeBase == KnowledgeBase(name)
    {
      base := new Agent(name, role);
      knowledgeBase := KnowledgeBase(name);
    }

    /** `get_weather_info`, for the city asked about (Bangalore unless
        another is given): never the fallback, and it names the city. */
    function GetWeatherInfo(outcome: Outcome, city: string := DefaultCity): (r: string)
      ensures r != Assistant.Fallback
      ensures outcome.Failure? ==> |FailureIntro(city)| <= |r| && r[..|FailureIntro(city)|] == FailureIntro(city)
      ensures outcome.Report? ==> |ReportIntro(city)| <= |r| && r[..|ReportIntro(city)|] == ReportIntro(city)
    {
      WeatherInfoIsNotFallback(city, outcome);
      WeatherInfo(city, outcome)
    }

    /** `act`, overriding the base agent's: a prompt mentioning the weather
        is answered by `get_weather_info("Bangalore")`, any other from the
        knowledge base. It reads only constants and the outcome of the
        client call, so it changes nothing. */
    function Act(prompt: string, outcome: Outcome): (r: string)
      ensures r == Respond(knowledgeBase, prompt, outcome)
    {
      var clean := Normalize(prompt);
      if Contains(clean, "weather") then GetWeatherInfo(outcome, "Bangalore")
      else Assistant.Lookup(knowledgeBase, clean, Assistant.Fallback)
    }
  }

  /** The text of `get_weather_info` says which way the client call went,
      and what it carried can be read back from it: the exception's text
      after the failure sentence, the temperature after the report's
      introduction. */
  lemma {:induction false} WeatherInfoReadBack(city: string, outcome: Outcome)
    ensures var r := WeatherInfo(city, outcome);
      r != [] && (outcome.Failure? <==> r[0] == 'S')
    ensures outcome.Failure? ==> var r, n := WeatherInfo(city, outcome), |FailureIntro(city)|;
      n <= |r| && r[..n] == FailureIntro(city) && r[n..] == outcome.message
    ensures outcome.Report? ==> var r, n := WeatherInfo(city, outcome), |ReportIntro(city)|;
      var m := |IntToString(outcome.temperature)|;
      && n + m + |"°C with "| < |r| && r[..n] == ReportIntro(city)
      && ParseInt(r[n..n + m]) == outcome.temperature
      && r[n + m + |"°C with "|..|r| - 1] == outcome.description
  {
    var r := WeatherInfo(city, outcome);
    match outcome
    case Failure(e) =>
      assert r == FailureIntro(city) + e;
      assert r[0] == 'S';
    case Report(t, d) =>
      ReportReadBack(ReportIntro(city), IntToString(t), "°C with ", d);
      assert r[0] == 'T';
      ParseIntToString(t);
  }

  /** The pieces of a sentence `intro + digits + mid + d + "."` are where
      they were put. */
  lemma {:induction false} ReportReadBack(intro: string, digits: string, mid: string, d: string)
    ensures var r, n, m := intro + digits + mid + d + ".", |intro|, |digits|;
      && n + m + |mid| < |r| && r[..n] == intro
      && r[n..n + m] == digits && r[n + m + |mid|..|r| - 1] == d
  {
    var r, n, m := intro + digits + mid + d + ".", |intro|, |digits|;
    assert r == intro + (digits + mid + d + ".");
    assert r[n..n + m] == digits;
    assert r[n + m + |mid|..|r| - 1] == d;
  }

  /** No reply about the weather is the fallback. */
  lemma {:induction false} WeatherInfoIsNotFallback(city: string, outcome: Outcome)
    ensures WeatherInfo(city, outcome) != Assistant.Fallback
  {
    WeatherInfoReadBack(city, outcome);
    assert Assistant.Fallback[0] == 'I';
  }

  /** This knowledge base is agent.py's without the "weather" entry. */
  lemma {:induction false} KnowledgeBaseDropsWeather(name: string)
    ensures KnowledgeBase(name) == Assistant.KnowledgeBase(name) - {"weather"}
  {
    var kb, old_kb := KnowledgeBase(name), Assistant.KnowledgeBase(name) - {"weather"};
    assert kb.Keys == old_kb.Keys;
    assert forall key :: key in kb ==> kb[key] == old_kb[key];
  }

  /** How an assistant created as `AssistantAgent(name)` answers: a prompt
      whose normalised form contains "weather" gets the weather sentence for
      Bangalore; any other gets the knowledge-base entry for its normalised
      form, or the fallback when there is none. The fallback is given exactly
      when the prompt is neither about the weather nor a key. */
  lemma {:induction false} RespondSpec(name: string, prompt: string, outcome: Outcome)
    ensures var kb, clean, r := KnowledgeBase(name), Normalize(prompt), Respond(KnowledgeBase(name), prompt, outcome);
      && (Contains(clean, "weather") ==> r == WeatherInfo(DefaultCity, outcome))
      && (!Contains(clean, "weather") && clean in kb ==> r == kb[clean])
      && (!Contains(clean, "weather") && clean !in kb ==> r == Assistant.Fallback)
      && (r == Assistant.Fallback <==> !Contains(clean, "weather") && clean !in kb)
  {
    WeatherInfoIsNotFallback(DefaultCity, outcome);
    KnowledgeBaseDropsWeather(name);
    Assistant.NoEntryIsFallback(name);
  }

  /** A weather prompt never consults the knowledge base, and any other
      prompt never depends on the weather client. */
  lemma {:induction false} RespondIndependence(kb1: map<string, string>, kb2: map<string, string>,
                                               prompt: string, o1: Outcome, o2: Outcome)
    ensures Contains(Normalize(prompt), "weather") ==> Respond(kb1, prompt, o1) == Respond(kb2, prompt, o1)
    ensures !Contains(Normalize(prompt), "weather") ==> Respond(kb1, prompt, o1) == Respond(kb1, prompt, o2)
  {
  }

  /** The reply does not depend on the case of the prompt or on whitespace
      around it, for the weather test and the lookup alike. */
  lemma {:induction false} RespondIgnoresCaseAndPadding(kb: map<string, string>, lead: string,
                                                        prompt: string, trail: string, outcome: Outcome)
    requires AllIn(lead, Whitespace) && AllIn(trail, Whitespace)
    ensures Respond(kb, lead + Upper(prompt) + trail, outcome) == Respond(kb, prompt, outcome)
  {
    NormalizeIgnoresCaseAndPadding(lead, prompt, trail);
  }

  /** The same for an assistant object, in the form `act(" " + p.upper() + " ")`. */
  lemma {:induction false} ActIgnoresCaseAndPadding(a: AssistantAgent, prompt: string, outcome: Outcome)
    ensures a.Act(" " + Upper(prompt) + " ", outcome) == a.Act(prompt, outcome)
  {
    RespondIgnoresCaseAndPadding(a.knowledgeBase, " ", prompt, " ", outcome);
  }

  /** The prompts of the demonstration in agent_final.py: the weather
      question is sent to the client, "Hello" is found, and "who are you?"
      gets the fallback. */
  lemma {:induction false} DemoWeatherQuestion(outcome: Outcome)
    ensures Respond(KnowledgeBase("Cody"), "What's the weather like?", outcome) ==
      WeatherInfo("Bangalore", outcome)
  {
    var prompt := "What's the weather like?";
    NormalizeUnpadded(prompt);
    assert prompt[11..18] == "weather";
    assert Lower("weather") == "weather";
    LowerKeepsOccurrence(prompt, "weather", 11);
  }

  lemma {:induction false} DemoHello(outcome: Outcome)
    ensures Respond(KnowledgeBase("Cody"), "Hello", outcome) == Assistant.HelloReply
  {
    NormalizeUnpadded("Hello");
    assert Lower("Hello") == "hello" == ['h'] + "ello";
    NotContainsByFirstChar('h', "ello", "weather");
  }

  /** "who are you?" is already normalised and does not mention the
      weather. */
  lemma {:induction false} UnknownPromptIsPlain()
    ensures Normalize("who are you?") == "who are you?"
    ensures !Contains("who are you?", "weather")
  {
    var prompt := "who are you?";
    NormalizeUnpadded(prompt);
    assert Lower(prompt) == prompt;
    assert prompt == ['w'] + "ho are you?";
    NotContainsByFirstChar('w', "ho are you?", "weather");
  }

  lemma {:induction false} DemoUnknown(outcome: Outcome)
    ensures Respond(KnowledgeBase("Cody"), "who are you?", outcome) == Assistant.Fallback
  {
    UnknownPromptIsPlain();
    assert |"who are you?"| == 12;
  }

  lemma {:induction false} LowerCapitalPrompt()
    ensures Lower("what's the capital of France?") == "what's the capital of france?"
  {
    var prompt := "what's the capital of France?";
    assert prompt == "what's the " + "capital of " + "France?";
    LowerConcat("what's the " + "capital of ", "France?");
    LowerConcat("what's the ", "capital of ");
    assert Lower("what's the ") == "what's the ";
    assert Lower("capital of ") == "capital of ";
    assert Lower("France?") == "france?";
  }

  /** "what's the capital of France?" does not mention the weather once
      normalised. */
  lemma {:induction false} CapitalPromptIsPlain()
    ensures Normalize("what's the capital of France?") == "what's the capital of france?"
    ensures !Contains("what's the capital of france?", "weather")
  {
    NormalizeUnpadded("what's the capital of France?");
    LowerCapitalPrompt();
    CapitalNoWeather();
  }

  lemma {:induction false} CapitalNoWeather()
    ensures !Contains("what's the capital of france?", "weather")
  {
    var t := "hat's the capital of france?";
    assert 'w' !in t;
    assert "what's the capital of france?" == ['w'] + t;
    NotContainsByFirstChar('w', t, "weather");
  }

  lemma {:induction false} DemoCapital(outcome: Outcome)
    ensures Respond(KnowledgeBase("Cody"), "what's the capital of France?", outcome) == Assistant.Fallback
  {
    CapitalPromptIsPlain();
    assert |"what's the capital of france?"| == 29;
  }
}
