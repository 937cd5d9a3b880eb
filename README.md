# Agents: mailbox, assistant routing and knowledge-graph queries

This project models two small Python scripts, `agent.py` and `agent_final.py`.
Each defines a base `Agent` class and specialised agents built on it.

- **`Agent`** (module `Agents`). An agent has a name, a role and an inbox of
  received messages. `send_message` appends a message to the recipient's
  inbox. `act` returns one of two canned sentences, depending on whether the
  prompt is empty. Both scripts define `Agent` with the same code; in
  `agent_final.py` only `act` is asynchronous. One class models both.
- **`AssistantAgent` of `agent.py`** (module `Assistant`). The prompt is
  normalised by `lower().strip()`. The result is looked up in a fixed
  five-entry knowledge base, with a fixed fallback sentence when there is no
  entry.
- **`AssistantAgent` of `agent_final.py`** (module `WeatherAssistant`). The
  knowledge base has no `"weather"` entry. A normalised prompt that contains
  `"weather"` is answered from a weather client for Bangalore. The client
  call's outcome (a report, or an exception's text) is a parameter of the
  model. A failure becomes an apology sentence and never propagates.
- **`KnowledgeGraphAgent`** (module `KnowledgeGraph`). The query is
  lower-cased and split on `"to "`. The second piece, stripped of `'?'` and
  `' '`, is looked up in an undirected graph. The reply is one of four
  sentences:
  - the query is not understood;
  - the node does not exist;
  - the node has no connections;
  - the node's neighbours, joined by `", "`.

  The graph is a map from each node to its neighbours, in the order their
  edges were added (as networkx keeps them). `AddEdge` is `add_edge`.
- **Python string operations** (module `Text`): `lower`, `upper`, `strip`,
  `strip(chars)`, `in`, `find`, `split`, `join` and `str(int)`, on ASCII.
  Lemmas cover them, for example that `split` and `join` are inverse to each
  other and where `strip` cuts.

Inheritance becomes composition. Each specialised agent holds its base
`Agent` in a `base` field, and its own `act` is a function of its constant
fields. So `act` visibly changes no inbox and no knowledge base.

## Model

| member | source | states |
|---|---|---|
| Agents.Agent.constructor | agent.py:10-20 | A new agent has the given name and role and an empty inbox. |
| Agents.Agent.SendMessage | agent_final.py:53-62 | The recipient's inbox becomes its old contents followed by exactly the message. Only the recipient may change; the sender's inbox is unchanged unless the sender is the recipient. Name and role are constants. |
| Agents.Agent.Act | agent.py:22-39 | `act` (agent_final.py:34-51 is the same code) always starts with the agent's introduction. It is the generic-action sentence exactly when the prompt is empty; otherwise the prompt stands quoted, whole, at a fixed place in it. |
| Agents.ActDeterminesPrompt | agent.py:22-39 | `act(p)` is the "acting on prompt" sentence quoting `p` exactly when `p` is non-empty, and the generic-action sentence exactly when `p` is empty. Different prompts give different responses. |
| Agents.ActingOnIsNotGeneric | agent_final.py:45-48 | No prompt makes the quoting sentence equal the generic one. |
| Agents.ActingOnInjective | agent_final.py:45-46 | The prompt can be read back from the quoting sentence. |
| Agents.MailboxDemo | agent.py:108-115 | After Alice sends "Please prepare the weekly report." to Bob, the two inboxes it returns are Bob's, exactly that one message, and Alice's, still empty. |
| Text.LowerOfUpper | agent.py:89 | Lower-casing ignores an earlier upper-casing. |
| Text.LowerConcat | agent.py:89 | Lower-casing works character by character over a concatenation. |
| Text.LowerSlice | agent.py:89 | Lower-casing commutes with taking a slice. |
| Text.IsLowerSlice | agent_final.py:170 | A slice of a lower-case string is lower-case. |
| Text.Lower | agent.py:89 | `lower()` keeps the length, changes only upper-case letters, and gives a lower-case string. |
| Text.Upper | agent.py:89 | `upper()`, used to state case-blindness: it keeps the length, changes only lower-case letters, and leaves none. |
| Text.LowerIsLower | agent.py:89 | The result of `lower()` is lower-case. |
| Text.LowerOfLower | agent.py:89 | `lower()` leaves a lower-case string unchanged. |
| Text.LeadCount | agent.py:89 | The number of leading characters from the strip set: all of them are in the set, and the next one is not. |
| Text.TrailStart | agent.py:89 | Where the trailing run of strip-set characters begins: everything after it is in the set, and the character before it is not. |
| Text.StripChars | agent_final.py:174 | `strip(chars)` keeps the slice of the string that starts after the leading run of strip-set characters. Only strip-set characters lie around the slice, and it neither starts nor ends with one. |
| Text.Strip | agent.py:89 | `strip()` is `strip(chars)` for Python's ASCII whitespace, with the same characterisation. |
| Text.StripCharsEmpty | agent_final.py:174 | `strip(chars)` leaves nothing exactly when every character is in the set. |
| Text.StripCharsPadded | agent.py:89 | Padding with strip-set characters on either side does not change what `strip` keeps. |
| Text.StripCharsUnpadded | agent_final.py:174 | A string that neither starts nor ends with a strip-set character is kept whole. |
| Text.StripCharsLower | agent_final.py:170-174 | `strip(chars)` commutes with `lower()` when lower-casing neither makes nor removes characters of the set. |
| Text.StripCharsKeeps | agent_final.py:174 | What `strip` keeps is lower-case if the string was, and free of any pattern the string was free of. |
| Text.Normalize | agent.py:89 | `lower().strip()` is lower-case, and it is the slice of the lower-cased prompt with only whitespace around it and none at its ends. |
| Text.NormalizeUnpadded | agent.py:89 | An unpadded prompt is only lower-cased by `lower().strip()`. |
| Text.NormalizeIgnoresCaseAndPadding | agent.py:89 | `lower().strip()` gives the same key for `lead + p.upper() + trail`, with whitespace padding, as for `p`. |
| Text.IndexFrom | agent_final.py:123 | `find(pat, from)`: either the first occurrence at or after `from` with none between, or nothing when `pat` does not occur there. |
| Text.ContainsIff | agent_final.py:123 | `pat in s` (the predicate `Text.Contains`) holds exactly when `pat` occurs at some index. |
| Text.LowerKeepsOccurrence | agent_final.py:120-123 | A lower-case pattern found in the prompt is still found after `lower()`. |
| Text.NotContainsByFirstChar | agent_final.py:123 | A string that differs from the pattern in its first two characters, and has the pattern's first character nowhere else, does not contain it. |
| Text.OccursInSlice | agent_final.py:170 | An occurrence in a slice is an occurrence in the whole string. |
| Text.NotContainsSlice | agent_final.py:170 | A slice holds no occurrence the whole string lacks. |
| Text.NoStartIn | agent_final.py:170 | No occurrence starts where the pattern's first character is absent. |
| Text.FirstOccurrence | agent_final.py:170 | An occurrence with none before it is what `find` returns. |
| Text.IndexFromNone | agent_final.py:170 | `find` from `from` fails when the rest of the string has no occurrence. |
| Text.NotContainsAppendChar | agent_final.py:170 | Appending a character other than the pattern's last creates no occurrence. |
| Text.SplitFrom | agent_final.py:170 | The split from index `from` has at least one piece, has two or more exactly when the separator occurs at or after `from`, and no piece contains the separator. |
| Text.Split | agent_final.py:170-171 | `split(sep)` has two or more pieces exactly when `sep` occurs, and no piece contains `sep`. |
| Text.PieceEnd | agent_final.py:170 | The end of the piece starting at `from`: the next occurrence of the separator or the end of the string, with no occurrence before it. |
| Text.SplitFromHead | agent_final.py:170 | The first piece ends at `PieceEnd`, and the remaining pieces are the split after the separator. |
| Text.SplitFirstPieces | agent_final.py:170-174 | `parts[0]` is the text before the first separator, and `parts[1]` runs from after it to the next separator or the end. |
| Text.Join | agent_final.py:186 | `sep.join(parts)` is empty for no parts, starts with the first part, and has the separator right after it when there are two or more. |
| Text.JoinSplit | agent_final.py:170 | `sep.join(s.split(sep)) == s`. |
| Text.NatToString | agent_final.py:105 | The decimal text of a natural number is non-empty and all digits. |
| Text.IntToString | agent_final.py:105 | `str(n)` is non-empty and reads back to `n`, for negative numbers too. |
| Text.ParseIntToString | agent_final.py:105 | Reading back `str(n)` gives `n`, for negative numbers too. |
| Assistant.KnowledgeBase | agent.py:70-76 | The knowledge base has exactly the keys hello, weather, name, time and help. |
| Assistant.AssistantAgent.constructor | agent.py:60-76 | The base agent gets the name and role (default "assistant") and an empty inbox. The knowledge base is the one for that name. |
| Assistant.Lookup | agent.py:92-95 | `dict.get(key, default)`: the entry when the key is present, the default otherwise. |
| Assistant.Answer | agent.py:78-100 | The answer is an entry of the knowledge base or the fallback. It is the entry under the lower-cased, stripped prompt when there is one, and the fallback otherwise. |
| Assistant.AssistantAgent.Act | agent.py:78-100 | `act` gives the knowledge-base entry under the normalised prompt, or the fallback when there is none. |
| Assistant.AnswerSpec | agent.py:78-100 | The answer is the entry of the exact normalised key (the "name" entry quotes the constructor's name), and the fallback for every other normalised prompt. |
| Assistant.NoEntryIsFallback | agent.py:70-76 | No knowledge-base entry equals the fallback sentence. |
| Assistant.FallbackIffUnknown | agent.py:92-95 | The fallback is given exactly when the normalised prompt is not a key. |
| Assistant.AnswerIgnoresCaseAndPadding | agent.py:89-95 | The answer is the same for `lead + p.upper() + trail`, with whitespace padding, as for `p`. |
| Assistant.ActIgnoresCaseAndPadding | agent.py:78-100 | `act(" " + p.upper() + " ") == act(p)` for any assistant. |
| Assistant.UnknownByLength | agent.py:89-95 | An unpadded prompt whose length is not 4, 5 or 7 gets the fallback. |
| Assistant.DemoHello | agent.py:129-130 | "Hello" gets the hello entry. |
| Assistant.DemoUnknown | agent.py:134-146 | "What's the weather like?", "who are you?" and "what's the capital of France?" get the fallback. The first does so although "weather" is a key, because the match is exact. |
| WeatherAssistant.KnowledgeBase | agent_final.py:82-87 | The knowledge base has exactly the keys hello, name, time and help. |
| WeatherAssistant.KnowledgeBaseDropsWeather | agent_final.py:82-87 | It is `agent.py`'s knowledge base without the "weather" entry. |
| WeatherAssistant.AssistantAgent.constructor | agent_final.py:72-89 | The base agent gets the name and role and an empty inbox. The knowledge base is the one for that name. |
| WeatherAssistant.WeatherInfo | agent_final.py:91-107 | A failure's sentence is the apology for the city followed by exactly the exception's text. A report's sentence starts with the city's introduction and ends with a full stop. |
| WeatherAssistant.AssistantAgent.GetWeatherInfo | agent_final.py:91-107 | `get_weather_info(city)`, Bangalore by default, is never the fallback and starts with the sentence for that city that matches the outcome. |
| WeatherAssistant.Respond | agent_final.py:109-138 | A normalised prompt containing "weather" gets the weather sentence for Bangalore; any other gets its entry, or the fallback when there is none. For a knowledge base none of whose entries is the fallback, the fallback is given exactly when neither applies. |
| WeatherAssistant.AssistantAgent.Act | agent_final.py:109-138 | `act`, which calls `get_weather_info("Bangalore")` for a weather prompt, agrees with `Respond` on the agent's knowledge base for every prompt and client outcome. |
| WeatherAssistant.WeatherInfoReadBack | agent_final.py:91-107 | `get_weather_info` always gives a non-empty sentence, and its first character tells a failure from a report. A failure's sentence is the apology for the city followed by exactly the exception text. A report's sentence starts with the city's introduction; the temperature and then the description read back from it. |
| WeatherAssistant.WeatherInfoIsNotFallback | agent_final.py:101-107 | No weather sentence equals the fallback. |
| WeatherAssistant.RespondSpec | agent_final.py:109-138 | A normalised prompt containing "weather" gets the weather sentence for Bangalore. Any other prompt gets the entry for its normalised form, or the fallback when there is none. The fallback is given exactly when the prompt is neither about the weather nor a key. |
| WeatherAssistant.RespondIndependence | agent_final.py:123-133 | A weather prompt's reply does not depend on the knowledge base. Any other prompt's reply does not depend on the weather client. |
| WeatherAssistant.RespondIgnoresCaseAndPadding | agent_final.py:120-133 | The reply is the same for `lead + p.upper() + trail`, with whitespace padding, as for `p`. |
| WeatherAssistant.ActIgnoresCaseAndPadding | agent_final.py:109-138 | `act(" " + p.upper() + " ") == act(p)` for any assistant and any client outcome. |
| WeatherAssistant.DemoWeatherQuestion | agent_final.py:227-228 | "What's the weather like?" is answered from the weather client for Bangalore. |
| WeatherAssistant.DemoHello | agent_final.py:221-222 | "Hello" gets the hello entry. |
| WeatherAssistant.DemoUnknown | agent_final.py:232-233 | "who are you?" gets the fallback. |
| WeatherAssistant.DemoCapital | agent_final.py:238-239 | "what's the capital of France?" gets the fallback. |
| KnowledgeGraph.EmptyGraphValid | agent_final.py:246 | `nx.Graph()` is a valid graph, with symmetric adjacency and no neighbour listed twice. |
| KnowledgeGraph.AddArc | agent_final.py:247-251 | Recording `v` as a neighbour of `u` adds `u` to the nodes and lists `v` among its neighbours. The old list of `u` is a prefix of the new one, and every other node's list is unchanged. |
| KnowledgeGraph.AddEdge | agent_final.py:247-251 | After `add_edge(u, v)` the nodes are the old ones plus `u` and `v`, and each is a neighbour of the other. |
| KnowledgeGraph.AddArcSpec | agent_final.py:247-251 | Recording one direction of an edge adds the node, adds exactly that adjacency, keeps each old neighbour list as a prefix, and repeats no neighbour. |
| KnowledgeGraph.AddEdgeSpec | agent_final.py:247-251 | `add_edge(u, v)` adds `u` and `v` to the nodes. It adds exactly the adjacency `u`–`v` in both directions, keeps every old neighbour list as a prefix of the new one, and preserves validity. |
| KnowledgeGraph.AddEdgeIdempotent | agent_final.py:247-251 | Adding an edge that is already present changes nothing. |
| KnowledgeGraph.AddEdgeToNew | agent_final.py:248-251 | An edge from a node to a new node appends the new node to its list and gives the new node a one-element list. |
| KnowledgeGraph.KnowledgeGraphAgent.constructor | agent_final.py:145-155 | The base agent gets the name and role (default "graph_query_agent") and an empty inbox, and the agent holds the given graph. |
| KnowledgeGraph.Reply | agent_final.py:177-187 | The answer about a node is never the format message, and it is "does not exist" exactly when the node is not in the graph. |
| KnowledgeGraph.Target | agent_final.py:170-174 | A target is read exactly when "to " occurs in the lower-cased query. |
| KnowledgeGraph.Query | agent_final.py:157-190 | `act(q)` is the format message exactly when no target is read, and otherwise the answer about the target. |
| KnowledgeGraph.KnowledgeGraphAgent.Act | agent_final.py:157-190 | `act` gives the format message exactly when the lower-cased query lacks "to ". On a graph whose every node holds a capital letter it gives nothing but the format message or "does not exist". |
| KnowledgeGraph.TargetMatchingCase | agent_final.py:170-174 | The corrected reading finds a target exactly when "to " occurs in the lower-cased query. |
| KnowledgeGraph.QueryMatchingCase | agent_final.py:170-187 | The corrected query gives the format message exactly when no target is read, and otherwise the answer about its target. |
| KnowledgeGraph.KnowledgeGraphAgent.ActMatchingCase | agent_final.py:170-187 | The corrected `act` gives the format message in exactly the queries the original does. |
| KnowledgeGraph.ReplyCases | agent_final.py:177-187 | The reply is "does not exist" exactly when the target is not a node. It is "has no connections" exactly when the target is a node without neighbours. Otherwise it lists the neighbours in order. None of these is the format message. |
| KnowledgeGraph.QueryFormatIff | agent_final.py:170-172 | `act(q)` is the format message exactly when `q.lower()` does not contain "to ". |
| KnowledgeGraph.TargetShape | agent_final.py:170-174 | The target exists exactly when "to " occurs in the lower-cased query. It is what `strip("? ")` keeps of the text from after the first "to " to the next "to " or the end. So it is lower-case and contains no "to ". |
| KnowledgeGraph.CapitalisedNodesUnreachable | agent_final.py:170-178 | On a graph whose every node has a capital letter, every query gets either the format message or "does not exist". |
| KnowledgeGraph.LowerQuestion | agent_final.py:170 | How "Who is connected to X?" is lower-cased. |
| KnowledgeGraph.QuestionMarker | agent_final.py:170 | The first "to " of a lower-cased "Who is connected to X?" is at index 17. |
| KnowledgeGraph.QuestionPiece | agent_final.py:170 | For a name without "to ", the second piece of the split is the lower-cased name followed by '?'. |
| KnowledgeGraph.StripQuestionMark | agent_final.py:174 | `strip("? ")` of an unpadded name followed by '?' is the name. |
| KnowledgeGraph.QuestionTargets | agent_final.py:170-174 | For an unpadded name X without "to ", the query "Who is connected to X?" targets X lower-cased as written, and X itself in the corrected reading. |
| KnowledgeGraph.TargetMatchingCaseAgrees | agent_final.py:170-174 | The corrected reading finds a target in the same queries as the original. Lower-casing the corrected target gives the original target. |
| KnowledgeGraph.CapitalisedQuestionMissed | agent_final.py:170-187 | A node X with a capital letter, whose lower-case spelling is not a node, is reported missing when asked about. The corrected reading answers about X. |
| KnowledgeGraph.DemoGraphAdj | agent_final.py:246-251 | The demonstration graph's adjacency, in edge order. For example, Doctor's neighbours are Hospital, Patient A, Patient B and Nurse. |
| KnowledgeGraph.DemoStep2 | agent_final.py:248 | The adjacency after the second `add_edge`. |
| KnowledgeGraph.DemoStep3 | agent_final.py:249 | The adjacency after the third `add_edge`. |
| KnowledgeGraph.DemoStep4 | agent_final.py:250 | The adjacency after the fourth `add_edge`. |
| KnowledgeGraph.DemoStep5 | agent_final.py:251 | The adjacency after the fifth `add_edge`. |
| KnowledgeGraph.DemoNodes | agent_final.py:246-251 | "doctor", "hospital", "janitor" and "Janitor" are not nodes of the demonstration graph; "Doctor" and "Hospital" are, with their neighbours. |
| KnowledgeGraph.DoctorPlain | agent_final.py:257 | "Doctor" lower-cases to "doctor", which holds no "to ". |
| KnowledgeGraph.HospitalPlain | agent_final.py:261 | "Hospital" lower-cases to "hospital", which holds no "to ". |
| KnowledgeGraph.JanitorPlain | agent_final.py:265 | "Janitor" lower-cases to "janitor", which holds no "to ". |
| KnowledgeGraph.DoctorTargets | agent_final.py:257-258 | The Doctor query targets "doctor" as written and "Doctor" when corrected. |
| KnowledgeGraph.HospitalTargets | agent_final.py:261-262 | The Hospital query targets "hospital" as written and "Hospital" when corrected. |
| KnowledgeGraph.JanitorTargets | agent_final.py:265-266 | The Janitor query targets "janitor" as written and "Janitor" when corrected. |
| KnowledgeGraph.DemoQueries | agent_final.py:257-266 | As written, all three demonstration queries get "does not exist": for doctor, hospital and janitor. |
| KnowledgeGraph.DemoQueriesMatchingCase | agent_final.py:257-266 | Corrected, Doctor gets its four neighbours in edge order and Hospital gets Doctor and Clinic. Janitor gets "does not exist". |

## Left out

- Printing. Every `print` is left out: it does not affect any returned value.
- The weather client. The `python_weather` client and its network request
  (agent_final.py:89, agent_final.py:102-104) become an `Outcome` argument
  that each call gets. The argument is a report (an integer temperature and
  a description) or a failure carrying the exception's text. The HTTP
  behaviour and the real exception messages are not modelled. The client
  object itself is not a field.
- `asyncio`. Awaited calls run one after another, so they are ordinary
  function calls.
- networkx beyond `add_edge`, `in` and `neighbors` on an undirected graph.
  Edge attributes, node iteration order and every other graph operation are
  out.
- Mutation of the graph. It is built as a value: `AddEdge` returns a new
  graph instead of changing `G` in place. The agent only reads the graph.
- Layout and drawing: `spring_layout`, `nx.draw` and `plt.*`
  (agent_final.py:269-274). These are floating-point and user-interface
  code.
- Unicode string semantics. `lower`/`upper` change only ASCII letters.
  `strip()` removes only the ASCII characters Python counts as whitespace
  (tab, newline, vertical tab, form feed, carriage return, the four
  separators 0x1C-0x1F and space). Non-ASCII case mappings and non-ASCII
  whitespace are not modelled.
- Inheritance. Each specialised agent holds its `Agent` in a `base` field.
  `send_message` and the inbox are reached through that field, and
  overriding `act` is modelled by each class having its own `Act`.
- The demonstration drivers (agent.py:104-148, agent_final.py:193-279).
  They appear only as the demonstration lemmas and `MailboxDemo`. Bob's
  `act("Begin report preparation.")` is covered by
  `Agents.ActDeterminesPrompt` and has no lemma of its own.

## Findings

| source | as written | input that shows it | evidently intended | confidence | as-written member | corrected member |
|---|---|---|---|---|---|---|
| agent_final.py:170-178 | The target node is read from the lower-cased query, so it is always lower-case. A node with a capital letter can never be found. | "Who is connected to Doctor?" on the demonstration graph (agent_final.py:247-258) gives "The node 'doctor' does not exist in the graph." | The query for Doctor lists Doctor's neighbours. The demonstration's comments ("Query the graph for "Doctor"") promise this. The corrected reading finds "to " in the lower-cased query but takes the target from the query as typed. | high; not executed | KnowledgeGraph.DemoQueries | KnowledgeGraph.DemoQueriesMatchingCase |
