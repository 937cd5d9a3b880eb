/** The knowledge-graph agent of agent_final.py: an agent that reads a
    query of the form "Who is connected to X?", finds X in an undirected
    graph and lists X's neighbours. */
module KnowledgeGraph {
  import opened Text
  import opened Agents

  // ---------------------------------------------------------------- graph

  /** An undirected graph in the form networkx keeps it: each node maps to
      its neighbours, listed in the order their edges were first added. */
  datatype Graph = Graph(adj: map<string, seq<string>>)

  const EmptyGraph: Graph := Graph(map[])

  predicate Adjacent(g: Graph, u: string, v: string)
  {
    u in g.adj && v in g.adj[u]
  }

  predicate NoDuplicates(s: seq<string>)
  {
    forall i, j :: 0 <= i < j < |s| ==> s[i] != s[j]
  }

  /** What networkx maintains: adjacency is symmetric, and no neighbour is
      listed twice. */
  predicate Valid(g: Graph)
  {
    && (forall u :: u in g.adj ==> NoDuplicates(g.adj[u]))
    && (forall u, v :: u in g.adj && v in g.adj[u] ==> Adjacent(g, v, u))
  }

  /** `v` recorded as a neighbour of `u`: appended when new, while an
      existing entry keeps its place. */
  function AddArc(adj: map<string, seq<string>>, u: string, v: string): (a: map<string, seq<string>>)
    ensures a.Keys == adj.Keys + {u}
    ensures v in a[u] && (u in adj ==> adj[u] <= a[u])
    ensures forall x :: x in adj && x != u ==> a[x] == adj[x]
  {
    if u !in adj then adj[u := [v]]
    else if v in adj[u] then adj
    else adj[u := adj[u] + [v]]
  }

  /** `G.add_edge(u, v)`: both nodes are added if missing, and each becomes
      a neighbour of the other. A self-loop lists the node once. */
  function AddEdge(g: Graph, u: string, v: string): (h: Graph)
    ensures h.adj.Keys == g.adj.Keys + {u, v}
    ensures Adjacent(h, u, v) && Adjacent(h, v, u)
  {
    Graph(AddArc(AddArc(g.adj, u, v), v, u))
  }

  lemma {:induction false} EmptyGraphValid()
    ensures Valid(EmptyGraph)
  {
  }

  lemma {:induction false} AddArcSpec(adj: map<string, seq<string>>, u: string, v: string)
    requires forall x :: x in adj ==> NoDuplicates(adj[x])
    ensures var a := AddArc(adj, u, v);
      && a.Keys == adj.Keys + {u}
      && (forall x :: x in a ==> NoDuplicates(a[x]))
      && (forall x :: x in adj ==> adj[x] <= a[x])
      && (forall x, y :: x in a && y in a[x] <==> (x in adj && y in adj[x]) || (x == u && y == v))
  {
    var a := AddArc(adj, u, v);
    if u in adj && v !in adj[u] {
      var s := adj[u] + [v];
      assert forall i :: 0 <= i < |adj[u]| ==> s[i] == adj[u][i];
      assert forall y :: y in s <==> y in adj[u] || y == v;
    }
  }

  /** After `add_edge(u, v)` the nodes are the old ones plus `u` and `v`, the
      adjacent pairs are the old ones plus `u`–`v` in both directions, every
      old neighbour list is a prefix of the new one, and the graph is still
      valid. */
  lemma {:induction false} AddEdgeSpec(g: Graph, u: string, v: string)
    requires Valid(g)
    ensures var h := AddEdge(g, u, v);
      && h.adj.Keys == g.adj.Keys + {u, v}
      && (forall x, y :: Adjacent(h, x, y) <==> Adjacent(g, x, y) || (x == u && y == v) || (x == v && y == u))
      && (forall x :: x in g.adj ==> g.adj[x] <= h.adj[x])
      && Valid(h)
  {
    var a := AddArc(g.adj, u, v);
    AddArcSpec(g.adj, u, v);
    AddArcSpec(a, v, u);
    var h := AddEdge(g, u, v);
    assert forall x :: x in g.adj ==> g.adj[x] <= a[x] <= h.adj[x];
  }

  /** Adding an edge that is already there changes nothing. */
  lemma {:induction false} AddEdgeIdempotent(g: Graph, u: string, v: string)
    ensures AddEdge(AddEdge(g, u, v), u, v) == AddEdge(g, u, v)
  {
    var a := AddArc(g.adj, u, v);
    var h := AddArc(a, v, u);
    assert u in a && v in a[u];
    assert u in h && v in h[u] by {
      if u != v {
        assert h[u] == a[u];
      }
    }
    assert AddArc(h, u, v) == h;
    assert v in h && u in h[v];
  }

  // ---------------------------------------------------------------- replies

  /** The characters `strip("? ")` removes from the target. */
  const TrimChars: set<char> := {'?', ' '}

  /** The separator the lower-cased query is split on. */
  const Marker: string := "to "

  const FormatMessage: string :=
    "Query format not understood. " + "Please use 'Who is connected to " + "[Node Name]?''"

  function Missing(t: string): (r: string)
  {
    "The node '" + t + "' does not exist in the graph."
  }

  function Isolated(t: string): (r: string)
  {
    "'" + t + "' has no connections in the graph."
  }

  function Connections(t: string, neighbours: seq<string>): (r: string)
  {
    "The following are connected to '" + t + "': " + Join(", ", neighbours) + "."
  }

  /** The answer about node `t` once it has been read from the query. It
      is never the format message, and it says "does not exist" exactly
      when `t` is not a node. */
  function Reply(g: Graph, t: string): (r: string)
    ensures r != FormatMessage
    ensures r == Missing(t) <==> t !in g.adj
  {
    assert FormatMessage[0] == 'Q';
    assert Missing(t)[0] == 'T' && Missing(t)[4] == 'n';
    assert Isolated(t)[0] == '\'';
    var c := Connections(t, if t in g.adj then g.adj[t] else []);
    assert c[0] == 'T' && c[4] == 'f';
    if t !in g.adj then Missing(t)
    else if g.adj[t] == [] then Isolated(t)
    else Connections(t, g.adj[t])
  }

  /** The target node of `act`: the lower-cased query split on "to ", and
      the second piece stripped of '?' and ' '; none when "to " does not
      occur. */
  function Target(q: string): (t: Option<string>)
    ensures t.Some? <==> Contains(Lower(q), Marker)
  {
    var parts := Split(Lower(q), Marker);
    if |parts| < 2 then None else Some(StripChars(parts[1], TrimChars))
  }

  /** `KnowledgeGraphAgent.act(query)` on graph `g`: the format message
      exactly when no target is found, and otherwise the answer about the
      target. */
  function Query(g: Graph, q: string): (r: string)
    ensures r == FormatMessage <==> Target(q).None?
    ensures Target(q).Some? ==> r == Reply(g, Target(q).value)
  {
    match Target(q)
    case None => FormatMessage
    case Some(t) => Reply(g, t)
  }

  /** The target as the demonstration evidently means it: found by the same
      case-blind search for "to ", but read from the query as typed, so
      that it keeps its capitals. */
  function TargetMatchingCase(q: string): (t: Option<string>)
    ensures t.Some? <==> Contains(Lower(q), Marker)
  {
    var l := Lower(q);
    if !Contains(l, Marker) then None
    else
      var j := IndexOf(l, Marker).value + |Marker|;
      Some(StripChars(q[j..PieceEnd(l, Marker, j)], TrimChars))
  }

  function QueryMatchingCase(g: Graph, q: string): (r: string)
    ensures r == FormatMessage <==> TargetMatchingCase(q).None?
    ensures TargetMatchingCase(q).Some? ==> r == Reply(g, TargetMatchingCase(q).value)
  {
    match TargetMatchingCase(q)
    case None => FormatMessage
    case Some(t) => Reply(g, t)
  }

  class KnowledgeGraphAgent {
    /** The agent this one extends: its name, role and inbox. */
    const base: Agent
    const graph: Graph

    constructor (name: string, graph: Graph, role: string := "graph_query_agent")
      ensures fresh(base)
      ensures base.name == name && base.role == role && base.messageInbox == []
      ensures this.graph == graph
    {
      base := new Agent(name, role);
      this.graph := graph;
    }

    /** `act`, overriding the base agent's. It only reads the graph. It
        gives the format message exactly when the lower-cased query lacks
        "to ", and on a graph whose every node holds a capital letter it
        answers nothing else but "does not exist". */
    function Act(query: string): (r: string)
      ensures r == FormatMessage <==> !Contains(Lower(query), Marker)
      ensures AllCapitalised(graph) ==> r == FormatMessage || r == Missing(Target(query).value)
    {
      QueryFormatIff(graph, query);
      if AllCapitalised(graph) then
        CapitalisedNodesUnreachable(graph, query);
        Query(graph, query)
      else Query(graph, query)
    }

    /** `act` with the target read in its original case: the format message
        in the same queries as `act`. */
    function ActMatchingCase(query: string): (r: string)
      ensures r == FormatMessage <==> !Contains(Lower(query), Marker)
    {
      QueryMatchingCase(graph, query)
    }
  }

  // ---------------------------------------------------------------- properties

  /** The three answers about a node tell which case holds: the node is
      missing, has no neighbours, or has the listed ones. None of them is
      the format message. */
  lemma {:induction false} ReplyCases(g: Graph, t: string)
    ensures Reply(g, t) != FormatMessage
    ensures Reply(g, t) == Missing(t) <==> t !in g.adj
    ensures Reply(g, t) == Isolated(t) <==> t in g.adj && g.adj[t] == []
    ensures t in g.adj && g.adj[t] != [] ==> Reply(g, t) == Connections(t, g.adj[t])
  {
    assert Missing(t)[0] == 'T';
    assert Isolated(t)[0] == '\'';
    var c := Connections(t, if t in g.adj then g.adj[t] else []);
    assert c[0] == 'T';
  }

  /** The format message is given exactly when the lower-cased query does
      not contain "to ". */
  lemma {:induction false} QueryFormatIff(g: Graph, q: string)
    ensures Query(g, q) == FormatMessage <==> !Contains(Lower(q), Marker)
  {
    if Target(q).Some? {
      ReplyCases(g, Target(q).value);
    }
  }

  /** The target is read from the second piece of the split (the text after
      the first "to " of the lower-cased query, up to the next "to " or the
      end): it is what `strip` keeps of that piece, so it is lower-case, free
      of "to ", and neither starts nor ends with '?' or ' '. */
  lemma {:induction false} TargetShape(q: string)
    ensures Target(q).Some? <==> Contains(Lower(q), Marker)
    ensures Target(q).Some? ==> var l, t := Lower(q), Target(q).value;
      var j := IndexOf(l, Marker).value + |Marker|;
      && (exists i: nat :: IsStripAt(t, l[j..PieceEnd(l, Marker, j)], TrimChars, i))
      && IsLower(t) && !Contains(t, Marker)
  {
    var l := Lower(q);
    if Contains(l, Marker) {
      SplitFirstPieces(l, Marker);
      var j := IndexOf(l, Marker).value + |Marker|;
      var e := PieceEnd(l, Marker, j);
      var piece := Split(l, Marker)[1];
      LowerIsLower(q);
      IsLowerSlice(l, j, e);
      StripCharsKeeps(piece, TrimChars, Marker);
    }
  }

  /** Lower-casing and both targets: the two are found in the same queries,
      and the as-written target is the corrected one lower-cased. */
  lemma {:induction false} TargetMatchingCaseAgrees(q: string)
    ensures TargetMatchingCase(q).Some? <==> Target(q).Some?
    ensures TargetMatchingCase(q).Some? ==> Lower(TargetMatchingCase(q).value) == Target(q).value
  {
    var l := Lower(q);
    if Contains(l, Marker) {
      SplitFirstPieces(l, Marker);
      var j := IndexOf(l, Marker).value + |Marker|;
      var e := PieceEnd(l, Marker, j);
      LowerSlice(q, j, e);
      StripCharsLower(q[j..e], TrimChars);
    }
  }

  /** Every node of the graph holds a capital letter. */
  predicate AllCapitalised(g: Graph)
  {
    forall n :: n in g.adj ==> !IsLower(n)
  }

  /** As written, `act` never finds a node that holds a capital letter, so
      on a graph of such nodes every query is either not understood or
      answered with "does not exist". */
  lemma {:induction false} CapitalisedNodesUnreachable(g: Graph, q: string)
    requires AllCapitalised(g)
    ensures Query(g, q) == FormatMessage || Query(g, q) == Missing(Target(q).value)
  {
    TargetShape(q);
  }

  /** The query "Who is connected to X?" of the demonstration. */
  function Question(x: string): (r: string)
  {
    "Who is connected to " + x + "?"
  }

  lemma {:induction false} LowerQuestion(x: string)
    ensures Lower(Question(x)) == "who is connected to " + Lower(x) + "?"
  {
    var p := "Who is connected to ";
    LowerConcat(p + x, "?");
    LowerConcat(p, x);
    assert Lower(p) == "who is connected to ";
  }

  /** Where "to " is in a lower-cased question. */
  lemma {:induction false} QuestionMarker(x: string)
    ensures IndexOf(Lower(Question(x)), Marker) == Some(17)
  {
    LowerQuestion(x);
    var l := "who is connected to " + Lower(x) + "?";
    assert l[0..13] == "who is connec";
    assert l[14..17] == "ed ";
    NoStartIn(l, Marker, 0, 13);
    NoStartIn(l, Marker, 14, 17);
    assert l[13..16][1] == l[14];
    assert l[17..20] == Marker;
    FirstOccurrence(l, Marker, 17);
  }

  /** The second piece of the split of a lower-cased question runs from
      after "to " to the end. */
  lemma {:induction false} QuestionPiece(x: string)
    requires !Contains(Lower(x), Marker)
    ensures var l := Lower(Question(x));
      && IndexOf(l, Marker) == Some(17) && PieceEnd(l, Marker, 20) == |l|
      && Split(l, Marker)[1] == Lower(x) + "?"
  {
    var l := Lower(Question(x));
    QuestionMarker(x);
    LowerQuestion(x);
    assert l[20..] == Lower(x) + "?";
    NotContainsAppendChar(Lower(x), '?', Marker);
    IndexFromNone(l, Marker, 20);
    SplitFirstPieces(l, Marker);
    SliceToEnd(l, 20);
  }

  /** What `strip("? ")` keeps of a name followed by '?'. */
  lemma {:induction false} StripQuestionMark(x: string)
    requires x != [] && x[0] !in TrimChars && x[|x| - 1] !in TrimChars
    ensures StripChars(x + "?", TrimChars) == x
  {
    assert [] + x + "?" == x + "?";
    StripCharsPadded([], x, "?", TrimChars);
    StripCharsUnpadded(x, TrimChars);
  }

  /** For a node name that neither starts nor ends with '?' or ' ' and holds
      no "to " once lower-cased, `act` on "Who is connected to X?" looks up
      X lower-cased, and the corrected reading looks up X itself. */
  lemma {:induction false} QuestionTargets(x: string)
    requires x != [] && x[0] !in TrimChars && x[|x| - 1] !in TrimChars
    requires !Contains(Lower(x), Marker)
    ensures Target(Question(x)) == Some(Lower(x))
    ensures TargetMatchingCase(Question(x)) == Some(x)
  {
    var q := Question(x);
    QuestionPiece(x);
    StripQuestionMark(Lower(x));
    assert q[20..|q|] == x + "?";
    StripQuestionMark(x);
  }

  /** The discrepancy: a node X with a capital letter, whose lower-case
      spelling is not a node, is reported missing when asked about, while
      the corrected reading answers about X. */
  lemma {:induction false} CapitalisedQuestionMissed(g: Graph, x: string)
    requires x != [] && x[0] !in TrimChars && x[|x| - 1] !in TrimChars
    requires !Contains(Lower(x), Marker)
    requires x in g.adj && Lower(x) !in g.adj
    ensures Query(g, Question(x)) == Missing(Lower(x))
    ensures QueryMatchingCase(g, Question(x)) == Reply(g, x) != Missing(x)
  {
    QuestionTargets(x);
    ReplyCases(g, x);
  }

  // ---------------------------------------------------------------- demonstration

  /** The graph the demonstration builds. */
  function DemoGraph(): (g: Graph)
  {
    var g1 := AddEdge(EmptyGraph, "Hospital", "Doctor");
    var g2 := AddEdge(g1, "Doctor", "Patient A");
    var g3 := AddEdge(g2, "Doctor", "Patient B");
    var g4 := AddEdge(g3, "Doctor", "Nurse");
    AddEdge(g4, "Hospital", "Clinic")
  }

  /** Adding an edge from a node with neighbours to a new node. */
  lemma {:induction false} AddEdgeToNew(g: Graph, u: string, v: string)
    requires u in g.adj && v !in g.adj[u] && v !in g.adj && u != v
    ensures AddEdge(g, u, v).adj == g.adj[u := g.adj[u] + [v]][v := [u]]
  {
  }

  lemma {:induction false} DemoGraphAdj()
    ensures DemoGraph().adj == map[
      "Hospital" := ["Doctor", "Clinic"],
      "Doctor" := ["Hospital", "Patient A", "Patient B", "Nurse"],
      "Patient A" := ["Doctor"],
      "Patient B" := ["Doctor"],
      "Nurse" := ["Doctor"],
      "Clinic" := ["Hospital"]]
  {
    var g1 := AddEdge(EmptyGraph, "Hospital", "Doctor");
    assert g1.adj == map["Hospital" := ["Doctor"], "Doctor" := ["Hospital"]];
    DemoStep2(g1);
    var g2 := AddEdge(g1, "Doctor", "Patient A");
    DemoStep3(g2);
    var g3 := AddEdge(g2, "Doctor", "Patient B");
    DemoStep4(g3);
    var g4 := AddEdge(g3, "Doctor", "Nurse");
    DemoStep5(g4);
  }

  lemma {:induction false} DemoStep2(g: Graph)
    requires g.adj == map["Hospital" := ["Doctor"], "Doctor" := ["Hospital"]]
    ensures AddEdge(g, "Doctor", "Patient A").adj ==
      map["Hospital" := ["Doctor"], "Doctor" := ["Hospital", "Patient A"], "Patient A" := ["Doctor"]]
  {
    AddEdgeToNew(g, "Doctor", "Patient A");
    assert ["Hospital"] + ["Patient A"] == ["Hospital", "Patient A"];
  }

  lemma {:induction false} DemoStep3(g: Graph)
    requires g.adj ==
      map["Hospital" := ["Doctor"], "Doctor" := ["Hospital", "Patient A"], "Patient A" := ["Doctor"]]
    ensures AddEdge(g, "Doctor", "Patient B").adj ==
      map["Hospital" := ["Doctor"], "Doctor" := ["Hospital", "Patient A", "Patient B"],
          "Patient A" := ["Doctor"], "Patient B" := ["Doctor"]]
  {
    AddEdgeToNew(g, "Doctor", "Patient B");
    assert ["Hospital", "Patient A"] + ["Patient B"] == ["Hospital", "Patient A", "Patient B"];
  }

  lemma {:induction false} DemoStep4(g: Graph)
    requires g.adj ==
      map["Hospital" := ["Doctor"], "Doctor" := ["Hospital", "Patient A", "Patient B"],
          "Patient A" := ["Doctor"], "Patient B" := ["Doctor"]]
    ensures AddEdge(g, "Doctor", "Nurse").adj ==
      map["Hospital" := ["Doctor"], "Doctor" := ["Hospital", "Patient A", "Patient B", "Nurse"],
          "Patient A" := ["Doctor"], "Patient B" := ["Doctor"], "Nurse" := ["Doctor"]]
  {
    AddEdgeToNew(g, "Doctor", "Nurse");
    assert ["Hospital", "Patient A", "Patient B"] + ["Nurse"] == ["Hospital", "Patient A", "Patient B", "Nurse"];
  }

  lemma {:induction false} DemoStep5(g: Graph)
    requires g.adj ==
      map["Hospital" := ["Doctor"], "Doctor" := ["Hospital", "Patient A", "Patient B", "Nurse"],
          "Patient A" := ["Doctor"], "Patient B" := ["Doctor"], "Nurse" := ["Doctor"]]
    ensures AddEdge(g, "Hospital", "Clinic").adj == map[
      "Hospital" := ["Doctor", "Clinic"],
      "Doctor" := ["Hospital", "Patient A", "Patient B", "Nurse"],
      "Patient A" := ["Doctor"],
      "Patient B" := ["Doctor"],
      "Nurse" := ["Doctor"],
      "Clinic" := ["Hospital"]]
  {
    AddEdgeToNew(g, "Hospital", "Clinic");
    assert ["Doctor"] + ["Clinic"] == ["Doctor", "Clinic"];
  }

  /** The three node names the demonstration asks about hold no "to " once
      lower-cased. */
  lemma {:induction false} DoctorPlain()
    ensures Lower("Doctor") == "doctor" && !Contains("doctor", Marker)
  {
    NoStartIn("doctor", Marker, 0, 3);
    assert "doctor"[3..6][2] == 'r';
  }

  lemma {:induction false} HospitalPlain()
    ensures Lower("Hospital") == "hospital" && !Contains("hospital", Marker)
  {
    NoStartIn("hospital", Marker, 0, 5);
    assert "hospital"[5..8][1] == 'a';
  }

  lemma {:induction false} JanitorPlain()
    ensures Lower("Janitor") == "janitor" && !Contains("janitor", Marker)
  {
    NoStartIn("janitor", Marker, 0, 4);
    assert "janitor"[4..7][2] == 'r';
  }

  /** What both readings look up for the three demonstration queries. */
  lemma {:induction false} DoctorTargets()
    ensures Target(Question("Doctor")) == Some("doctor")
    ensures TargetMatchingCase(Question("Doctor")) == Some("Doctor")
  {
    DoctorPlain();
    QuestionTargets("Doctor");
  }

  lemma {:induction false} HospitalTargets()
    ensures Target(Question("Hospital")) == Some("hospital")
    ensures TargetMatchingCase(Question("Hospital")) == Some("Hospital")
  {
    HospitalPlain();
    QuestionTargets("Hospital");
  }

  lemma {:induction false} JanitorTargets()
    ensures Target(Question("Janitor")) == Some("janitor")
    ensures TargetMatchingCase(Question("Janitor")) == Some("Janitor")
  {
    JanitorPlain();
    QuestionTargets("Janitor");
  }

  /** Which names are nodes of the demonstration graph, and the neighbours
      of those asked about. */
  lemma {:induction false} DemoNodes()
    ensures DemoAdjFacts(DemoGraph().adj)
  {
    DemoGraphAdj();
    DemoAdjLiteral(DemoGraph().adj);
  }

  /** Which names are nodes of the demonstration graph, and the neighbours
      of the two that are asked about. */
  predicate DemoAdjFacts(adj: map<string, seq<string>>)
  {
    && "doctor" !in adj && "hospital" !in adj && "janitor" !in adj && "Janitor" !in adj
    && "Doctor" in adj && "Hospital" in adj
    && adj["Doctor"] == ["Hospital", "Patient A", "Patient B", "Nurse"]
    && adj["Hospital"] == ["Doctor", "Clinic"]
  }

  lemma {:induction false} DemoAdjLiteral(adj: map<string, seq<string>>)
    requires adj == map[
      "Hospital" := ["Doctor", "Clinic"],
      "Doctor" := ["Hospital", "Patient A", "Patient B", "Nurse"],
      "Patient A" := ["Doctor"],
      "Patient B" := ["Doctor"],
      "Nurse" := ["Doctor"],
      "Clinic" := ["Hospital"]]
    ensures DemoAdjFacts(adj)
  {
  }

  /** As written, all three demonstration queries end in "does not exist",
      although "Doctor" and "Hospital" are nodes. */
  lemma {:induction false} DemoQueries()
    ensures Query(DemoGraph(), Question("Doctor")) == Missing("doctor")
    ensures Query(DemoGraph(), Question("Hospital")) == Missing("hospital")
    ensures Query(DemoGraph(), Question("Janitor")) == Missing("janitor")
  {
    DemoNodes();
    DoctorTargets();
    HospitalTargets();
    JanitorTargets();
  }

  /** With the corrected reading, "Doctor" and "Hospital" are found with
      their neighbours in the order their edges were added, and "Janitor"
      is reported missing. */
  lemma {:induction false} DemoQueriesMatchingCase()
    ensures QueryMatchingCase(DemoGraph(), Question("Doctor")) ==
      Connections("Doctor", ["Hospital", "Patient A", "Patient B", "Nurse"])
    ensures QueryMatchingCase(DemoGraph(), Question("Hospital")) ==
      Connections("Hospital", ["Doctor", "Clinic"])
    ensures QueryMatchingCase(DemoGraph(), Question("Janitor")) == Missing("Janitor")
  {
    DemoNodes();
    DoctorTargets();
    HospitalTargets();
    JanitorTargets();
  }
}
