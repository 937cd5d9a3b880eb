/** The base agent of both scripts: a name, a role and an inbox of received
    messages. agent.py and agent_final.py define this class with the same
    code (agent_final.py only makes `act` asynchronous), so one model serves
    both. */
module Agents {

  /** The words both responses of `act` start with. */
  function Intro(name: string, role: string): (r: string)
  {
    "Agent " + name + " (" + role + ") is "
  }

  /** The response of `act` for a non-empty prompt. */
  function ActingOn(name: string, role: string, prompt: string): (r: string)
  {
    Intro(name, role) + "acting on prompt: '" + prompt + "'."
  }

  /** The response of `act` for the empty prompt. */
  function GenericAction(name: string, role: string): (r: string)
  {
    Intro(name, role) + "performing a generic action."
  }

  class Agent {
    const name: string
    const role: string
    var messageInbox: seq<string>

    /** A new agent keeps the given name and role and has received nothing. */
    constructor (name: string, role: string)
      ensures this.name == name && this.role == role
      ensures messageInbox == []
    {
      this.name := name;
      this.role := role;
      messageInbox := [];
    }

    /** `act`: a canned response that quotes the prompt when there is one.
        It reads only the constant name and role, so it changes nothing.
        Every response introduces the agent; it is the generic one exactly
        for the empty prompt, and otherwise the prompt stands quoted in it. */
    function Act(prompt: string := ""): (r: string)
      ensures |Intro(name, role)| <= |r| && r[..|Intro(name, role)|] == Intro(name, role)
      ensures r == GenericAction(name, role) <==> prompt == ""
      ensures prompt != "" ==>
        var k := |Intro(name, role) + "acting on prompt: '"|;
        k + |prompt| + 2 == |r| && r[k..k + |prompt|] == prompt
    {
      if prompt != "" then
        ActingOnIsNotGeneric(name, role, prompt);
        ActingOn(name, role, prompt)
      else GenericAction(name, role)
    }

    /** `send_message`: the message is appended to the recipient's inbox,
        after everything it held before; nothing else changes. When an agent
        sends to itself, its own inbox is the one that grows. */
    method SendMessage(recipient: Agent, message: string)
      modifies recipient
      ensures recipient.messageInbox == old(recipient.messageInbox) + [message]
      ensures recipient != this ==> messageInbox == old(messageInbox)
    {
      recipient.messageInbox := recipient.messageInbox + [message];
    }
  }

  /** The two responses an agent gives are told apart by their text: no
      prompt produces the generic response. */
  lemma {:induction false} ActingOnIsNotGeneric(name: string, role: string, prompt: string)
    ensures ActingOn(name, role, prompt) != GenericAction(name, role)
  {
    var head := Intro(name, role);
    var acting := "acting on prompt: '" + prompt + "'.";
    assert ActingOn(name, role, prompt) == head + acting;
    assert ActingOn(name, role, prompt)[|head|] == acting[0] == 'a';
    assert GenericAction(name, role)[|head|] == 'p';
  }

  /** The prompt can be read back from the response: two prompts that give
      the same response are the same prompt. */
  lemma {:induction false} ActingOnInjective(name: string, role: string, p: string, q: string)
    requires ActingOn(name, role, p) == ActingOn(name, role, q)
    ensures p == q
  {
    var head := Intro(name, role) + "acting on prompt: '";
    var a := ActingOn(name, role, p);
    assert |p| == |q|;
    assert a[|head|..|head| + |p|] == p;
    assert ActingOn(name, role, q)[|head|..|head| + |q|] == q;
  }

  /** `act` quotes the prompt exactly when it is non-empty, and different
      prompts give different responses. */
  lemma {:induction false} ActDeterminesPrompt(a: Agent, p: string, q: string)
    ensures a.Act(p) == ActingOn(a.name, a.role, p) <==> p != ""
    ensures a.Act(p) == GenericAction(a.name, a.role) <==> p == ""
    ensures a.Act(p) == a.Act(q) ==> p == q
  {
    ActingOnIsNotGeneric(a.name, a.role, "");
    if p != "" {
      ActingOnIsNotGeneric(a.name, a.role, p);
    }
    if q != "" {
      ActingOnIsNotGeneric(a.name, a.role, q);
    }
    if p != "" && q != "" && a.Act(p) == a.Act(q) {
      ActingOnInjective(a.name, a.role, p, q);
    }
  }

  /** The message exchange of both scripts' demonstrations: Alice sends one
      message to Bob, who then has exactly that message, and Alice still has
      none. */
  method MailboxDemo() returns (bobInbox: seq<string>, aliceInbox: seq<string>)
    ensures bobInbox == ["Please prepare the weekly report."]
    ensures aliceInbox == []
  {
    var alice := new Agent("Alice", "coordinator");
    var bob := new Agent("Bob", "analyst");
    alice.SendMessage(bob, "Please prepare the weekly report.");
    bobInbox, aliceInbox := bob.messageInbox, alice.messageInbox;
  }
}
