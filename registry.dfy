/** The participants `build_autogen_system` creates and the group-chat
    configuration it hands them to. The role instructions (system messages)
    are prompt text and are not part of this model. */
module Registry {
  import opened Messages

  /** The `llm_config` of an assistant: the model name and the sampling temperature. */
  datatype LlmConfig = LlmConfig(model: string, temperature: real)

  datatype HumanInputMode = Always | Terminate | Never

  datatype Participant =
    | Assistant(name: string, llm: LlmConfig)
    | UserProxy(name: string, humanInput: HumanInputMode, codeExecution: bool)

  /** The values autogen accepts for `speaker_selection_method`. */
  datatype SpeakerSelection = Auto | Manual | Random | RoundRobin

  datatype GroupChatConfig = GroupChatConfig(
    agents: seq<Participant>,
    maxRound: nat,
    selection: SpeakerSelection,
    allowRepeatSpeaker: bool,
    messages: seq<Message>)

  /** `make_agent`: an assistant whose temperature defaults to 0.0. */
  function MakeAgent(name: string, model: string, temp: real := 0.0): Participant
  {
    Assistant(name, LlmConfig(model, temp))
  }

  /** The eight participants, in the order given to `GroupChat`. */
  function Agents(model: string): seq<Participant>
  {
    [ UserProxy("User", Never, false),
      MakeAgent("RequirementAgent", model),
      MakeAgent("CodingAgent", model, temp := 0.2),
      MakeAgent("ReviewAgent", model),
      MakeAgent("DocumentationAgent", model),
      MakeAgent("TestCaseAgent", model, temp := 0.2),
      MakeAgent("DeployAgent", model),
      MakeAgent("StreamlitUIAgent", model, temp := 0.2) ]
  }

  function BuildGroupChat(model: string): GroupChatConfig
  {
    GroupChatConfig(Agents(model), 8, Auto, true, [])
  }

  predicate DistinctNames(agents: seq<Participant>)
  {
    forall i, j :: 0 <= i < j < |agents| ==> agents[i].name != agents[j].name
  }

  /** Index of the participant called `name`, the first one if several are. */
  function IndexOf(agents: seq<Participant>, name: string): (r: Option<nat>)
    ensures r.Some? ==> r.value < |agents| && agents[r.value].name == name
    ensures r.Some? ==> forall i :: 0 <= i < r.value ==> agents[i].name != name
    ensures r.None? <==> forall i :: 0 <= i < |agents| ==> agents[i].name != name
    decreases |agents|
  {
    if |agents| == 0 then None
    else if agents[0].name == name then Some(0)
    else match IndexOf(agents[1..], name)
      case None => None
      case Some(k) => Some(k + 1)
  }

  /** With distinct names, a name picks out at most one participant. */
  lemma LookupUnique(agents: seq<Participant>, name: string, i: nat)
    requires DistinctNames(agents)
    requires i < |agents| && agents[i].name == name
    ensures IndexOf(agents, name) == Some(i)
  {
  }

  /** The group chat: eight participants with `User` first, no two alike in
      name, a ceiling of 8 rounds, automatic speaker selection, repeated
      speakers allowed, and an empty message list to start from. */
  lemma GroupChatShape(model: string)
    ensures var g := BuildGroupChat(model);
      && |g.agents| == 8
      && g.agents[0] == UserProxy("User", Never, false)
      && DistinctNames(g.agents)
      && g.maxRound == 8
      && g.selection == Auto
      && g.allowRepeatSpeaker
      && g.messages == []
  {
  }

  /** `User` is the only participant without a language model; every other one
      uses the model it was built with. */
  lemma OnlyUserIsProxy(model: string, i: nat)
    requires i < |Agents(model)|
    ensures Agents(model)[i].UserProxy? <==> i == 0
    ensures Agents(model)[i].Assistant? ==> Agents(model)[i].llm.model == model
  {
  }

  /** Temperatures: 0.2 for the coding, test-case and UI agents, the default
      0.0 for every other assistant. */
  lemma Temperatures(model: string, a: Participant)
    requires a in Agents(model) && a.Assistant?
    ensures a.llm.temperature ==
      if a.name in {"CodingAgent", "TestCaseAgent", "StreamlitUIAgent"} then 0.2 else 0.0
  {
  }

  /** The order the pipeline is meant to follow, as the end-to-end test lists it. */
  const PipelineOrder: seq<string> := ["RequirementAgent", "CodingAgent", "ReviewAgent",
    "DocumentationAgent", "TestCaseAgent", "DeployAgent", "StreamlitUIAgent"]

  /** Every agent of the pipeline order is registered, at the position after
      `User` that the pipeline order gives it. */
  lemma PipelineAgentsRegistered(model: string, k: nat)
    requires k < |PipelineOrder|
    ensures IndexOf(Agents(model), PipelineOrder[k]) == Some(k + 1)
  {
    var agents := Agents(model);
    GroupChatShape(model);
    assert agents[k + 1].name == PipelineOrder[k];
    LookupUnique(agents, PipelineOrder[k], k + 1);
  }
}
