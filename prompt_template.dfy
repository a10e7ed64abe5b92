/**
 * `CustomPromptTemplate.format_messages` of manage_establishments.py: the
 * variables it hands to `template.format`, namely the caller's keyword
 * arguments without `intermediate_steps`, plus the agent scratchpad, the
 * tool descriptions and the tool names.
 */
module PromptTemplate {
  import opened Wrappers
  import opened PyStr
  import opened OutputParser

  /** LangChain's `Tool`, reduced to the two fields the template reads. */
  datatype Tool = Tool(name: string, description: string)

  /** A keyword argument: text, or the agent's (action, observation) pairs. */
  datatype Argument = Text(text: string) | Steps(steps: seq<(AgentStep, string)>)

  /**
   * What `format_messages` raises: `KeyError` when `intermediate_steps` is
   * missing, `ValueError` when its value is a non-empty string, whose
   * characters cannot be unpacked into pairs.
   */
  datatype PromptError = MissingKey(key: string) | UnpackError

  const StepsKey: string := "intermediate_steps"
  const ScratchpadKey: string := "agent_scratchpad"
  const ToolsKey: string := "tools"
  const ToolNamesKey: string := "tool_names"

  /** What one step adds to `thoughts`. */
  function StepText(step: (AgentStep, string)): string {
    step.0.log + "\nObservation: " + step.1 + "\nThought: "
  }

  /** The `thoughts` accumulated over `steps`. */
  function Scratchpad(steps: seq<(AgentStep, string)>): string {
    if steps == [] then "" else Scratchpad(steps[..|steps| - 1]) + StepText(steps[|steps| - 1])
  }

  /** The scratchpad of consecutive runs of steps is the concatenation of theirs. */
  lemma {:induction false} ScratchpadAppend(a: seq<(AgentStep, string)>, b: seq<(AgentStep, string)>)
    ensures Scratchpad(a + b) == Scratchpad(a) + Scratchpad(b)
  {
    if b == [] {
      assert a + b == a;
    } else {
      var n := |b| - 1;
      var init, last := b[..n], b[n];
      assert b == init + [last];
      assert a + b == (a + init) + [last];
      ScratchpadSnoc(a + init, last);
      ScratchpadSnoc(init, last);
      ScratchpadAppend(a, init);
    }
  }

  lemma ScratchpadSnoc(steps: seq<(AgentStep, string)>, step: (AgentStep, string))
    ensures Scratchpad(steps + [step]) == Scratchpad(steps) + StepText(step)
  {
    assert (steps + [step])[..|steps|] == steps;
  }

  /** Each step contributes its log, then the observation, then a fresh `Thought: ` prompt. */
  lemma ScratchpadStep(steps: seq<(AgentStep, string)>, action: AgentStep, observation: string)
    ensures Scratchpad([(action, observation)] + steps)
         == action.log + "\nObservation: " + observation + "\nThought: " + Scratchpad(steps)
  {
    ScratchpadAppend([(action, observation)], steps);
    assert [(action, observation)][..0] == [];
  }

  /** `f"{tool.name}: {tool.description}"`. */
  function ToolLine(tool: Tool): string {
    tool.name + ": " + tool.description
  }

  function ToolLines(tools: seq<Tool>): seq<string> {
    seq(|tools|, k requires 0 <= k < |tools| => ToolLine(tools[k]))
  }

  function Names(tools: seq<Tool>): seq<string> {
    seq(|tools|, k requires 0 <= k < |tools| => tools[k].name)
  }

  /** The value of `tools`: one line per tool. */
  function ToolsText(tools: seq<Tool>): string {
    Join("\n", ToolLines(tools))
  }

  /** The value of `tool_names`. */
  function ToolNames(tools: seq<Tool>): string {
    Join(", ", Names(tools))
  }

  /** Read back line by line, the tools text gives each tool's line, in order. */
  lemma ToolsTextLines(tools: seq<Tool>)
    requires tools != []
    requires forall t <- tools :: '\n' !in t.name && '\n' !in t.description
    ensures SplitOn(ToolsText(tools), "\n") == ToolLines(tools)
  {
    forall line | line in ToolLines(tools)
      ensures '\n' !in line
    {
      var k :| 0 <= k < |tools| && ToolLines(tools)[k] == line;
      assert tools[k] in tools;
    }
    SplitOnJoin("\n", ToolLines(tools));
  }

  /** Split at `", "`, the tool names text gives the names, in order. */
  lemma ToolNamesRoundTrip(tools: seq<Tool>)
    requires tools != []
    requires forall t <- tools :: ',' !in t.name
    ensures SplitOn(ToolNames(tools), ", ") == Names(tools)
  {
    forall name | name in Names(tools)
      ensures ',' !in name
    {
      var k :| 0 <= k < |tools| && Names(tools)[k] == name;
      assert tools[k] in tools;
    }
    SplitOnJoin(", ", Names(tools));
  }

  /** The loop of `format_messages` over the intermediate steps. */
  method BuildScratchpad(steps: seq<(AgentStep, string)>) returns (thoughts: string)
    ensures thoughts == Scratchpad(steps)
  {
    thoughts := "";
    for i := 0 to |steps|
      invariant thoughts == Scratchpad(steps[..i])
    {
      var (action, observation) := steps[i];
      thoughts := thoughts + action.log;
      thoughts := thoughts + "\nObservation: " + observation + "\nThought: ";
      assert steps[..i + 1][..i] == steps[..i];
    }
    assert steps[..|steps|] == steps;
  }

  /** The variables `format_messages` passes to `self.template.format`. */
  method FormatMessages(tools: seq<Tool>, kwargs: map<string, Argument>)
    returns (r: Result<map<string, Argument>, PromptError>)
    ensures StepsKey !in kwargs ==> r == Err(MissingKey(StepsKey))
    ensures StepsKey in kwargs && kwargs[StepsKey].Text? && kwargs[StepsKey].text != "" ==> r == Err(UnpackError)
    ensures r.Ok? <==> StepsKey in kwargs && (kwargs[StepsKey].Steps? || kwargs[StepsKey].text == "")
    ensures r.Ok? ==>
      && r.value.Keys == kwargs.Keys - {StepsKey} + {ScratchpadKey, ToolsKey, ToolNamesKey}
      && r.value[ScratchpadKey] == Text(Scratchpad(if kwargs[StepsKey].Steps? then kwargs[StepsKey].steps else []))
      && r.value[ToolsKey] == Text(ToolsText(tools))
      && r.value[ToolNamesKey] == Text(ToolNames(tools))
      && forall k <- kwargs.Keys :: k !in {StepsKey, ScratchpadKey, ToolsKey, ToolNamesKey} ==> r.value[k] == kwargs[k]
  {
    if StepsKey !in kwargs {
      return Err(MissingKey(StepsKey));
    }
    var intermediateSteps := kwargs[StepsKey];
    var vars := kwargs - {StepsKey};
    var steps: seq<(AgentStep, string)> := [];
    if intermediateSteps.Steps? {
      steps := intermediateSteps.steps;
    } else if intermediateSteps.text != "" {
      return Err(UnpackError);
    }
    var thoughts := BuildScratchpad(steps);
    vars := vars[ScratchpadKey := Text(thoughts)];
    vars := vars[ToolsKey := Text(Join("\n", ToolLines(tools)))];
    vars := vars[ToolNamesKey := Text(Join(", ", Names(tools)))];
    r := Ok(vars);
  }
}
