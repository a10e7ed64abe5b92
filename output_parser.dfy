/**
 * `CustomOutputParser.parse` of manage_establishments.py: turn the language
 * model's reply into the agent's next step, either a finish carrying the
 * final answer or an action naming a tool and its input.
 */
module OutputParser {
  import opened Wrappers
  import opened PyStr

  /** LangChain's `AgentAction` and `AgentFinish`. */
  datatype AgentStep =
    | AgentAction(tool: string, toolInput: string, log: string)
    | AgentFinish(returnValues: map<string, string>, log: string)

  /**
   * `re.search` of the action pattern with `re.DOTALL`, reduced to its two
   * capture groups: the text after `Action:` and the text after
   * `Action Input:`. The regular expression engine is not modelled.
   */
  type ActionMatcher = string -> Option<(string, string)>

  const FinishMarker: string := "Final Answer"
  const FinishSeparator: string := "Final Answer:"

  /** The message of the `ValueError` raised for an unparsable reply. */
  function ParseErrorMessage(llmOutput: string): string {
    "Could not parse LLM output: `" + llmOutput + "`"
  }

  /** `llm_output.split("Final Answer:")[-1].strip()`. */
  function FinalAnswer(llmOutput: string): string {
    Strip(LastPiece(llmOutput, FinishSeparator), Whitespace)
  }

  /** `match.group(1).strip()`. */
  function ToolName(group: string): (t: string)
    ensures t == [] || (!IsSpace(t[0]) && !IsSpace(t[|t| - 1]))
  {
    Strip(group, Whitespace)
  }

  /** Whether neither end of `s` is a double quote. */
  predicate Unquoted(s: string) {
    s == [] || (s[0] != '"' && s[|s| - 1] != '"')
  }

  /** `action_input.strip(" ").strip('"')`: no double quote is left at either end. */
  function ToolInput(group: string): (t: string)
    ensures Unquoted(t)
  {
    Strip(Strip(group, Chars({' '})), Chars({'"'}))
  }

  function Parse(llmOutput: string, matchAction: ActionMatcher): (r: Result<AgentStep, string>)
    ensures r.Ok? ==> r.value.log == llmOutput
    ensures r.Ok? && r.value.AgentFinish? <==> Contains(llmOutput, FinishMarker)
    ensures r.Err? <==> !Contains(llmOutput, FinishMarker) && matchAction(llmOutput).None?
    ensures r.Err? ==> r.error == ParseErrorMessage(llmOutput)
    ensures r.Ok? && r.value.AgentFinish? ==>
      r.value.returnValues.Keys == {"output"} && r.value.returnValues["output"] == FinalAnswer(llmOutput)
    ensures r.Ok? && r.value.AgentAction? ==>
      var groups := matchAction(llmOutput).value;
      && matchAction(llmOutput).Some?
      && r.value.tool == ToolName(groups.0)
      && r.value.toolInput == ToolInput(groups.1)
      && Unquoted(r.value.toolInput)
  {
    if Contains(llmOutput, FinishMarker) then
      Ok(AgentFinish(map["output" := FinalAnswer(llmOutput)], llmOutput))
    else
      var m := matchAction(llmOutput);
      if m.None? then Err(ParseErrorMessage(llmOutput))
      else
        Ok(AgentAction(ToolName(m.value.0), ToolInput(m.value.1), llmOutput))
  }

  /**
   * The final answer is the text after the last `Final Answer:`, or the whole
   * reply when only `Final Answer` without the colon occurs, with the
   * surrounding whitespace removed.
   */
  lemma FinalAnswerFollowsLastSeparator(llmOutput: string)
    ensures exists p ::
      && |p| <= |llmOutput| && llmOutput[|llmOutput| - |p|..] == p
      && !Contains(p, FinishSeparator)
      && (!Contains(llmOutput, FinishSeparator) ==> p == llmOutput)
      && (Contains(llmOutput, FinishSeparator) ==>
            |p| + |FinishSeparator| <= |llmOutput|
            && llmOutput[|llmOutput| - |p| - |FinishSeparator|..|llmOutput| - |p|] == FinishSeparator)
      && FinalAnswer(llmOutput) == Strip(p, Whitespace)
    ensures var a := FinalAnswer(llmOutput); a == [] || (!IsSpace(a[0]) && !IsSpace(a[|a| - 1]))
  {
    LastPieceFollowsLastSeparator(llmOutput, FinishSeparator);
    var p := LastPiece(llmOutput, FinishSeparator);
    assert FinalAnswer(llmOutput) == Strip(p, Whitespace);
  }

  /** The tool input is a slice of the captured text. */
  lemma ToolInputSlice(group: string)
    ensures exists i, j :: 0 <= i <= j <= |group| && ToolInput(group) == group[i..j]
  {
    var once := Strip(group, Chars({' '}));
    var i1, j1 := StripRange(group, Chars({' '}));
    var i2, j2 := StripRange(once, Chars({'"'}));
    SliceOfSlice(group, i1, j1, i2, j2);
    assert ToolInput(group) == group[i1 + i2..i1 + j2];
  }

  lemma SliceOfSlice(s: string, i1: nat, j1: nat, i2: nat, j2: nat)
    requires i1 <= j1 <= |s| && i2 <= j2 <= j1 - i1
    ensures s[i1..j1][i2..j2] == s[i1 + i2..i1 + j2]
  {
    assert forall k :: 0 <= k < j2 - i2 ==> s[i1..j1][i2..j2][k] == s[i1 + i2 + k];
  }
}
