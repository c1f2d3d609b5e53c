/**
 * `get_active_agent_id_by_name`: the agent id of the first active agent with
 * the given name in the list the platform's API returns.
 */
module AgentLookup {
  import opened Wrappers
  import opened PyValue

  /**
   * `agent.get("agent_name") == target_name and agent.get("is_active", True)`:
   * a missing `is_active` counts as active.
   */
  predicate Qualifies(agent: Row, target: string) {
    && Get(agent, "agent_name") == Some(Str(target))
    && match Get(agent, "is_active")
       case None => true
       case Some(v) => Truthy(v)
  }

  /** An agent whose `is_active` is `0.0`, `0` or `False` is skipped, whatever its name. */
  lemma ZeroActiveSkipped(agent: Row, target: string, v: Value)
    requires Get(agent, "is_active") == Some(v)
    requires v == Float(0.0) || v == Int(0) || v == Bool(false)
    ensures !Qualifies(agent, target)
  {
  }

  /** `agent.get("agent_id")`: `None` when the record has no id. */
  function AgentId(agent: Row): Value {
    match Get(agent, "agent_id")
    case Some(v) => v
    case None => NoneValue
  }

  /** The id of the first qualifying agent, or `None` when no agent qualifies. */
  function FirstActiveId(agents: seq<Row>, target: string): Value
  {
    if agents == [] then NoneValue
    else if Qualifies(agents[0], target) then AgentId(agents[0])
    else FirstActiveId(agents[1..], target)
  }

  /** `FirstActiveId` is a first-match search. */
  lemma {:induction false} FirstActiveIdIsFirstMatch(agents: seq<Row>, target: string, k: nat)
    requires k < |agents| && Qualifies(agents[k], target)
    requires forall j :: 0 <= j < k ==> !Qualifies(agents[j], target)
    ensures FirstActiveId(agents, target) == AgentId(agents[k])
  {
    if k > 0 {
      assert forall j :: 0 <= j < k - 1 ==> agents[1..][j] == agents[j + 1];
      FirstActiveIdIsFirstMatch(agents[1..], target, k - 1);
    }
  }

  lemma {:induction false} FirstActiveIdNoMatch(agents: seq<Row>, target: string)
    requires forall j :: 0 <= j < |agents| ==> !Qualifies(agents[j], target)
    ensures FirstActiveId(agents, target) == NoneValue
  {
    if agents != [] {
      assert forall j :: 0 <= j < |agents| - 1 ==> agents[1..][j] == agents[j + 1];
      FirstActiveIdNoMatch(agents[1..], target);
    }
  }

  /** The search loop, returning from inside the loop on the first match. */
  method GetActiveAgentIdByName(agents: seq<Row>, target: string) returns (id: Value)
    ensures id == FirstActiveId(agents, target)
  {
    for i := 0 to |agents|
      invariant FirstActiveId(agents[i..], target) == FirstActiveId(agents, target)
    {
      assert agents[i..][1..] == agents[i + 1..];
      if Qualifies(agents[i], target) {
        return AgentId(agents[i]);
      }
    }
    assert agents[|agents|..] == [];
    id := NoneValue;
  }
}
