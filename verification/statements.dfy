/** Statements and agents as the incremental model sees them: agent state is
    carried along but never inspected.
    Agent behaviour defined by the statements library and the ontology
    (matching, is-a, equality, preferred grounding) is supplied as an oracle. */
module Statements {
  import opened Wrappers

  /** An agent: its name, its database references (namespace to identifier)
      and its state. The state (modifications, mutations, bound conditions,
      activity and location) is kept as opaque descriptors: the incremental
      model never inspects it, but it takes part in agent equality, so an
      agent of a statement differs from the stateless agent built from it
      whenever it carries any state. */
  datatype Agent = Agent(name: string, dbRefs: map<string, string>, state: seq<string>)

  /** A statement: its type and its agent list, where an absent agent is `None`. */
  datatype Statement = Statement(kind: string, agents: seq<Option<Agent>>)

  /** Agent behaviour supplied from outside: `matches` is `Agent.matches`, `isa`
      is `Agent.isa` against the ontology hierarchies, `equal` is the equality
      used by list membership, and `grounding` is `Agent.get_grounding`. */
  datatype AgentOracle = AgentOracle(
    matches: (Agent, Agent) -> bool,
    isa: (Agent, Agent) -> bool,
    equal: (Agent, Agent) -> bool,
    grounding: Agent -> (string, string))

  /** Two agents are related when they match or one is-a the other. */
  predicate AgentRelated(oracle: AgentOracle, a1: Agent, a2: Agent)
  {
    oracle.matches(a1, a2) || oracle.isa(a1, a2) || oracle.isa(a2, a1)
  }

  /** Relatedness is symmetric when matching is, and either is-a direction is
      enough for it. */
  lemma AgentRelatedSymmetric(oracle: AgentOracle, a1: Agent, a2: Agent)
    requires oracle.matches(a1, a2) == oracle.matches(a2, a1)
    ensures AgentRelated(oracle, a1, a2) == AgentRelated(oracle, a2, a1)
    ensures oracle.isa(a1, a2) || oracle.isa(a2, a1) ==> AgentRelated(oracle, a1, a2)
  {
  }

  /** The agent with only a name and one grounding entry that the model builds
      from an agent of a statement; its state is empty. */
  function StatelessAgent(oracle: AgentOracle, a: Agent): Agent
  {
    var g := oracle.grounding(a);
    Agent(a.name, map[g.0 := g.1], [])
  }
}
