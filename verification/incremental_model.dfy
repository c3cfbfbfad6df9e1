/** An incremental model: statements stored per PubMed id, with the reserved
    key "prior" holding prior statements, and relevance filters deciding which
    newly read statements are kept.

    The store is a Python 2 dictionary, whose iteration order is arbitrary;
    here it is an association list of entries with distinct keys, which fixes
    one iteration order (the order in which the accessors concatenate the
    lists). Statements that only depend on which lists are stored, not on
    their order, are the ones that carry over to the dictionary. */
module IncrementalModel {
  import opened Wrappers
  import opened Lists
  import opened Statements

  /** The key under which prior statements are stored. */
  const PriorKey: string := "prior"

  /** The filter names understood by `AddStatements`. */
  const Grounding: string := "grounding"
  const PriorAll: string := "prior_all"
  const PriorOne: string := "prior_one"
  const ModelAll: string := "model_all"
  const ModelOne: string := "model_one"

  datatype Entry = Entry(pmid: string, stmts: seq<Statement>)

  /** The statement dictionary of the model. */
  type Store = seq<Entry>

  /** The keys of the store. */
  function Keys(st: Store): set<string>
  {
    if |st| == 0 then {} else {st[0].pmid} + Keys(st[1..])
  }

  /** No key occurs twice, as in a dictionary. */
  predicate Valid(st: Store)
  {
    |st| == 0 || (st[0].pmid !in Keys(st[1..]) && Valid(st[1..]))
  }

  /** The list stored under `key`, if any. */
  function Lookup(st: Store, key: string): (r: Option<seq<Statement>>)
    ensures r.Some? <==> key in Keys(st)
  {
    if |st| == 0 then None
    else if st[0].pmid == key then Some(st[0].stmts)
    else Lookup(st[1..], key)
  }

  /** Dictionary assignment `st[key] = v`. The model chooses where entries
      go (an existing entry keeps its place, a new key goes at the end); the
      dictionary promises no such order. */
  function Put(st: Store, key: string, v: seq<Statement>): (r: Store)
    ensures Keys(r) == Keys(st) + {key}
    ensures Lookup(r, key) == Some(v)
    ensures forall k {:trigger Lookup(r, k)} :: k != key ==> Lookup(r, k) == Lookup(st, k)
  {
    if |st| == 0 then [Entry(key, v)]
    else if st[0].pmid == key then
      assert Keys(st) == {key} + Keys(st[1..]);
      assert Keys([Entry(key, v)] + st[1..]) == {key} + Keys(st[1..]);
      [Entry(key, v)] + st[1..]
    else
      var rest := Put(st[1..], key, v);
      assert Keys(st) == {st[0].pmid} + Keys(st[1..]);
      assert Keys([st[0]] + rest) == {st[0].pmid} + Keys(rest);
      [st[0]] + rest
  }

  /** Assignment keeps the keys distinct. */
  lemma {:induction false} PutValid(st: Store, key: string, v: seq<Statement>)
    ensures Valid(st) ==> Valid(Put(st, key, v))
  {
    if Valid(st) && |st| > 0 && st[0].pmid != key {
      PutValid(st[1..], key, v);
      var r := Put(st, key, v);
      assert r[1..] == Put(st[1..], key, v);
    } else if Valid(st) && |st| > 0 {
      var r := Put(st, key, v);
      assert r[1..] == st[1..];
    }
  }

  // ---------------------------------------------------------------------------
  // Accessors

  /** All statements, every list of the store concatenated. */
  function GetStatements(st: Store): seq<Statement>
  {
    if |st| == 0 then [] else st[0].stmts + GetStatements(st[1..])
  }

  /** All statements except the prior ones. */
  function GetStatementsNoprior(st: Store): seq<Statement>
  {
    if |st| == 0 then []
    else (if st[0].pmid == PriorKey then [] else st[0].stmts) + GetStatementsNoprior(st[1..])
  }

  /** The prior statements, or none when there is no prior entry. */
  function GetStatementsPrior(st: Store): seq<Statement>
  {
    match Lookup(st, PriorKey)
    case Some(v) => v
    case None => []
  }

  /** The stateless agents built from the present agents of one statement. */
  function StatementAgents(oracle: AgentOracle, s: Statement): set<Agent>
  {
    set a | a in s.agents && a.Some? :: StatelessAgent(oracle, a.value)
  }

  /** The stateless agents built from every present agent of the statements,
      collected statement by statement as the nested loops do. */
  function AgentsOf(oracle: AgentOracle, stmts: seq<Statement>): set<Agent>
  {
    if |stmts| == 0 then {}
    else StatementAgents(oracle, stmts[0]) + AgentsOf(oracle, stmts[1..])
  }

  /** The agents of the model's own (non-prior) statements. */
  function GetModelAgents(oracle: AgentOracle, st: Store): set<Agent>
  {
    AgentsOf(oracle, GetStatementsNoprior(st))
  }

  /** The agents of the prior statements. */
  function GetPriorAgents(oracle: AgentOracle, st: Store): set<Agent>
  {
    AgentsOf(oracle, GetStatementsPrior(st))
  }

  // ---------------------------------------------------------------------------
  // Relevance filters

  /** An agent counts as ungrounded when it has no database references or only
      its text. */
  predicate Ungrounded(a: Agent)
  {
    |a.dbRefs| == 0 || a.dbRefs.Keys == {"TEXT"}
  }

  /** Every present agent is grounded. */
  predicate Grounded(s: Statement)
  {
    forall a :: a in s.agents && a.Some? ==> !Ungrounded(a.value)
  }

  predicate RelatedToPrior(oracle: AgentOracle, a: Agent, prior: set<Agent>)
  {
    exists p :: p in prior && AgentRelated(oracle, a, p)
  }

  predicate InModel(oracle: AgentOracle, a: Agent, model: set<Agent>)
  {
    exists m :: m in model && oracle.equal(a, m)
  }

  predicate AllRelatedToPrior(oracle: AgentOracle, s: Statement, prior: set<Agent>)
  {
    forall a :: a in s.agents && a.Some? ==> RelatedToPrior(oracle, a.value, prior)
  }

  predicate OneRelatedToPrior(oracle: AgentOracle, s: Statement, prior: set<Agent>)
  {
    exists a :: a in s.agents && a.Some? && RelatedToPrior(oracle, a.value, prior)
  }

  predicate AllInModel(oracle: AgentOracle, s: Statement, model: set<Agent>)
  {
    forall a :: a in s.agents && a.Some? ==> InModel(oracle, a.value, model)
  }

  predicate OneInModel(oracle: AgentOracle, s: Statement, model: set<Agent>)
  {
    exists a :: a in s.agents && a.Some? && InModel(oracle, a.value, model)
  }

  /** A statement passes the named filters: grounding always applies, the
      prior filters only when there are prior agents and the model filters
      only when there are model agents. */
  predicate Relevant(oracle: AgentOracle, filters: seq<string>, prior: set<Agent>, model: set<Agent>, s: Statement)
  {
    && (Grounding in filters ==> Grounded(s))
    && (prior != {} && PriorAll in filters ==> AllRelatedToPrior(oracle, s, prior))
    && (prior != {} && PriorOne in filters ==> OneRelatedToPrior(oracle, s, prior))
    && (model != {} && ModelAll in filters ==> AllInModel(oracle, s, model))
    && (model != {} && ModelOne in filters ==> OneInModel(oracle, s, model))
  }

  /** `Relevant` against the agents of the store. */
  predicate RelevantIn(oracle: AgentOracle, st: Store, filters: seq<string>, s: Statement)
  {
    Relevant(oracle, filters, GetPriorAgents(oracle, st), GetModelAgents(oracle, st), s)
  }

  /** The relevance filter as documented: the statements passing every named
      filter, in their original order and with their multiplicities. */
  function RelevanceFilter(oracle: AgentOracle, st: Store, stmts: seq<Statement>, filters: seq<string>): (r: seq<Statement>)
    ensures IsSubsequence(r, stmts)
    ensures forall s {:trigger multiset(r)[s]} :: multiset(r)[s] == if RelevantIn(oracle, st, filters, s) then multiset(stmts)[s] else 0
  {
    Filter(s => RelevantIn(oracle, st, filters, s), stmts)
  }

  /** Store a paper's statements under its PMID: unchanged without filters,
      an empty list for no statements, the relevant statements otherwise. */
  function AddStatements(oracle: AgentOracle, st: Store, pmid: string, stmts: seq<Statement>,
                         filters: seq<string>): (r: Store)
    ensures Keys(r) == Keys(st) + {pmid}
    ensures Valid(st) ==> Valid(r)
    ensures forall k {:trigger Lookup(r, k)} :: k != pmid ==> Lookup(r, k) == Lookup(st, k)
    ensures Lookup(r, pmid).Some?
    ensures |filters| == 0 ==> Lookup(r, pmid) == Some(stmts)
    ensures |stmts| == 0 ==> Lookup(r, pmid) == Some([])
    ensures IsSubsequence(Lookup(r, pmid).value, stmts)
    ensures |filters| > 0 ==>
              forall s :: multiset(Lookup(r, pmid).value)[s] ==
                          if RelevantIn(oracle, st, filters, s) then multiset(stmts)[s] else 0
  {
    var stored :=
      if |filters| == 0 then stmts
      else if |stmts| == 0 then []
      else RelevanceFilter(oracle, st, stmts, filters);
    SubsequenceReflexive(stmts);
    PutValid(st, pmid, stored);
    Put(st, pmid, stored)
  }

  // ---------------------------------------------------------------------------
  // Properties of the accessors

  /** Without a prior entry there are no prior statements and every statement
      is a model statement. */
  lemma {:induction false} NoPriorEntry(st: Store)
    requires PriorKey !in Keys(st)
    ensures GetStatementsPrior(st) == []
    ensures GetStatementsNoprior(st) == GetStatements(st)
  {
    if |st| > 0 {
      assert Keys(st) == {st[0].pmid} + Keys(st[1..]);
      NoPriorEntry(st[1..]);
    }
  }

  /** A statement is a model statement exactly when some non-prior entry holds it. */
  lemma {:induction false} NopriorMembership(st: Store, s: Statement)
    ensures s in GetStatementsNoprior(st) <==> exists e :: e in st && e.pmid != PriorKey && s in e.stmts
  {
    if |st| > 0 {
      NopriorMembership(st[1..], s);
      assert forall e :: e in st <==> e == st[0] || e in st[1..];
    }
  }

  /** All statements are the model statements and the prior statements together:
      as multisets, nothing lost and nothing counted twice. */
  lemma {:induction false} GetStatementsSplit(st: Store)
    requires Valid(st)
    ensures multiset(GetStatements(st)) == multiset(GetStatementsNoprior(st)) + multiset(GetStatementsPrior(st))
  {
    if |st| > 0 {
      GetStatementsSplit(st[1..]);
      if st[0].pmid == PriorKey {
        NoPriorEntry(st[1..]);
      } else {
        assert Lookup(st, PriorKey) == Lookup(st[1..], PriorKey);
      }
    }
  }

  /** In the model's chosen order, a new key is added at the end of the store. */
  lemma {:induction false} PutNewKeyAppends(st: Store, key: string, v: seq<Statement>)
    requires key !in Keys(st)
    ensures Put(st, key, v) == st + [Entry(key, v)]
  {
    if |st| > 0 {
      assert Keys(st) == {st[0].pmid} + Keys(st[1..]);
      PutNewKeyAppends(st[1..], key, v);
    }
  }

  lemma {:induction false} NopriorAppend(st: Store, e: Entry)
    ensures GetStatementsNoprior(st + [e]) ==
            GetStatementsNoprior(st) + (if e.pmid == PriorKey then [] else e.stmts)
  {
    if |st| > 0 {
      assert (st + [e])[1..] == st[1..] + [e];
      NopriorAppend(st[1..], e);
    } else {
      assert st + [e] == [e];
    }
  }

  /** An agent is collected exactly when some present agent of some statement
      yields it. */
  lemma {:induction false} AgentsOfMember(oracle: AgentOracle, stmts: seq<Statement>, x: Agent)
    ensures x in AgentsOf(oracle, stmts) <==>
            exists s, a :: s in stmts && a in s.agents && a.Some? && x == StatelessAgent(oracle, a.value)
  {
    if |stmts| > 0 {
      AgentsOfMember(oracle, stmts[1..], x);
      assert forall s :: s in stmts <==> s == stmts[0] || s in stmts[1..];
    }
  }

  lemma {:induction false} AgentsOfConcat(oracle: AgentOracle, a: seq<Statement>, b: seq<Statement>)
    ensures AgentsOf(oracle, a + b) == AgentsOf(oracle, a) + AgentsOf(oracle, b)
  {
    if |a| > 0 {
      AgentsOfConcat(oracle, a[1..], b);
      assert (a + b)[1..] == a[1..] + b;
    } else {
      assert a + b == b;
    }
  }

  /** Adding a new paper's statements adds exactly the agents of those
      statements to the model agents. */
  lemma {:induction false} AddPaperAgents(oracle: AgentOracle, st: Store, pmid: string, v: seq<Statement>)
    requires pmid != PriorKey && pmid !in Keys(st)
    ensures forall x :: x in GetModelAgents(oracle, Put(st, pmid, v)) <==>
                        x in GetModelAgents(oracle, st) || x in AgentsOf(oracle, v)
  {
    PutNewKeyAppends(st, pmid, v);
    NopriorAppend(st, Entry(pmid, v));
    AgentsOfConcat(oracle, GetStatementsNoprior(st), v);
  }

  // ---------------------------------------------------------------------------
  // Properties of the relevance filters

  /** The grounding filter drops a statement exactly when one of its present
      agents has no database references or only its text. */
  lemma GroundingFilterSemantics(oracle: AgentOracle, st: Store, stmts: seq<Statement>, s: Statement)
    ensures s in RelevanceFilter(oracle, st, stmts, [Grounding]) <==>
            s in stmts && !exists a :: a in s.agents && a.Some? && Ungrounded(a.value)
  {
    FilterMembership(s => RelevantIn(oracle, st, [Grounding], s), stmts, s);
  }

  /** `prior_all` keeps a statement exactly when every present agent is related
      to some prior agent, or when there are no prior agents. */
  lemma PriorAllFilterSemantics(oracle: AgentOracle, st: Store, stmts: seq<Statement>, s: Statement)
    ensures var prior := GetPriorAgents(oracle, st);
            s in RelevanceFilter(oracle, st, stmts, [PriorAll]) <==>
            s in stmts && (prior == {} || forall a :: a in s.agents && a.Some? ==> RelatedToPrior(oracle, a.value, prior))
  {
    FilterMembership(s => RelevantIn(oracle, st, [PriorAll], s), stmts, s);
  }

  /** `prior_one` keeps a statement exactly when some present agent is related
      to some prior agent, or when there are no prior agents. */
  lemma PriorOneFilterSemantics(oracle: AgentOracle, st: Store, stmts: seq<Statement>, s: Statement)
    ensures var prior := GetPriorAgents(oracle, st);
            s in RelevanceFilter(oracle, st, stmts, [PriorOne]) <==>
            s in stmts && (prior == {} || exists a :: a in s.agents && a.Some? && RelatedToPrior(oracle, a.value, prior))
  {
    FilterMembership(s => RelevantIn(oracle, st, [PriorOne], s), stmts, s);
  }

  /** `model_all` keeps a statement exactly when every present agent is among
      the model agents, or when there are no model agents. */
  lemma ModelAllFilterSemantics(oracle: AgentOracle, st: Store, stmts: seq<Statement>, s: Statement)
    ensures var model := GetModelAgents(oracle, st);
            s in RelevanceFilter(oracle, st, stmts, [ModelAll]) <==>
            s in stmts && (model == {} || forall a :: a in s.agents && a.Some? ==> InModel(oracle, a.value, model))
  {
    FilterMembership(s => RelevantIn(oracle, st, [ModelAll], s), stmts, s);
  }

  /** `model_one` keeps a statement exactly when some present agent is among
      the model agents, or when there are no model agents. */
  lemma ModelOneFilterSemantics(oracle: AgentOracle, st: Store, stmts: seq<Statement>, s: Statement)
    ensures var model := GetModelAgents(oracle, st);
            s in RelevanceFilter(oracle, st, stmts, [ModelOne]) <==>
            s in stmts && (model == {} || exists a :: a in s.agents && a.Some? && InModel(oracle, a.value, model))
  {
    FilterMembership(s => RelevantIn(oracle, st, [ModelOne], s), stmts, s);
  }

  /** The prior filters change nothing when there are no prior agents. */
  lemma PriorFiltersNeedPriorAgents(oracle: AgentOracle, st: Store, stmts: seq<Statement>, filters: seq<string>)
    requires GetPriorAgents(oracle, st) == {}
    requires forall f :: f in filters ==> f == PriorAll || f == PriorOne
    ensures RelevanceFilter(oracle, st, stmts, filters) == stmts
  {
    FilterAll(s => RelevantIn(oracle, st, filters, s), stmts);
  }

  /** The model filters change nothing when there are no model agents. */
  lemma ModelFiltersNeedModelAgents(oracle: AgentOracle, st: Store, stmts: seq<Statement>, filters: seq<string>)
    requires GetModelAgents(oracle, st) == {}
    requires forall f :: f in filters ==> f == ModelAll || f == ModelOne
    ensures RelevanceFilter(oracle, st, stmts, filters) == stmts
  {
    FilterAll(s => RelevantIn(oracle, st, filters, s), stmts);
  }

  /** The statement has at least one agent that is not `None`. */
  predicate NamesAgent(s: Statement)
  {
    exists a :: a in s.agents && a.Some?
  }

  /** For statements that name an agent, `model_one` keeps everything
      `model_all` keeps, in order. */
  lemma ModelOneKeepsModelAll(oracle: AgentOracle, st: Store, stmts: seq<Statement>)
    requires forall i :: 0 <= i < |stmts| ==> NamesAgent(stmts[i])
    ensures IsSubsequence(RelevanceFilter(oracle, st, stmts, [ModelAll]),
                          RelevanceFilter(oracle, st, stmts, [ModelOne]))
  {
    var model := GetModelAgents(oracle, st);
    forall i | 0 <= i < |stmts| && RelevantIn(oracle, st, [ModelAll], stmts[i])
      ensures RelevantIn(oracle, st, [ModelOne], stmts[i])
    {
      var a :| a in stmts[i].agents && a.Some?;
      if model != {} {
        assert InModel(oracle, a.value, model);
      }
    }
    FilterMonotone(s => RelevantIn(oracle, st, [ModelAll], s), s => RelevantIn(oracle, st, [ModelOne], s), stmts);
  }

  /** For statements that name an agent, `prior_one` keeps everything
      `prior_all` keeps, in order. */
  lemma PriorOneKeepsPriorAll(oracle: AgentOracle, st: Store, stmts: seq<Statement>)
    requires forall i :: 0 <= i < |stmts| ==> NamesAgent(stmts[i])
    ensures IsSubsequence(RelevanceFilter(oracle, st, stmts, [PriorAll]),
                          RelevanceFilter(oracle, st, stmts, [PriorOne]))
  {
    var prior := GetPriorAgents(oracle, st);
    forall i | 0 <= i < |stmts| && RelevantIn(oracle, st, [PriorAll], stmts[i])
      ensures RelevantIn(oracle, st, [PriorOne], stmts[i])
    {
      var a :| a in stmts[i].agents && a.Some?;
      if prior != {} {
        assert RelatedToPrior(oracle, a.value, prior);
      }
    }
    FilterMonotone(s => RelevantIn(oracle, st, [PriorAll], s), s => RelevantIn(oracle, st, [PriorOne], s), stmts);
  }

  /** Being relevant to two filter lists together is being relevant to each. */
  lemma RelevantConcat(oracle: AgentOracle, f1: seq<string>, f2: seq<string>,
                       prior: set<Agent>, model: set<Agent>, s: Statement)
    ensures Relevant(oracle, f1 + f2, prior, model, s) ==
            (Relevant(oracle, f1, prior, model, s) && Relevant(oracle, f2, prior, model, s))
  {
    assert forall f :: f in f1 + f2 <==> f in f1 || f in f2;
  }

  /** Applying filters one list after another equals applying them together,
      so the one-filter-at-a-time chain used before preassembly keeps what the
      combined filter keeps. */
  lemma FiltersCompose(oracle: AgentOracle, st: Store, stmts: seq<Statement>, f1: seq<string>, f2: seq<string>)
    ensures RelevanceFilter(oracle, st, RelevanceFilter(oracle, st, stmts, f1), f2) ==
            RelevanceFilter(oracle, st, stmts, f1 + f2)
  {
    var p1 := s => RelevantIn(oracle, st, f1, s);
    var p2 := s => RelevantIn(oracle, st, f2, s);
    var both := s => RelevantIn(oracle, st, f1 + f2, s);
    var prior, model := GetPriorAgents(oracle, st), GetModelAgents(oracle, st);
    forall i | 0 <= i < |stmts| ensures both(stmts[i]) == (p1(stmts[i]) && p2(stmts[i])) {
      RelevantConcat(oracle, f1, f2, prior, model, stmts[i]);
    }
    FilterFilter(p2, p1, both, stmts);
  }
}
