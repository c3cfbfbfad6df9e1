# Preassembly and incremental model of INDRA

This project models two pieces of INDRA's statement handling in Dafny and
proves properties of both.

**Database-free preassembly** (module `Preassembly`). Raw statements are
grouped by a content hash into unique statements. Each raw statement gives one
evidence link `(hash, uuid)`. Support links `(hash, hash)` join two unique
statements when one strictly refines the other. An existing corpus is
supplemented by processing only the new raw statements. The new results are
then merged in, together with the support links that cross the old and new
unique statements. The central result is `IncrementalEquivalence`: merging
gives exactly what processing the whole corpus at once gives. This holds for
the unique statements, the evidence links and the support links.

The hash and the refinement relation are parameters. The hash can be any
injective function of a statement's content. The refinement relation can be
any pure predicate.

**Comparing two statements' lists** (module `ListComparison`). This is the
multiset comparison that checks new preassembly against the old-fashioned
one: evidence keys, supports and supported-by.

**The incremental model** (modules `Statements`, `IncrementalModel`,
`RelevanceAsWritten`). It has:
- a statement store keyed by PubMed id, with the reserved key `"prior"`;
- the five relevance filters: `grounding`, `prior_all`, `prior_one`,
  `model_all`, `model_one`;
- `add_statements`;
- the agent and statement accessors.

The behaviour of agents is an oracle parameter: matching, is-a against the
ontology, list-membership equality, and preferred grounding.

`IncrementalModel.RelevanceFilter` is the filter as documented. Each statement
is kept exactly when it passes every selected filter.
`RelevanceAsWritten.RelevanceFilterAsWritten` follows the code line by line.
Whenever it does not raise, it keeps everything the documented filter keeps,
in order, and with the grounding filter alone the two agree exactly. The
Findings below list where they differ.

Shared building blocks:
- `Wrappers`: `Option` and `Result`.
- `Lists`: filter, subsequence, remove-first, and set images with their
  cardinality bounds.

## Model

| member | source | states |
|---|---|---|
| Preassembly.ProcessSizeBounds | indra/tests/test_db_preassembly.py:221-227 | there are at most as many unique statements as evidence links, and at most as many evidence links as raw statements |
| Preassembly.EvidenceKeysMatchUnique | indra/tests/test_db_preassembly.py:228-231 | the set of hashes in the evidence links equals the key set of the unique-statement dictionary |
| Preassembly.UniqueStatementsGroupByHash | indra/tests/test_db_preassembly.py:221-222 | the unique statements are keyed by exactly the hashes of the input; each is stored under its own hash; every raw statement's content is the unique statement under its hash |
| Preassembly.EvidenceProvenance | indra/tests/test_db_preassembly.py:334-338 | every evidence link names the uuid of an input raw statement, and every unique statement's hash appears in some evidence link |
| Preassembly.ProcessOrderIndependent | indra/tests/test_db_preassembly.py:251-256 | processing depends only on the set of raw statements, so a reordered or deduplicated list (as from `list(set(...))`) gives the same three results |
| Preassembly.SplitCorpusPartitions | indra/tests/test_db_preassembly.py:250-252 | the sampled part and the remaining part are disjoint; together they hold every input statement; the sample has one statement per sampled position |
| Preassembly.SupportLinksOfUnion | indra/tests/test_db_preassembly.py:267-273 | the support links over the union of two compatible dictionaries are the links inside each plus the crossing links |
| Preassembly.IncrementalEquivalence | indra/tests/test_db_preassembly.py:266-295 | for any two parts covering the corpus, merging gives the same results as processing the whole: the overlaid dictionary equals the full one (so it has the same size), and no evidence link or support link is missed or extra |
| Preassembly.SplitMergeUnique | indra/tests/test_db_preassembly.py:269-278 | for the sampled split, the copied and updated dictionary of unique statements equals the one from processing the whole input |
| Preassembly.SplitMergeEvidence | indra/tests/test_db_preassembly.py:280-288 | for the sampled split, the union of the two parts' evidence links equals the full evidence links |
| Preassembly.SplitMergeSupport | indra/tests/test_db_preassembly.py:290-295 | for the sampled split, a support link of the whole input is exactly one inside either part or one of the increment links |
| Preassembly.SupplementEmptyCorpus | indra/tests/test_db_preassembly.py:266-273 | supplementing an empty corpus is the same as processing the new statements from scratch |
| ListComparison.MatchValues | indra/tests/test_db_preassembly.py:158-165 | the leftover first list is the first multiset minus the second, and the leftover second list is the second minus the first; each leftover list is a subsequence of its own values |
| ListComparison.CompareListElements | indra/tests/test_db_preassembly.py:156-172 | returns no mismatch exactly when the two value lists are equal as multisets; otherwise returns the two multiset differences, each as a subsequence of its own list |
| Statements.AgentRelatedSymmetric | indra/tools/incremental_model.py:249-255 | agent relatedness is symmetric when matching is, and is-a in either direction is enough for it |
| IncrementalModel.Lookup | indra/tools/incremental_model.py:273-278 | a key has a stored list exactly when it is a key of the store |
| IncrementalModel.Put | indra/tools/incremental_model.py:137-147 | dictionary assignment: the key set gains the key, the key maps to the new list, and every other key keeps its list |
| IncrementalModel.PutValid | indra/tools/incremental_model.py:137-147 | assignment keeps the keys of the store distinct |
| IncrementalModel.RelevanceFilter | indra/tools/incremental_model.py:57-111 | the result is a subsequence of the input, and each statement keeps its full multiplicity if it passes every selected filter and is dropped otherwise |
| IncrementalModel.AddStatements | indra/tools/incremental_model.py:113-147 | with the documented filter: the paper's key is added and all other entries are unchanged; without filters the list is stored as given; an empty list is stored as empty; with filters, exactly the relevant statements are stored with their multiplicities; the stored list is always a subsequence of the input |
| IncrementalModel.NoPriorEntry | indra/tools/incremental_model.py:273-278 | without a `"prior"` entry there are no prior statements, and the model statements are all statements |
| IncrementalModel.NopriorMembership | indra/tools/incremental_model.py:265-271 | a statement is a model statement exactly when some non-prior entry holds it |
| IncrementalModel.GetStatementsSplit | indra/tools/incremental_model.py:257-278 | all statements are, as a multiset, the model statements plus the prior statements |
| IncrementalModel.AgentsOfMember | indra/tools/incremental_model.py:222-233 | an agent is among the collected agents exactly when it is the stateless agent (name and preferred grounding) of a present agent of some statement |
| IncrementalModel.AgentsOfConcat | indra/tools/incremental_model.py:222-233 | the agent set of two concatenated statement lists is the union of their agent sets |
| IncrementalModel.AddPaperAgents | indra/tools/incremental_model.py:222-233 | after storing a new non-prior paper, an agent is a model agent exactly when it was one before or comes from the paper's statements |
| IncrementalModel.GroundingFilterSemantics | indra/tools/incremental_model.py:59-68 | `grounding` keeps a statement exactly when no present agent has empty database references or only a `TEXT` reference |
| IncrementalModel.PriorAllFilterSemantics | indra/tools/incremental_model.py:70-85 | `prior_all` keeps a statement exactly when there are no prior agents, or every present agent is related to some prior agent |
| IncrementalModel.PriorOneFilterSemantics | indra/tools/incremental_model.py:86-96 | `prior_one` keeps a statement exactly when there are no prior agents, or some present agent is related to some prior agent |
| IncrementalModel.ModelAllFilterSemantics | indra/tools/incremental_model.py:98-106 | `model_all` keeps a statement exactly when there are no model agents, or every present agent is among them |
| IncrementalModel.ModelOneFilterSemantics | indra/tools/incremental_model.py:107-109 | `model_one` keeps a statement exactly when there are no model agents, or some present agent is among them |
| IncrementalModel.PriorFiltersNeedPriorAgents | indra/tools/incremental_model.py:70-72 | with no prior agents, the prior filters keep every statement |
| IncrementalModel.ModelFiltersNeedModelAgents | indra/tools/incremental_model.py:98-100 | with no model agents, the model filters keep every statement |
| IncrementalModel.ModelOneKeepsModelAll | indra/tools/incremental_model.py:98-109 | for statements that name at least one agent, `model_one` keeps everything `model_all` keeps, in order: the part of "increasingly more restrictive" that holds |
| IncrementalModel.PriorOneKeepsPriorAll | indra/tools/incremental_model.py:70-96 | for statements that name at least one agent, `prior_one` keeps everything `prior_all` keeps, in order |
| IncrementalModel.RelevantConcat | indra/tools/incremental_model.py:187-198 | a statement is relevant to two filter lists together exactly when it is relevant to each |
| IncrementalModel.FiltersCompose | indra/tools/incremental_model.py:187-198 | for the documented filter, applying one filter list and then another equals applying both at once, so the one-filter-at-a-time chain before preassembly keeps what the combined filter keeps; the code's own one-filter calls never raise (`SingleFilterNeverRaises`), while a combined `model_all` and `model_one` call can (`ModelAllAndOneRaise`) |
| RelevanceAsWritten.IterateRemoving | indra/tools/incremental_model.py:73-109 | iterating over a list while removing from it: the surviving indices are a subsequence of the list, every index that is never to be removed survives, and no `ValueError` arises when no index is to be removed twice |
| RelevanceAsWritten.GroundingStage | indra/tools/incremental_model.py:58-67 | the grounding stage keeps the indices in order, and keeps every index whose statement is grounded (every index when `grounding` is not named) |
| RelevanceAsWritten.PriorStage | indra/tools/incremental_model.py:69-96 | the prior stage keeps a subsequence of its indices, keeps the index of every relevant statement, and cannot raise unless both `prior_all` and `prior_one` are named |
| RelevanceAsWritten.ModelStage | indra/tools/incremental_model.py:98-109 | the model stage keeps a subsequence of its indices, keeps the index of every relevant statement, and cannot raise unless both `model_all` and `model_one` are named |
| RelevanceAsWritten.AsWrittenIndices | indra/tools/incremental_model.py:58-109 | the index list `stmts_to_add` after the three stages, when no stage raises: its indices are valid and in their original order, and it holds the index of every statement the documented filter keeps |
| RelevanceAsWritten.RelevanceFilterAsWritten | indra/tools/incremental_model.py:57-111 | the filter as coded: whenever it does not raise, it returns a subsequence of the input statements |
| RelevanceAsWritten.AsWrittenKeepsRelevant | indra/tools/incremental_model.py:57-111 | whenever the code does not raise, the documented filter's result is a subsequence of the code's: the code keeps every statement the documented filter keeps, in the same order |
| RelevanceAsWritten.SingleFilterNeverRaises | indra/tools/incremental_model.py:57-111 | a call with a single filter name, as each call of the chain before preassembly makes, never raises |
| RelevanceAsWritten.IterateRemovingSkips | indra/tools/incremental_model.py:73-109 | in a list without repetitions, once the visited index is removed, the index after it moves into the freed position, is never visited, and survives |
| RelevanceAsWritten.AddStatementsAsWritten | indra/tools/incremental_model.py:136-147 | `add_statements` as coded: it raises only when given both filters and statements; on success the paper's key is added, every other key keeps its list, the stored list is a subsequence of the input, it is the input itself without filters, and with filters it contains everything the documented filter keeps |
| RelevanceAsWritten.AddStatementsAsDocumented | indra/tools/incremental_model.py:136-147 | without filters, without statements, or with `grounding` alone, the coded `add_statements` succeeds and stores exactly what the documented model stores |
| RelevanceAsWritten.GroundingStageAsDocumented | indra/tools/incremental_model.py:58-67 | the statements at the indices the grounding stage keeps are exactly the documented grounding filter's result, in order and with multiplicities |
| RelevanceAsWritten.GroundingOnlyAsDocumented | indra/tools/incremental_model.py:57-111 | with `grounding` as the only filter, the code returns exactly the documented filter's result |
| RelevanceAsWritten.ModelOneSkipsAfterRemoval | indra/tools/incremental_model.py:101-109 | with two consecutive statements failing `model_one`, the documented filter keeps neither, but the code keeps the second |
| RelevanceAsWritten.ModelAllAndOneRaise | indra/tools/incremental_model.py:104-109 | a statement failing both `model_all` and `model_one` is dropped by the documented filter, but makes the code raise `ValueError` |
| RelevanceAsWritten.AddStatementsSkips | indra/tools/incremental_model.py:146 | on the skip input, `add_statements` stores the second statement, where the documented model stores an empty list |
| RelevanceAsWritten.AddStatementsRaises | indra/tools/incremental_model.py:146 | on the double-removal input, `add_statements` raises and stores nothing, where the documented model stores an empty list |
| RelevanceAsWritten.AgentlessModelFilters | indra/tools/incremental_model.py:124-125 | a statement without agents passes `model_all` but fails `model_one` against a non-empty model, so `model_one` is not less restrictive than `model_all` |
| RelevanceAsWritten.AgentlessPriorFilters | indra/tools/incremental_model.py:124-125 | a statement without agents passes `prior_all` but fails `prior_one` against a non-empty prior |

## Left out

- **`preassemble`.** Grounding mapping, `Preassembler`, `BeliefEngine` and
  hierarchy building are library code that this model does not include. Only
  the filter chain that `preassemble` runs is kept: see `FiltersCompose`.
- **Pickle I/O.** `__init__`, `save` and `load_prior` read and write pickle
  files. A fresh model is the empty store `[]`. A loaded prior is an entry
  under `"prior"`.
- **Logging, printing and `_str_large_set`.** None of them affects any result.
- **The implementation of `_process_statements` and `_get_increment_links`.**
  That code is not part of this model. The functions are modelled by the
  contract the preassembly tests impose:
  - dictionary keys are the shallow hashes of the contents;
  - there is one evidence link per raw statement;
  - support links are modelled by a rule of this model's own, an assumption
    because the code that computes them is not modelled: `a` supports `b`
    when they differ, `a` refines `b`, and `b` does not refine `a`. The
    increment links are the support links crossing the existing and added
    unique statements, in both directions.
  - An increment step that also returned the links among the added statements
    would give the same merged result, because the test unions
    `new_only_mk_links` in anyway (indra/tests/test_db_preassembly.py:272-273).
- **The concrete hash and ontology.** The hash is an injective parameter. The
  refinement relation and the agent matching, is-a, equality and
  `get_grounding` are oracle parameters. A `(None, None)` grounding is
  whatever pair of strings the oracle returns.
- **The database tests, `test_indra_db_rest.py`, `_do_old_fashioned_preassembly`
  and statement distillation.** They need a database, a REST service or reader
  output.
- **The data-dependent non-emptiness assertions.** These are
  `assert len(support_links)` and the "test not useful without new matches"
  check. They depend on the test corpus, not on the code.
- **`random.sample` and `int(0.8*len(stmts))`.** Randomness and floating point
  are left out. The sampled positions are a parameter `picked` of any size, so
  `SplitCorpusPartitions` covers every split fraction.
- **Order of results built from sets.** The order of `new_stmts` from
  `list(set(...))`, and of the agent lists from `get_model_agents` and
  `get_prior_agents`, comes from set iteration. It is modelled as a set, or as
  an arbitrary order shown not to matter (`ProcessOrderIndependent`).
- **`CompareListElements`'s result.** It returns only the two leftover lists.
  The label, the `'stmts'` part of the returned dictionary and the printed
  message are left out.
- **`get_prior_agents`' `if prior_stmts is None` branch.** It is unreachable,
  because `get_statements_prior` never returns `None`, so it is not modelled.
- **`filters=None`.** It is the empty filter list, and `add_statements` treats
  both the same way. Unknown filter names are ignored, as in the code.
- **`db_refs.keys() == ['TEXT']`.** It follows the Python 2 semantics the code
  is written for (it uses `iteritems`): the key list is exactly `TEXT`.
- RelevanceAsWritten.RelevanceFilterAsWritten: on success, its contract states
  that the result is a subsequence of the input. `AsWrittenKeepsRelevant` adds
  that the documented result is a subsequence of it, and
  `GroundingOnlyAsDocumented` gives the exact result for the grounding filter
  alone. For the prior and model filters, which extra statements a skipped
  position lets through is not characterised in general; the two lemmas of
  the Findings exhibit it on concrete inputs.
- **Dictionary iteration order.** Python 2 dictionaries iterate in an
  arbitrary order. The store is an association list, which fixes one order
  (an existing key keeps its place, a new key goes last). The properties of
  the accessors are stated by membership and multiplicity
  (`NopriorMembership`, `GetStatementsSplit`) or through the agent sets, so
  they hold for any iteration order. The lemmas that mention the chosen order
  (`PutNewKeyAppends`, `NopriorAppend`) are proof steps only.
- IncrementalModel.AddStatements: it stores the documented filter's result.
  The code at indra/tools/incremental_model.py:146 calls the coded filter, so
  it inherits the skip and the `ValueError`; that behaviour is
  `AddStatementsAsWritten`, which agrees with `AddStatements` without filters,
  without statements, or with `grounding` alone (`AddStatementsAsDocumented`),
  and departs from it on the inputs of `AddStatementsSkips` and
  `AddStatementsRaises`. Line 139 stores the caller's own list object, so a
  later change to that list would show in the model; values here are
  immutable, so this aliasing is not modelled.
- **Agent state.** Modifications, mutations, bound conditions, activity and
  location are a list of opaque descriptors in `Agent.state`. They take part
  in agent equality, and the stateless agents built by `get_model_agents` and
  `get_prior_agents` have an empty state, but nothing inspects their content.

## Findings

| source | as written | input that shows it | evidently intended | confidence | as-written member | corrected member |
|---|---|---|---|---|---|---|
| indra/tools/incremental_model.py:101-109 | `stmts_to_add.remove(i)` inside `for i in stmts_to_add` skips the element after each removal (also at lines 73-96, in general: `IterateRemovingSkips`) | a model containing one grounded agent, `filters=['model_one']`, and two new statements whose agents are not in the model: both fail, but only the first is removed | every statement failing a selected filter is dropped | not executed; follows from Python list iteration semantics | RelevanceAsWritten.ModelOneSkipsAfterRemoval | IncrementalModel.RelevanceFilter |
| indra/tools/incremental_model.py:104-109 | `model_all` and `model_one` each call `stmts_to_add.remove(i)` for the same `i` | the same model, `filters=['model_all', 'model_one']`, and one statement whose agent is not in the model: the second `remove` raises `ValueError` | the statement is dropped once | not executed; follows from `list.remove` raising on a missing element | RelevanceAsWritten.ModelAllAndOneRaise | IncrementalModel.RelevanceFilter |
| indra/tools/incremental_model.py:124-125 | "model_one -> prior_all are increasingly more restrictive options" | a statement without agents, such as `Complex([])`, passes `model_all` and `prior_all` but fails `model_one` and `prior_one` once the model or the prior has an agent; and the model agents and the prior agents are independent sets, so no model filter is ordered against a prior filter | within each group, the "one" filter keeps whatever the "all" filter keeps | not executed; follows from `all` over an empty list being true and `any` being false | RelevanceAsWritten.AgentlessModelFilters | IncrementalModel.ModelOneKeepsModelAll |
