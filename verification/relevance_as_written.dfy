/** The relevance filter exactly as the incremental model's source writes it:
    it keeps a list of statement indices and, in the prior and model stages,
    calls `remove(i)` on that list while a `for` loop is iterating over it.
    A Python list iterator advances by position, so after a removal it skips
    the index that moved into the freed position; and a stage that removes the
    same index twice (both the "all" and the "one" check failing) raises
    `ValueError`. `IncrementalModel.RelevanceFilter` is the documented filter.
    The lemmas below show where the two agree (the source keeps everything
    the documented filter keeps, and with the grounding filter alone returns
    exactly its result) and inputs on which they differ. */
module RelevanceAsWritten {
  import opened Wrappers
  import opened Lists
  import opened Statements
  import opened IncrementalModel

  /** `list.remove(x)` found no `x` in the list. */
  datatype Error = ValueError

  /** Python 2's `range(n)`. */
  function Range(n: nat): (r: seq<nat>)
    ensures |r| == n
    ensures forall i :: 0 <= i < n ==> r[i] == i
  {
    seq(n, i => i)
  }

  /** `for i in lst:` whose body calls `lst.remove(i)` `removals[i]` times.
      `j` is the iterator's position in the current list. An index that is
      never to be removed always survives. */
  function IterateRemoving(lst: seq<nat>, j: nat, removals: seq<nat>): (r: Result<seq<nat>, Error>)
    requires forall x :: x in lst ==> x < |removals|
    ensures r.Success? ==> IsSubsequence(r.value, lst)
    ensures r.Success? ==> forall x :: x in r.value ==> x in lst
    ensures r.Success? ==> forall x :: x in lst && removals[x] == 0 ==> x in r.value
    ensures (forall x :: x in lst ==> removals[x] <= 1) ==> r.Success?
    decreases |lst| - j
  {
    if j >= |lst| then
      SubsequenceReflexive(lst);
      Success(lst)
    else
      var i := lst[j];
      assert i in lst;
      if removals[i] == 0 then IterateRemoving(lst, j + 1, removals)
      else if removals[i] == 1 then
        var shorter := RemoveFirst(lst, i);
        RemoveFirstMembers(lst, i);
        var r := IterateRemoving(shorter, j + 1, removals);
        if r.Success? then
          SubsequenceTransitive(r.value, shorter, lst);
          r
        else r
      else Failure(ValueError)
  }

  /** In a list without repetitions, every element before the iterator's
      position survives: a removal only takes out the element being visited. */
  lemma {:induction false} IterateRemovingKeepsVisited(lst: seq<nat>, j: nat, removals: seq<nat>)
    requires forall x :: x in lst ==> x < |removals|
    requires Distinct(lst)
    ensures var r := IterateRemoving(lst, j, removals);
            r.Success? ==> forall k :: 0 <= k < j && k < |lst| ==> lst[k] in r.value
    decreases |lst| - j
  {
    if j < |lst| {
      var i := lst[j];
      assert i in lst;
      if removals[i] == 0 {
        IterateRemovingKeepsVisited(lst, j + 1, removals);
      } else if removals[i] == 1 {
        var shorter := RemoveFirst(lst, i);
        DistinctNotBefore(lst, j);
        RemoveFirstAt(lst, j);
        DistinctRemoveFirst(lst, i);
        RemoveFirstMembers(lst, i);
        IterateRemovingKeepsVisited(shorter, j + 1, removals);
      }
    }
  }

  /** The skip: after the element at position `j` is removed once, the next
      one moves into position `j` and is never visited, so it survives even
      when it is due for removal. */
  lemma IterateRemovingSkips(lst: seq<nat>, j: nat, removals: seq<nat>)
    requires forall x :: x in lst ==> x < |removals|
    requires Distinct(lst) && j + 1 < |lst| && lst[j] < |removals| && removals[lst[j]] == 1
    ensures var r := IterateRemoving(lst, j, removals);
            r.Success? ==> lst[j + 1] in r.value
  {
    var shorter := RemoveFirst(lst, lst[j]);
    DistinctNotBefore(lst, j);
    RemoveFirstAt(lst, j);
    DistinctRemoveFirst(lst, lst[j]);
    RemoveFirstMembers(lst, lst[j]);
    assert shorter[j] == lst[j + 1];
    assert IterateRemoving(lst, j, removals) == IterateRemoving(shorter, j + 1, removals);
    IterateRemovingKeepsVisited(shorter, j + 1, removals);
  }

  /** How many times the prior stage removes each index. */
  function PriorRemovals(oracle: AgentOracle, stmts: seq<Statement>, filters: seq<string>,
                         prior: set<Agent>): seq<nat>
  {
    seq(|stmts|, i requires 0 <= i < |stmts| =>
      (if PriorAll in filters && !AllRelatedToPrior(oracle, stmts[i], prior) then 1 else 0) +
      (if PriorOne in filters && !OneRelatedToPrior(oracle, stmts[i], prior) then 1 else 0))
  }

  /** How many times the model stage removes each index. */
  function ModelRemovals(oracle: AgentOracle, stmts: seq<Statement>, filters: seq<string>,
                         model: set<Agent>): seq<nat>
  {
    seq(|stmts|, i requires 0 <= i < |stmts| =>
      (if ModelAll in filters && !AllInModel(oracle, stmts[i], model) then 1 else 0) +
      (if ModelOne in filters && !OneInModel(oracle, stmts[i], model) then 1 else 0))
  }

  /** Whether index `i` names a grounded statement. */
  function IndexGrounded(stmts: seq<Statement>): nat -> bool
  {
    (i: nat) => i < |stmts| && Grounded(stmts[i])
  }

  /** The grounding stage: it iterates over the statements themselves, so each
      ungrounded statement's index is removed once and nothing is skipped. */
  function GroundingStage(stmts: seq<Statement>, filters: seq<string>): (r: seq<nat>)
    ensures IsSubsequence(r, Range(|stmts|))
    ensures forall x :: x in r ==> x < |stmts|
    ensures forall k :: 0 <= k < |r| ==> r[k] < |stmts|
    ensures forall i :: 0 <= i < |stmts| && (Grounding in filters ==> Grounded(stmts[i])) ==> i in r
  {
    var n := |stmts|;
    if Grounding in filters then
      var r := Filter<nat>(IndexGrounded(stmts), Range(n));
      assert forall x :: x in r ==> x < n by {
        forall x | x in r ensures x < n {
          FilterMembership<nat>(IndexGrounded(stmts), Range(n), x);
        }
      }
      assert forall k :: 0 <= k < |r| ==> r[k] < n by {
        forall k | 0 <= k < |r| ensures r[k] < n {
          assert r[k] in r;
        }
      }
      assert forall i :: 0 <= i < n && Grounded(stmts[i]) ==> i in r by {
        forall i | 0 <= i < n && Grounded(stmts[i]) ensures i in r {
          assert Range(n)[i] == i;
          FilterMembership<nat>(IndexGrounded(stmts), Range(n), i);
        }
      }
      r
    else
      SubsequenceReflexive(Range(n));
      assert forall i :: 0 <= i < n ==> i in Range(n) by {
        forall i | 0 <= i < n ensures i in Range(n) {
          assert Range(n)[i] == i;
        }
      }
      Range(n)
  }

  /** The prior stage: it runs only when a prior filter is named and there are
      prior agents, and every listed index of a relevant statement survives. */
  function PriorStage(oracle: AgentOracle, st: Store, stmts: seq<Statement>, filters: seq<string>,
                      lst: seq<nat>): (r: Result<seq<nat>, Error>)
    requires forall x :: x in lst ==> x < |stmts|
    ensures r.Success? ==> IsSubsequence(r.value, lst)
    ensures r.Success? ==> forall x :: x in r.value ==> x in lst
    ensures r.Success? ==> forall x :: x in lst && RelevantIn(oracle, st, filters, stmts[x]) ==> x in r.value
    ensures !(PriorAll in filters && PriorOne in filters) ==> r.Success?
  {
    var prior := GetPriorAgents(oracle, st);
    if (PriorAll in filters || PriorOne in filters) && prior != {} then
      var removals := PriorRemovals(oracle, stmts, filters, prior);
      assert forall x :: x in lst && RelevantIn(oracle, st, filters, stmts[x]) ==> removals[x] == 0;
      IterateRemoving(lst, 0, removals)
    else
      SubsequenceReflexive(lst);
      Success(lst)
  }

  /** The model stage, the same for the model filters and the model agents. */
  function ModelStage(oracle: AgentOracle, st: Store, stmts: seq<Statement>, filters: seq<string>,
                      lst: seq<nat>): (r: Result<seq<nat>, Error>)
    requires forall x :: x in lst ==> x < |stmts|
    ensures r.Success? ==> IsSubsequence(r.value, lst)
    ensures r.Success? ==> forall x :: x in r.value ==> x in lst
    ensures r.Success? ==> forall x :: x in lst && RelevantIn(oracle, st, filters, stmts[x]) ==> x in r.value
    ensures !(ModelAll in filters && ModelOne in filters) ==> r.Success?
  {
    var model := GetModelAgents(oracle, st);
    if (ModelAll in filters || ModelOne in filters) && model != {} then
      var removals := ModelRemovals(oracle, stmts, filters, model);
      assert forall x :: x in lst && RelevantIn(oracle, st, filters, stmts[x]) ==> removals[x] == 0;
      IterateRemoving(lst, 0, removals)
    else
      SubsequenceReflexive(lst);
      Success(lst)
  }

  /** `[stmts[i] for i in indices]`. */
  function AtIndices<T>(stmts: seq<T>, indices: seq<nat>): (r: seq<T>)
    requires forall k :: 0 <= k < |indices| ==> indices[k] < |stmts|
    ensures |r| == |indices|
    ensures forall k :: 0 <= k < |indices| ==> r[k] == stmts[indices[k]]
    ensures forall s :: s in r ==> s in stmts
  {
    if |indices| == 0 then []
    else [stmts[indices[0]]] + AtIndices(stmts, indices[1..])
  }

  /** Selecting by a subsequence of an index list selects a subsequence. */
  lemma {:induction false} AtIndicesSubsequence<T>(s: seq<T>, a: seq<nat>, b: seq<nat>)
    requires forall k :: 0 <= k < |a| ==> a[k] < |s|
    requires forall k :: 0 <= k < |b| ==> b[k] < |s|
    requires IsSubsequence(a, b)
    ensures IsSubsequence(AtIndices(s, a), AtIndices(s, b))
    decreases |b|
  {
    if |a| > 0 {
      var sa, sb := AtIndices(s, a), AtIndices(s, b);
      assert sb[1..] == AtIndices(s, b[1..]);
      if a[0] == b[0] && IsSubsequence(a[1..], b[1..]) {
        AtIndicesSubsequence(s, a[1..], b[1..]);
        assert sa[1..] == AtIndices(s, a[1..]);
      } else {
        AtIndicesSubsequence(s, a, b[1..]);
      }
    }
  }

  /** Selecting every index in order gives the list back. */
  lemma AtIndicesRange<T>(s: seq<T>)
    ensures AtIndices(s, Range(|s|)) == s
  {
  }

  /** The index list the source builds: the grounding stage, then the prior
      stage and the model stage, each iterating over the list it shrinks.
      It keeps the indices in order and keeps every relevant statement's. */
  function AsWrittenIndices(oracle: AgentOracle, st: Store, stmts: seq<Statement>,
                            filters: seq<string>): (r: Result<seq<nat>, Error>)
    ensures r.Success? ==> IsSubsequence(r.value, Range(|stmts|))
    ensures r.Success? ==> forall k :: 0 <= k < |r.value| ==> r.value[k] < |stmts|
    ensures r.Success? ==> forall i :: 0 <= i < |stmts| && RelevantIn(oracle, st, filters, stmts[i]) ==> i in r.value
  {
    var grounded := GroundingStage(stmts, filters);
    match PriorStage(oracle, st, stmts, filters, grounded)
    case Failure(e) => Failure(e)
    case Success(kept) =>
      assert forall x :: x in kept ==> x < |stmts|;
      match ModelStage(oracle, st, stmts, filters, kept)
      case Failure(e) => Failure(e)
      case Success(indices) =>
        assert forall k :: 0 <= k < |indices| ==> indices[k] < |stmts| by {
          forall k | 0 <= k < |indices| ensures indices[k] < |stmts| {
            assert indices[k] in indices;
          }
        }
        SubsequenceTransitive(indices, kept, grounded);
        SubsequenceTransitive(indices, grounded, Range(|stmts|));
        Success(indices)
  }

  /** The source's filter: `[stmts[i] for i in stmts_to_add]` over the index
      list it builds. Whatever it returns is a subsequence of the input
      statements. */
  function RelevanceFilterAsWritten(oracle: AgentOracle, st: Store, stmts: seq<Statement>,
                                    filters: seq<string>): (r: Result<seq<Statement>, Error>)
    ensures r.Success? ==> IsSubsequence(r.value, stmts)
  {
    match AsWrittenIndices(oracle, st, stmts, filters)
    case Failure(e) => Failure(e)
    case Success(indices) =>
      AtIndicesSubsequence(stmts, indices, Range(|stmts|));
      AtIndicesRange(stmts);
      Success(AtIndices(stmts, indices))
  }

  /** `add_statements` as the source writes it: it stores the list unchanged
      without filters and an empty list for no statements; otherwise it stores
      what the coded filter returns, and stores nothing when that raises. */
  function AddStatementsAsWritten(oracle: AgentOracle, st: Store, pmid: string, stmts: seq<Statement>,
                                  filters: seq<string>): (r: Result<Store, Error>)
    ensures r.Failure? ==> |filters| > 0 && |stmts| > 0
    ensures r.Success? ==> Keys(r.value) == Keys(st) + {pmid}
    ensures r.Success? && Valid(st) ==> Valid(r.value)
    ensures r.Success? ==> forall k {:trigger Lookup(r.value, k)} :: k != pmid ==> Lookup(r.value, k) == Lookup(st, k)
    ensures r.Success? ==> Lookup(r.value, pmid).Some? && IsSubsequence(Lookup(r.value, pmid).value, stmts)
    ensures r.Success? && |filters| == 0 ==> Lookup(r.value, pmid) == Some(stmts)
    ensures r.Success? && |filters| > 0 ==>
              IsSubsequence(RelevanceFilter(oracle, st, stmts, filters), Lookup(r.value, pmid).value)
  {
    if |filters| == 0 then
      SubsequenceReflexive(stmts);
      PutValid(st, pmid, stmts);
      Success(Put(st, pmid, stmts))
    else if |stmts| == 0 then
      PutValid(st, pmid, []);
      Success(Put(st, pmid, []))
    else
      match RelevanceFilterAsWritten(oracle, st, stmts, filters)
      case Failure(e) => Failure(e)
      case Success(kept) =>
        AsWrittenKeepsRelevant(oracle, st, stmts, filters);
        PutValid(st, pmid, kept);
        Success(Put(st, pmid, kept))
  }

  /** Without filters, without statements, or with the grounding filter alone
      the source stores what the documented filter keeps. */
  lemma AddStatementsAsDocumented(oracle: AgentOracle, st: Store, pmid: string, stmts: seq<Statement>,
                                  filters: seq<string>)
    requires |filters| == 0 || |stmts| == 0 || filters == [Grounding]
    ensures AddStatementsAsWritten(oracle, st, pmid, stmts, filters) ==
            Success(AddStatements(oracle, st, pmid, stmts, filters))
  {
    if |filters| > 0 && |stmts| > 0 {
      GroundingOnlyAsDocumented(oracle, st, stmts);
    }
  }

  // ---------------------------------------------------------------------------
  // Where the source agrees with its documentation

  /** Filtering an index list keeps its bound. */
  lemma FilterBelow(q: nat -> bool, idx: seq<nat>, n: nat)
    requires forall j :: 0 <= j < |idx| ==> idx[j] < n
    ensures forall j :: 0 <= j < |Filter<nat>(q, idx)| ==> Filter<nat>(q, idx)[j] < n
  {
  }

  /** Selecting the indices an index predicate keeps is filtering the list by
      the matching statement predicate: `idx` counts up from `k`. */
  lemma {:induction false} AtIndicesFilter<T(!new)>(s: seq<T>, p: T -> bool, q: nat -> bool,
                                                      idx: seq<nat>, k: nat)
    requires k + |idx| == |s|
    requires forall j :: 0 <= j < |idx| ==> idx[j] == k + j
    requires forall j :: 0 <= j < |idx| ==> q(idx[j]) == p(s[k + j])
    ensures forall j :: 0 <= j < |Filter<nat>(q, idx)| ==> Filter<nat>(q, idx)[j] < |s|
    ensures AtIndices(s, Filter<nat>(q, idx)) == Filter(p, s[k..])
    decreases |idx|
  {
    FilterBelow(q, idx, |s|);
    if |idx| > 0 {
      var rest := idx[1..];
      FilterBelow(q, rest, |s|);
      AtIndicesFilter(s, p, q, rest, k + 1);
      assert idx[0] == k;
      assert s[k..] == [s[k]] + s[k + 1..];
      var f := Filter<nat>(q, idx);
      if q(k) {
        assert f == [k] + Filter<nat>(q, rest);
        assert f[1..] == Filter<nat>(q, rest);
      } else {
        assert f == Filter<nat>(q, rest);
      }
    }
  }

  /** A call with a single filter name, as in the chain `preassemble` runs,
      never raises. */
  lemma SingleFilterNeverRaises(oracle: AgentOracle, st: Store, stmts: seq<Statement>, f: string)
    ensures RelevanceFilterAsWritten(oracle, st, stmts, [f]).Success?
  {
    var filters := [f];
    assert !(PriorAll in filters && PriorOne in filters);
    assert !(ModelAll in filters && ModelOne in filters);
    var grounded := GroundingStage(stmts, filters);
    var kept := PriorStage(oracle, st, stmts, filters, grounded).value;
    assert ModelStage(oracle, st, stmts, filters, kept).Success?;
    assert AsWrittenIndices(oracle, st, stmts, filters).Success?;
  }

  /** The grounding stage selects the statements the documented grounding
      filter keeps. */
  lemma GroundingStageAsDocumented(oracle: AgentOracle, st: Store, stmts: seq<Statement>)
    ensures AtIndices(stmts, GroundingStage(stmts, [Grounding])) == RelevanceFilter(oracle, st, stmts, [Grounding])
  {
    var n := |stmts|;
    var p := s => RelevantIn(oracle, st, [Grounding], s);
    assert forall j :: 0 <= j < n ==> IndexGrounded(stmts)(Range(n)[j]) == p(stmts[0 + j]);
    AtIndicesFilter(stmts, p, IndexGrounded(stmts), Range(n), 0);
    assert stmts[0..] == stmts;
  }

  /** With the grounding filter alone the source does what it documents. */
  lemma GroundingOnlyAsDocumented(oracle: AgentOracle, st: Store, stmts: seq<Statement>)
    ensures RelevanceFilterAsWritten(oracle, st, stmts, [Grounding]) ==
            Success(RelevanceFilter(oracle, st, stmts, [Grounding]))
  {
    var filters := [Grounding];
    assert PriorAll !in filters && PriorOne !in filters && ModelAll !in filters && ModelOne !in filters;
    var grounded := GroundingStage(stmts, filters);
    assert PriorStage(oracle, st, stmts, filters, grounded) == Success(grounded);
    assert ModelStage(oracle, st, stmts, filters, grounded) == Success(grounded);
    assert AsWrittenIndices(oracle, st, stmts, filters) == Success(grounded);
    GroundingStageAsDocumented(oracle, st, stmts);
  }

  /** Whether index `i` names a statement the documented filter keeps. */
  function IndexRelevant(oracle: AgentOracle, st: Store, stmts: seq<Statement>, filters: seq<string>): nat -> bool
  {
    (i: nat) => i < |stmts| && RelevantIn(oracle, st, filters, stmts[i])
  }

  /** Selecting the indices of relevant statements is the documented filter. */
  lemma IndexFilterAsDocumented(oracle: AgentOracle, st: Store, stmts: seq<Statement>, filters: seq<string>)
    ensures forall k :: 0 <= k < |Filter<nat>(IndexRelevant(oracle, st, stmts, filters), Range(|stmts|))| ==>
              Filter<nat>(IndexRelevant(oracle, st, stmts, filters), Range(|stmts|))[k] < |stmts|
    ensures AtIndices(stmts, Filter<nat>(IndexRelevant(oracle, st, stmts, filters), Range(|stmts|))) ==
            RelevanceFilter(oracle, st, stmts, filters)
  {
    var n := |stmts|;
    var q := IndexRelevant(oracle, st, stmts, filters);
    var p := s => RelevantIn(oracle, st, filters, s);
    assert forall j :: 0 <= j < n ==> q(Range(n)[j]) == p(stmts[0 + j]);
    AtIndicesFilter(stmts, p, q, Range(n), 0);
    assert stmts[0..] == stmts;
  }

  /** Whenever the source succeeds, it keeps every statement the documented
      filter keeps, in the same order: the documented result is a
      subsequence of the source's. */
  lemma AsWrittenKeepsRelevant(oracle: AgentOracle, st: Store, stmts: seq<Statement>, filters: seq<string>)
    ensures var r := RelevanceFilterAsWritten(oracle, st, stmts, filters);
            r.Success? ==> IsSubsequence(RelevanceFilter(oracle, st, stmts, filters), r.value)
  {
    var ri := AsWrittenIndices(oracle, st, stmts, filters);
    if ri.Success? {
      var indices, n := ri.value, |stmts|;
      var q := IndexRelevant(oracle, st, stmts, filters);
      assert forall x :: x in Range(n) && q(x) ==> x in indices;
      IncreasingDistinct(Range(n));
      FilterSubsequenceOf(q, Range(n), indices);
      IndexFilterAsDocumented(oracle, st, stmts, filters);
      AtIndicesSubsequence(stmts, Filter<nat>(q, Range(n)), indices);
    }
  }

  // ---------------------------------------------------------------------------
  // Inputs on which the source departs from its documentation

  /** An oracle under which no agent equals a model agent. */
  const NeverEqual: AgentOracle :=
    AgentOracle((a, b) => false, (a, b) => false, (a, b) => false, a => ("HGNC", "1"))

  /** A store with one paper whose only statement has one agent. */
  const OnePaperStore: Store :=
    [Entry("1", [Statement("Activation", [Some(Agent("MAP2K1", map["HGNC" := "6840"], []))])])]

  lemma OnePaperStoreHasModelAgents()
    ensures GetModelAgents(NeverEqual, OnePaperStore) != {}
  {
    var st := OnePaperStore;
    var s := st[0].stmts[0];
    assert GetStatementsNoprior(st) == st[0].stmts;
    assert s.agents[0] in s.agents;
    assert StatelessAgent(NeverEqual, s.agents[0].value) in GetModelAgents(NeverEqual, st);
  }

  lemma OnePaperStoreHasNoPriorAgents()
    ensures GetPriorAgents(NeverEqual, OnePaperStore) == {}
  {
    assert Lookup(OnePaperStore, PriorKey) == None;
  }

  /** Two statements that both fail `model_one`: the documented filter drops
      both, the source drops the first and skips over the second. */
  lemma ModelOneSkipsAfterRemoval()
    ensures var s1 := Statement("Phosphorylation", [Some(Agent("BRAF", map[], []))]);
            var s2 := Statement("Activation", [Some(Agent("BRAF", map[], []))]);
            && RelevanceFilter(NeverEqual, OnePaperStore, [s1, s2], [ModelOne]) == []
            && RelevanceFilterAsWritten(NeverEqual, OnePaperStore, [s1, s2], [ModelOne]) == Success([s2])
  {
    var s1 := Statement("Phosphorylation", [Some(Agent("BRAF", map[], []))]);
    var s2 := Statement("Activation", [Some(Agent("BRAF", map[], []))]);
    ModelOneDocumented(s1, s2);
    ModelOneAsWritten(s1, s2);
  }

  lemma ModelOneDocumented(s1: Statement, s2: Statement)
    requires s1 == Statement("Phosphorylation", [Some(Agent("BRAF", map[], []))])
    requires s2 == Statement("Activation", [Some(Agent("BRAF", map[], []))])
    ensures RelevanceFilter(NeverEqual, OnePaperStore, [s1, s2], [ModelOne]) == []
  {
    var oracle, st := NeverEqual, OnePaperStore;
    var stmts, filters := [s1, s2], [ModelOne];
    OnePaperStoreHasModelAgents();
    var model := GetModelAgents(oracle, st);
    assert s1.agents[0] in s1.agents && s2.agents[0] in s2.agents;
    assert !RelevantIn(oracle, st, filters, s1) && !RelevantIn(oracle, st, filters, s2);
    var r := RelevanceFilter(oracle, st, stmts, filters);
    FilterMembership(s => RelevantIn(oracle, st, filters, s), stmts, s1);
    FilterMembership(s => RelevantIn(oracle, st, filters, s), stmts, s2);
  }

  lemma ModelOneAsWritten(s1: Statement, s2: Statement)
    requires s1 == Statement("Phosphorylation", [Some(Agent("BRAF", map[], []))])
    requires s2 == Statement("Activation", [Some(Agent("BRAF", map[], []))])
    ensures RelevanceFilterAsWritten(NeverEqual, OnePaperStore, [s1, s2], [ModelOne]) == Success([s2])
  {
    ModelOneEarlyStages(s1, s2);
    ModelOneModelStage(s1, s2);
    assert AtIndices([s1, s2], [1]) == [s2];
  }

  /** Without the grounding and prior filters the first two stages keep every index. */
  lemma ModelOneEarlyStages(s1: Statement, s2: Statement)
    ensures GroundingStage([s1, s2], [ModelOne]) == [0, 1]
    ensures PriorStage(NeverEqual, OnePaperStore, [s1, s2], [ModelOne], [0, 1]) == Success([0, 1])
  {
  }

  /** The model stage removes index 0 and then skips index 1. */
  lemma ModelOneModelStage(s1: Statement, s2: Statement)
    requires s1 == Statement("Phosphorylation", [Some(Agent("BRAF", map[], []))])
    requires s2 == Statement("Activation", [Some(Agent("BRAF", map[], []))])
    ensures ModelStage(NeverEqual, OnePaperStore, [s1, s2], [ModelOne], [0, 1]) == Success([1])
  {
    var oracle, st := NeverEqual, OnePaperStore;
    OnePaperStoreHasModelAgents();
    var model := GetModelAgents(oracle, st);
    assert s1.agents[0] in s1.agents && s2.agents[0] in s2.agents;
    var removals := ModelRemovals(oracle, [s1, s2], [ModelOne], model);
    assert removals == [1, 1];
    assert RemoveFirst([0, 1], 0) == [1];
    assert IterateRemoving([1], 1, removals) == Success([1]);
    assert IterateRemoving([0, 1], 0, removals) == Success([1]);
  }

  /** A statement failing both `model_all` and `model_one`: the documented
      filter drops it, the source removes its index twice and raises. */
  lemma ModelAllAndOneRaise()
    ensures var s1 := Statement("Phosphorylation", [Some(Agent("BRAF", map[], []))]);
            && RelevanceFilter(NeverEqual, OnePaperStore, [s1], [ModelAll, ModelOne]) == []
            && RelevanceFilterAsWritten(NeverEqual, OnePaperStore, [s1], [ModelAll, ModelOne]) == Failure(ValueError)
  {
    var s1 := Statement("Phosphorylation", [Some(Agent("BRAF", map[], []))]);
    ModelAllAndOneDocumented(s1);
    ModelAllAndOneAsWritten(s1);
  }

  lemma ModelAllAndOneDocumented(s1: Statement)
    requires s1 == Statement("Phosphorylation", [Some(Agent("BRAF", map[], []))])
    ensures RelevanceFilter(NeverEqual, OnePaperStore, [s1], [ModelAll, ModelOne]) == []
  {
    var oracle, st := NeverEqual, OnePaperStore;
    OnePaperStoreHasModelAgents();
    var model := GetModelAgents(oracle, st);
    assert s1.agents[0] in s1.agents;
    assert !AllInModel(oracle, s1, model);
    assert !RelevantIn(oracle, st, [ModelAll, ModelOne], s1);
    FilterMembership(s => RelevantIn(oracle, st, [ModelAll, ModelOne], s), [s1], s1);
  }

  lemma ModelAllAndOneAsWritten(s1: Statement)
    requires s1 == Statement("Phosphorylation", [Some(Agent("BRAF", map[], []))])
    ensures RelevanceFilterAsWritten(NeverEqual, OnePaperStore, [s1], [ModelAll, ModelOne]) == Failure(ValueError)
  {
    var oracle, st := NeverEqual, OnePaperStore;
    var stmts, filters := [s1], [ModelAll, ModelOne];
    OnePaperStoreHasModelAgents();
    OnePaperStoreHasNoPriorAgents();
    var model := GetModelAgents(oracle, st);
    assert s1.agents[0] in s1.agents;
    assert !AllInModel(oracle, s1, model) && !OneInModel(oracle, s1, model);
    assert Grounding !in filters && PriorAll !in filters && PriorOne !in filters;
    assert Range(1) == [0];
    assert GroundingStage(stmts, filters) == [0];
    assert PriorStage(oracle, st, stmts, filters, [0]) == Success([0]);
    var removals := ModelRemovals(oracle, stmts, filters, model);
    assert removals == [2];
    assert ModelStage(oracle, st, stmts, filters, [0]) == Failure(ValueError);
  }

  /** A store whose only entry is a prior with one statement of one agent. */
  /** A store holding only a prior with one grounded agent. */
  const OnePriorStore: Store :=
    [Entry(PriorKey, [Statement("Activation", [Some(Agent("MAP2K1", map["HGNC" := "6840"], []))])])]

  /** That store has a prior agent. */
  lemma OnePriorStoreHasPriorAgents()
    ensures GetPriorAgents(NeverEqual, OnePriorStore) != {}
  {
    var st := OnePriorStore;
    var s := st[0].stmts[0];
    assert GetStatementsPrior(st) == st[0].stmts;
    assert s.agents[0] in s.agents;
    assert StatelessAgent(NeverEqual, s.agents[0].value) in GetPriorAgents(NeverEqual, st);
  }

  /** A statement without agents, such as an empty complex, passes `model_all`
      but fails `model_one`, so `model_one` is not the least restrictive. */
  lemma AgentlessModelFilters()
    ensures var s := Statement("Complex", []);
            && RelevanceFilter(NeverEqual, OnePaperStore, [s], [ModelAll]) == [s]
            && RelevanceFilter(NeverEqual, OnePaperStore, [s], [ModelOne]) == []
  {
    var s := Statement("Complex", []);
    OnePaperStoreHasModelAgents();
    AgentlessPasses(NeverEqual, OnePaperStore, s, [ModelAll]);
    AgentlessFails(NeverEqual, OnePaperStore, s, [ModelOne]);
  }

  /** The same for `prior_all` and `prior_one`. */
  lemma AgentlessPriorFilters()
    ensures var s := Statement("Complex", []);
            && RelevanceFilter(NeverEqual, OnePriorStore, [s], [PriorAll]) == [s]
            && RelevanceFilter(NeverEqual, OnePriorStore, [s], [PriorOne]) == []
  {
    var s := Statement("Complex", []);
    OnePriorStoreHasPriorAgents();
    AgentlessPasses(NeverEqual, OnePriorStore, s, [PriorAll]);
    AgentlessFails(NeverEqual, OnePriorStore, s, [PriorOne]);
  }

  /** A statement without agents passes an "all" filter: no agent fails it. */
  lemma AgentlessPasses(oracle: AgentOracle, st: Store, s: Statement, filters: seq<string>)
    requires s.agents == []
    requires filters == [ModelAll] || filters == [PriorAll]
    ensures RelevanceFilter(oracle, st, [s], filters) == [s]
  {
    assert RelevantIn(oracle, st, filters, s);
    FilterAll(s => RelevantIn(oracle, st, filters, s), [s]);
  }

  /** A statement without agents fails a "one" filter once there is an agent
      to relate it to. */
  lemma AgentlessFails(oracle: AgentOracle, st: Store, s: Statement, filters: seq<string>)
    requires s.agents == []
    requires (filters == [ModelOne] && GetModelAgents(oracle, st) != {}) ||
             (filters == [PriorOne] && GetPriorAgents(oracle, st) != {})
    ensures RelevanceFilter(oracle, st, [s], filters) == []
  {
    assert !RelevantIn(oracle, st, filters, s);
    FilterMembership(s => RelevantIn(oracle, st, filters, s), [s], s);
  }

  /** On the skip input, `add_statements` stores the second statement, where
      the documented filter stores nothing. */
  lemma AddStatementsSkips()
    ensures var s1 := Statement("Phosphorylation", [Some(Agent("BRAF", map[], []))]);
            var s2 := Statement("Activation", [Some(Agent("BRAF", map[], []))]);
            && Lookup(AddStatements(NeverEqual, OnePaperStore, "2", [s1, s2], [ModelOne]), "2") == Some([])
            && AddStatementsAsWritten(NeverEqual, OnePaperStore, "2", [s1, s2], [ModelOne]) ==
               Success(Put(OnePaperStore, "2", [s2]))
  {
    var s1 := Statement("Phosphorylation", [Some(Agent("BRAF", map[], []))]);
    var s2 := Statement("Activation", [Some(Agent("BRAF", map[], []))]);
    ModelOneDocumented(s1, s2);
    ModelOneAsWritten(s1, s2);
  }

  /** On the double-removal input, `add_statements` raises and stores nothing,
      where the documented filter stores an empty list. */
  lemma AddStatementsRaises()
    ensures var s1 := Statement("Phosphorylation", [Some(Agent("BRAF", map[], []))]);
            && Lookup(AddStatements(NeverEqual, OnePaperStore, "2", [s1], [ModelAll, ModelOne]), "2") == Some([])
            && AddStatementsAsWritten(NeverEqual, OnePaperStore, "2", [s1], [ModelAll, ModelOne]) == Failure(ValueError)
  {
    var s1 := Statement("Phosphorylation", [Some(Agent("BRAF", map[], []))]);
    ModelAllAndOneDocumented(s1);
    ModelAllAndOneAsWritten(s1);
  }
}
