/** Database-free preassembly: raw statements are grouped by a content hash
    into unique statements, each raw statement yields one evidence link
    (hash, uuid), and support links (hash, hash) join unique statements one of
    which refines the other. Supplementing an existing corpus processes the new
    raw statements alone and adds only the support links that cross the existing and
    the new unique statements.

    The hash (`fp`) and the refinement relation (`refinement`) are parameters: the
    hash is any injective function of a statement's content and the refinement
    relation is any pure predicate on two contents. */
module Preassembly {
  import opened Lists

  /** A raw statement as read from a reader or a database: an instance
      identifier and the logical content the hash is taken over. */
  datatype RawStatement<U(==), C(==)> = RawStatement(uuid: U, content: C)

  /** The three results of processing: unique statements keyed by hash, the
      evidence links (hash, uuid) and the support links (hash, hash). */
  datatype Processed<U(==), C(==), H(==)> = Processed(unique: map<H, C>, evidence: set<(H, U)>, support: set<(H, H)>)

  /** The hash never maps two different contents to one value. */
  ghost predicate Injective<C(!new), H(!new)>(fp: C -> H)
  {
    forall a, b :: fp(a) == fp(b) ==> a == b
  }

  /** Every value of `m` is stored under its own hash. */
  ghost predicate KeyedByHash<C(!new), H(!new)>(fp: C -> H, m: map<H, C>)
  {
    forall h :: h in m ==> fp(m[h]) == h
  }

  /** Two maps agree on every key they share. */
  ghost predicate Compatible<C(!new), H(!new)>(m1: map<H, C>, m2: map<H, C>)
  {
    forall h :: h in m1 && h in m2 ==> m1[h] == m2[h]
  }

  /** The hashes of the contents of the raw statements in the input list. */
  function HashesOf<U(==,!new), C(==,!new), H(==,!new)>(fp: C -> H, stmts: seq<RawStatement<U, C>>): set<H>
  {
    set s | s in stmts :: fp(s.content)
  }

  /** One unique statement per distinct hash, holding the content of its
      group; built as a dictionary keyed by hash, later entries overwriting
      earlier ones (which changes nothing, the hash being injective). */
  function UniqueStatements<U(==,!new), C(==,!new), H(==,!new)>(fp: C -> H, stmts: seq<RawStatement<U, C>>): map<H, C>
  {
    if |stmts| == 0 then map[]
    else
      var last := stmts[|stmts| - 1];
      UniqueStatements(fp, stmts[..|stmts| - 1])[fp(last.content) := last.content]
  }

  /** One (hash, uuid) link per raw statement. */
  function EvidenceLinks<U(==,!new), C(==,!new), H(==,!new)>(fp: C -> H, stmts: seq<RawStatement<U, C>>): set<(H, U)>
  {
    set s | s in stmts :: (fp(s.content), s.uuid)
  }

  /** `a` supports `b`: they differ, `a` refines `b`, and `b` does not refine
      `a` (a two-way refinement is ambiguous and yields no link). */
  predicate Supports<C(==,!new)>(refinement: (C, C) -> bool, a: C, b: C)
  {
    a != b && refinement(a, b) && !refinement(b, a)
  }

  /** The support links among the unique statements of `u`. */
  function SupportLinks<C(==,!new), H(==,!new)>(refinement: (C, C) -> bool, u: map<H, C>): set<(H, H)>
  {
    set a, b | a in u && b in u && Supports(refinement, u[a], u[b]) :: (a, b)
  }

  /** The statement-processing step of the preassembly manager. */
  function ProcessStatements<U(==,!new), C(==,!new), H(==,!new)>(fp: C -> H, refinement: (C, C) -> bool,
                                             stmts: seq<RawStatement<U, C>>): Processed<U, C, H>
  {
    var u := UniqueStatements(fp, stmts);
    Processed(u, EvidenceLinks(fp, stmts), SupportLinks(refinement, u))
  }

  /** The support links between an existing and a new set of unique statements that
      cross the two sets, in either direction. */
  function IncrementLinks<C(==,!new), H(==,!new)>(refinement: (C, C) -> bool, existing: map<H, C>, added: map<H, C>): set<(H, H)>
  {
    var m := existing + added;
    set a, b | a in m && b in m && ((a in existing && b in added) || (a in added && b in existing))
                && Supports(refinement, m[a], m[b]) :: (a, b)
  }

  /** The 80/20 split of the incremental test: the statements at the sampled
      positions, and the remaining statements. */
  function SplitCorpus<T(==,!new)>(stmts: seq<T>, picked: set<nat>): (seq<T>, seq<T>)
  {
    var init := Pick(stmts, picked);
    (init, Filter(x => x !in init, stmts))
  }

  /** The elements of `s` at the positions in `picked`, in list order. */
  function Pick<T(==,!new)>(s: seq<T>, picked: set<nat>): seq<T>
  {
    if |s| == 0 then []
    else Pick(s[..|s| - 1], picked) + (if |s| - 1 in picked then [s[|s| - 1]] else [])
  }

  function PositionsBelow(picked: set<nat>, n: nat): set<nat>
  {
    set i | i in picked && i < n
  }

  // ---------------------------------------------------------------------------
  // Properties of one run of the processing step

  lemma SupportLinksMember<C(!new), H(!new)>(refinement: (C, C) -> bool, u: map<H, C>, x: H, y: H)
    ensures (x, y) in SupportLinks(refinement, u) <==> x in u && y in u && Supports(refinement, u[x], u[y])
  {
  }

  /** Each unique statement sits under its own hash, its key set is the set of
      hashes of the input, and every raw statement's content is the unique
      statement stored under its hash. */
  lemma {:induction false} UniqueStatementsGroupByHash<U(!new), C(!new), H(!new)>(fp: C -> H, stmts: seq<RawStatement<U, C>>)
    requires Injective(fp)
    ensures UniqueStatements(fp, stmts).Keys == HashesOf(fp, stmts)
    ensures KeyedByHash(fp, UniqueStatements(fp, stmts))
    ensures forall s :: s in stmts ==> UniqueStatements(fp, stmts)[fp(s.content)] == s.content
  {
    if |stmts| > 0 {
      var prefix := stmts[..|stmts| - 1];
      var last := stmts[|stmts| - 1];
      UniqueStatementsGroupByHash(fp, prefix);
      assert stmts == prefix + [last];
      assert HashesOf(fp, stmts) == HashesOf(fp, prefix) + {fp(last.content)};
      var u := UniqueStatements(fp, stmts);
      forall s | s in stmts ensures u[fp(s.content)] == s.content {
        assert fp(u[fp(s.content)]) == fp(s.content);
      }
    }
  }

  /** Two maps keyed by an injective hash are equal when their keys are. */
  lemma KeyedByHashUnique<C(!new), H(!new)>(fp: C -> H, m1: map<H, C>, m2: map<H, C>)
    requires Injective(fp)
    requires KeyedByHash(fp, m1) && KeyedByHash(fp, m2)
    requires m1.Keys == m2.Keys
    ensures m1 == m2
  {
    forall h | h in m1 ensures m1[h] == m2[h] {
      assert fp(m1[h]) == h == fp(m2[h]);
    }
  }

  /** The hashes of the evidence links are exactly the keys of the unique
      statements: no orphaned link and no unique statement without evidence. */
  lemma {:induction false} EvidenceKeysMatchUnique<U(!new), C(!new), H(!new)>(fp: C -> H, refinement: (C, C) -> bool,
                                                                  stmts: seq<RawStatement<U, C>>)
    requires Injective(fp)
    ensures var p := ProcessStatements(fp, refinement, stmts);
            (set l | l in p.evidence :: l.0) == p.unique.Keys
  {
    var p := ProcessStatements(fp, refinement, stmts);
    UniqueStatementsGroupByHash(fp, stmts);
    forall h | h in p.unique.Keys ensures h in (set l | l in p.evidence :: l.0) {
      var s :| s in stmts && fp(s.content) == h;
      assert (h, s.uuid) in p.evidence;
    }
  }

  /** Fewer unique statements than evidence links, fewer evidence links than
      raw statements. */
  lemma {:induction false} ProcessSizeBounds<U(!new), C(!new), H(!new)>(fp: C -> H, refinement: (C, C) -> bool,
                                                            stmts: seq<RawStatement<U, C>>)
    requires Injective(fp)
    ensures var p := ProcessStatements(fp, refinement, stmts);
            |p.unique| <= |p.evidence| <= |stmts|
  {
    var p := ProcessStatements(fp, refinement, stmts);
    var link := (s: RawStatement<U, C>) => (fp(s.content), s.uuid);
    SeqImageCard(stmts, link);
    assert p.evidence == SeqImage(stmts, link);
    EvidenceKeysMatchUnique(fp, refinement, stmts);
    var key := (l: (H, U)) => l.0;
    ImageCard(p.evidence, key);
    assert p.unique.Keys == Image(p.evidence, key);
  }

  /** Every evidence link names an input statement's uuid, and every unique
      statement's hash occurs in some evidence link. */
  lemma EvidenceProvenance<U(!new), C(!new), H(!new)>(fp: C -> H, refinement: (C, C) -> bool, stmts: seq<RawStatement<U, C>>)
    requires Injective(fp)
    ensures var p := ProcessStatements(fp, refinement, stmts);
            && (forall l :: l in p.evidence ==> exists s :: s in stmts && s.uuid == l.1)
            && (forall h :: h in p.unique ==> exists u :: (h, u) in p.evidence)
  {
    var p := ProcessStatements(fp, refinement, stmts);
    UniqueStatementsGroupByHash(fp, stmts);
    forall h | h in p.unique ensures exists u :: (h, u) in p.evidence {
      var s :| s in stmts && fp(s.content) == h;
      assert (h, s.uuid) in p.evidence;
    }
  }

  /** Processing depends only on which raw statements are present, not on their
      order or repetition, so running it again on the same statements in any
      order gives the same result. */
  lemma {:induction false} ProcessOrderIndependent<U(!new), C(!new), H(!new)>(fp: C -> H, refinement: (C, C) -> bool,
                                                                  s1: seq<RawStatement<U, C>>,
                                                                  s2: seq<RawStatement<U, C>>)
    requires Injective(fp)
    requires Elems(s1) == Elems(s2)
    ensures ProcessStatements(fp, refinement, s1) == ProcessStatements(fp, refinement, s2)
  {
    assert forall x :: x in s1 <==> x in Elems(s1);
    assert forall x :: x in s2 <==> x in Elems(s2);
    assert HashesOf(fp, s1) == HashesOf(fp, s2);
    UniqueStatementsGroupByHash(fp, s1);
    UniqueStatementsGroupByHash(fp, s2);
    KeyedByHashUnique(fp, UniqueStatements(fp, s1), UniqueStatements(fp, s2));
    assert EvidenceLinks(fp, s1) == EvidenceLinks(fp, s2);
  }

  // ---------------------------------------------------------------------------
  // The 80/20 split

  /** The elements at the positions in `picked`. */
  function AtPositions<T(==,!new)>(s: seq<T>, picked: set<nat>): set<T>
  {
    set i | i in picked && i < |s| :: s[i]
  }

  lemma {:induction false} PickSpec<T(!new)>(s: seq<T>, picked: set<nat>)
    ensures Elems(Pick(s, picked)) == AtPositions(s, picked)
    ensures |Pick(s, picked)| == |PositionsBelow(picked, |s|)|
  {
    if |s| > 0 {
      var n := |s| - 1;
      var prefix := s[..n];
      PickSpec(prefix, picked);
      var before := PositionsBelow(picked, n);
      var upto := PositionsBelow(picked, |s|);
      var tail := if n in picked then [s[n]] else [];
      assert Pick(s, picked) == Pick(prefix, picked) + tail;
      assert Elems(Pick(s, picked)) == Elems(Pick(prefix, picked)) + Elems(tail);
      forall x | x in AtPositions(s, picked) ensures x in AtPositions(prefix, picked) + Elems(tail) {
        var i :| i in picked && i < |s| && s[i] == x;
        if i < n {
          assert prefix[i] == x;
        }
      }
      forall x | x in AtPositions(prefix, picked) ensures x in AtPositions(s, picked) {
        var i :| i in picked && i < n && prefix[i] == x;
        assert s[i] == x;
      }
      if n in picked {
        assert s[n] in AtPositions(s, picked);
        assert upto == before + {n};
        assert n !in before;
      } else {
        assert upto == before;
      }
    }
  }

  /** The sample and the remainder are disjoint, together they hold every input
      statement, and the sample has one statement per sampled position. */
  lemma SplitCorpusPartitions<T(!new)>(stmts: seq<T>, picked: set<nat>)
    requires forall i :: i in picked ==> i < |stmts|
    ensures var (init, added) := SplitCorpus(stmts, picked);
            && Elems(init) + Elems(added) == Elems(stmts)
            && Elems(init) !! Elems(added)
            && |init| == |picked|
  {
    var (init, added) := SplitCorpus(stmts, picked);
    PickSpec(stmts, picked);
    assert PositionsBelow(picked, |stmts|) == picked;
    forall x | x in added ensures x in stmts && x !in init {
      FilterMembership(x => x !in init, stmts, x);
    }
    forall x | x in stmts ensures x in init || x in added {
      FilterMembership(x => x !in init, stmts, x);
    }
  }

  // ---------------------------------------------------------------------------
  // Incremental processing

  /** Support links over the union of two compatible sets of unique statements
      are the links within each set plus the links that cross them. */
  lemma SupportLinksOfUnion<C(!new), H(!new)>(refinement: (C, C) -> bool, a: map<H, C>, b: map<H, C>)
    requires Compatible(a, b)
    ensures SupportLinks(refinement, a + b) ==
            SupportLinks(refinement, a) + SupportLinks(refinement, b) + IncrementLinks(refinement, a, b)
  {
  }

  /** Overlaying the unique statements of two parts gives the unique statements
      of the whole. */
  lemma {:induction false} UniqueStatementsOfCover<U(!new), C(!new), H(!new)>(fp: C -> H, init: seq<RawStatement<U, C>>,
                                               added: seq<RawStatement<U, C>>, full: seq<RawStatement<U, C>>)
    requires Injective(fp)
    requires Elems(init) + Elems(added) == Elems(full)
    ensures UniqueStatements(fp, init) + UniqueStatements(fp, added) == UniqueStatements(fp, full)
  {
    assert forall x :: x in full <==> x in init || x in added by {
      assert forall x :: x in full <==> x in Elems(full);
      assert forall x :: x in init <==> x in Elems(init);
      assert forall x :: x in added <==> x in Elems(added);
    }
    assert HashesOf(fp, full) == HashesOf(fp, init) + HashesOf(fp, added);
    var ui := UniqueStatements(fp, init);
    var un := UniqueStatements(fp, added);
    UniqueStatementsGroupByHash(fp, init);
    UniqueStatementsGroupByHash(fp, added);
    UniqueStatementsGroupByHash(fp, full);
    KeyedByHashUnique(fp, ui + un, UniqueStatements(fp, full));
  }

  /** Processing two parts separately and adding the crossing support links
      reproduces processing the whole exactly: the same unique statements
      (hence the same number of them), the same evidence links and the same
      support links, with nothing missed and nothing extra. */
  lemma IncrementalEquivalence<U(!new), C(!new), H(!new)>(fp: C -> H, refinement: (C, C) -> bool,
                                              init: seq<RawStatement<U, C>>,
                                              added: seq<RawStatement<U, C>>,
                                              full: seq<RawStatement<U, C>>)
    requires Injective(fp)
    requires Elems(init) + Elems(added) == Elems(full)
    ensures var pi := ProcessStatements(fp, refinement, init);
            var pn := ProcessStatements(fp, refinement, added);
            var pf := ProcessStatements(fp, refinement, full);
            && pi.unique + pn.unique == pf.unique
            && pi.evidence + pn.evidence == pf.evidence
            && forall l :: l in pf.support <==>
                 l in pi.support || l in pn.support || l in IncrementLinks(refinement, pi.unique, pn.unique)
  {
    var pi := ProcessStatements(fp, refinement, init);
    var pn := ProcessStatements(fp, refinement, added);
    UniqueStatementsOfCover(fp, init, added, full);
    assert forall x :: x in full <==> x in init || x in added by {
      assert forall x :: x in full <==> x in Elems(full);
      assert forall x :: x in init <==> x in Elems(init);
      assert forall x :: x in added <==> x in Elems(added);
    }
    assert pi.evidence + pn.evidence == EvidenceLinks(fp, full);
    UniqueStatementsGroupByHash(fp, init);
    UniqueStatementsGroupByHash(fp, added);
    assert Compatible(pi.unique, pn.unique) by {
      forall h | h in pi.unique && h in pn.unique ensures pi.unique[h] == pn.unique[h] {
        assert fp(pi.unique[h]) == h == fp(pn.unique[h]);
      }
    }
    SupportLinksOfUnion(refinement, pi.unique, pn.unique);
  }

  // The three checks of the incremental test, for the sampled split: each
  // part is processed on its own and the results are merged.

  /** Merging the unique statements of the two parts gives those of the
      whole input. */
  lemma SplitMergeUnique<U(!new), C(!new), H(!new)>(fp: C -> H, refinement: (C, C) -> bool,
                                        stmts: seq<RawStatement<U, C>>, picked: set<nat>)
    requires Injective(fp)
    requires forall i :: i in picked ==> i < |stmts|
    ensures var (init, added) := SplitCorpus(stmts, picked);
            ProcessStatements(fp, refinement, init).unique + ProcessStatements(fp, refinement, added).unique ==
            ProcessStatements(fp, refinement, stmts).unique
  {
    var (init, added) := SplitCorpus(stmts, picked);
    SplitCorpusPartitions(stmts, picked);
    IncrementalEquivalence(fp, refinement, init, added, stmts);
  }

  /** No evidence link is missed and none is extra after merging. */
  lemma SplitMergeEvidence<U(!new), C(!new), H(!new)>(fp: C -> H, refinement: (C, C) -> bool,
                                          stmts: seq<RawStatement<U, C>>, picked: set<nat>)
    requires Injective(fp)
    requires forall i :: i in picked ==> i < |stmts|
    ensures var (init, added) := SplitCorpus(stmts, picked);
            ProcessStatements(fp, refinement, init).evidence + ProcessStatements(fp, refinement, added).evidence ==
            ProcessStatements(fp, refinement, stmts).evidence
  {
    var (init, added) := SplitCorpus(stmts, picked);
    SplitCorpusPartitions(stmts, picked);
    IncrementalEquivalence(fp, refinement, init, added, stmts);
  }

  /** No support link is missed and none is extra after merging the links of
      each part with the increment links. */
  lemma SplitMergeSupport<U(!new), C(!new), H(!new)>(fp: C -> H, refinement: (C, C) -> bool,
                                         stmts: seq<RawStatement<U, C>>, picked: set<nat>)
    requires Injective(fp)
    requires forall i :: i in picked ==> i < |stmts|
    ensures var (init, added) := SplitCorpus(stmts, picked);
            var pi := ProcessStatements(fp, refinement, init);
            var pn := ProcessStatements(fp, refinement, added);
            forall l :: l in ProcessStatements(fp, refinement, stmts).support <==>
              l in pi.support || l in pn.support || l in IncrementLinks(refinement, pi.unique, pn.unique)
  {
    var (init, added) := SplitCorpus(stmts, picked);
    SplitCorpusPartitions(stmts, picked);
    IncrementalEquivalence(fp, refinement, init, added, stmts);
  }

  /** Supplementing an empty corpus is processing from scratch. */
  lemma SupplementEmptyCorpus<U(!new), C(!new), H(!new)>(fp: C -> H, refinement: (C, C) -> bool,
                                             stmts: seq<RawStatement<U, C>>)
    requires Injective(fp)
    ensures var pe := ProcessStatements(fp, refinement, []);
            var pn := ProcessStatements(fp, refinement, stmts);
            && pe.unique + pn.unique == pn.unique
            && pe.evidence + pn.evidence == pn.evidence
            && pe.support + pn.support + IncrementLinks(refinement, pe.unique, pn.unique) == pn.support
  {
    IncrementalEquivalence(fp, refinement, [], stmts, stmts);
  }
}
