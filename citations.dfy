/** How `generate_structured_paper` accumulates `references`: each chunk
    offered to a section is appended unless an equal one is already there
    (`if chunk not in self.references`). Two chunks are equal when all five
    fields are, as two Python dictionaries with the same keys are. */
module Citations {
  import opened KnowledgeBase

  predicate NoDuplicates(xs: seq<Chunk>)
  {
    forall i, j :: 0 <= i < j < |xs| ==> xs[i] != xs[j]
  }

  /** One step: append `c` unless it is already cited. */
  function AddCited(refs: seq<Chunk>, c: Chunk): seq<Chunk>
  {
    if c in refs then refs else refs + [c]
  }

  /** The loop over the chunks offered to one section, in order. */
  function AddAllCited(refs: seq<Chunk>, cs: seq<Chunk>): seq<Chunk>
  {
    if cs == [] then refs
    else AddCited(AddAllCited(refs, cs[..|cs| - 1]), cs[|cs| - 1])
  }

  /** Existing references stay, in place; a chunk ends up cited exactly when
      it was cited before or was offered; no repeats are introduced. */
  lemma {:induction false} AddAllCitedKeeps(refs: seq<Chunk>, cs: seq<Chunk>)
    ensures refs <= AddAllCited(refs, cs)
    ensures forall x :: x in AddAllCited(refs, cs) <==> x in refs || x in cs
    ensures NoDuplicates(refs) ==> NoDuplicates(AddAllCited(refs, cs))
  {
    if cs != [] {
      var init := cs[..|cs| - 1];
      AddAllCitedKeeps(refs, init);
      assert cs == init + [cs[|cs| - 1]];
    }
  }

  /** The loop's step: offering one more chunk. */
  lemma AddAllCitedStep(refs: seq<Chunk>, cs: seq<Chunk>, j: nat)
    requires j < |cs|
    ensures AddAllCited(refs, cs[..j + 1]) == AddCited(AddAllCited(refs, cs[..j]), cs[j])
  {
    assert cs[..j + 1][..j] == cs[..j];
  }

  /** Independent description of what gets appended: the offered chunks that
      were not cited before and do not occur earlier among the offered ones,
      in the order they are offered. */
  function FirstOccurrences(refs: seq<Chunk>, cs: seq<Chunk>): seq<Chunk>
  {
    if cs == [] then []
    else
      var init, last := cs[..|cs| - 1], cs[|cs| - 1];
      FirstOccurrences(refs, init) + (if last in refs || last in init then [] else [last])
  }

  /** Existing references are kept as they are, and the new ones are the
      first occurrences of uncited chunks, in first-cited order. */
  lemma {:induction false} AddAllCitedAppendsFirstOccurrences(refs: seq<Chunk>, cs: seq<Chunk>)
    ensures AddAllCited(refs, cs) == refs + FirstOccurrences(refs, cs)
  {
    if cs != [] {
      var init, last := cs[..|cs| - 1], cs[|cs| - 1];
      AddAllCitedAppendsFirstOccurrences(refs, init);
      AddAllCitedKeeps(refs, init);
      assert last in AddAllCited(refs, init) <==> last in refs || last in init;
    }
  }

  /** Offering chunks that are all cited already changes nothing. */
  lemma {:induction false} AddAllCitedKnown(refs: seq<Chunk>, cs: seq<Chunk>)
    requires forall k :: 0 <= k < |cs| ==> cs[k] in refs
    ensures AddAllCited(refs, cs) == refs
  {
    if cs != [] {
      AddAllCitedKnown(refs, cs[..|cs| - 1]);
    }
  }

  /** Offering the same chunks a second time changes nothing; this is why the
      seven sections, which are all offered the same chunks, leave the same
      references as one section would. */
  lemma AddAllCitedIdempotent(refs: seq<Chunk>, cs: seq<Chunk>)
    ensures AddAllCited(AddAllCited(refs, cs), cs) == AddAllCited(refs, cs)
  {
    AddAllCitedKeeps(refs, cs);
    AddAllCitedKnown(AddAllCited(refs, cs), cs);
  }

  /** Starting from no references, the result is the offered chunks with
      repeats dropped: no two equal entries, no more entries than offered, and
      exactly the offered chunks when they are already distinct. */
  lemma {:induction false} FreshReferences(cs: seq<Chunk>)
    ensures NoDuplicates(AddAllCited([], cs))
    ensures |AddAllCited([], cs)| <= |cs|
    ensures NoDuplicates(cs) ==> AddAllCited([], cs) == cs
  {
    if cs != [] {
      var init := cs[..|cs| - 1];
      FreshReferences(init);
      if NoDuplicates(cs) {
        assert NoDuplicates(init);
        assert cs[|cs| - 1] !in init;
        assert init + [cs[|cs| - 1]] == cs;
      }
    }
  }
}
