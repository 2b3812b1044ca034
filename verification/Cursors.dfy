/** Vocabulary of the cursor loops: cursors asked for, and what is left of a page. */
module Cursors {
  import opened Common

  /** The most pages one iteration reads. */
  const MAX_PAGES: nat := 10_000

  /** `seen` has as many members as there were requests. */
  lemma {:induction false} DistinctSize(cursors: seq<Text>)
    requires Distinct(cursors)
    ensures |Elements(cursors)| == |cursors|
  {
    if |cursors| > 0 {
      var most, last := cursors[..|cursors| - 1], cursors[|cursors| - 1];
      DistinctSize(most);
      assert cursors == most + [last];
      assert Elements(cursors) == Elements(most) + {last};
    }
  }

  /** page[k..], read off one event at a time. */
  function Rest<E>(page: seq<E>, k: nat): seq<E>
    decreases |page| - k
  {
    if k >= |page| then [] else [page[k]] + Rest(page, k + 1)
  }

  lemma {:induction false} RestIsSuffix<E>(page: seq<E>, k: nat)
    requires k <= |page|
    ensures Rest(page, k) == page[k..]
    decreases |page| - k
  {
    if k < |page| {
      RestIsSuffix(page, k + 1);
    }
  }
}
