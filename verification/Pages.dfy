/**
 Pages of a listing: what the appliance returns for a limit, and when a page holds every match.
 Which matches fill a page that cannot hold them all is the appliance's choice.
 */
module Pages {
  const MAX_LIST_LIMIT := 1000

  predicate Distinct(ids: seq<nat>) {
    forall i, j | 0 <= i < j < |ids| :: ids[i] != ids[j]
  }

  /** A page of a listing: min(limit, matches) different matching rows, in any order. */
  predicate IsPage(matches: set<nat>, limit: nat, ids: seq<nat>) {
    && Distinct(ids)
    && (forall i | 0 <= i < |ids| :: ids[i] in matches)
    && |ids| == if |matches| < limit then |matches| else limit
  }

  function ToSet(ids: seq<nat>): set<nat> {
    set i | 0 <= i < |ids| :: ids[i]
  }

  lemma {:induction false} DistinctSize(ids: seq<nat>)
    requires Distinct(ids)
    ensures |ToSet(ids)| == |ids|
  {
    if ids != [] {
      var init, last := ids[..|ids| - 1], ids[|ids| - 1];
      DistinctSize(init);
      assert ToSet(ids) == ToSet(init) + {last};
      assert last !in ToSet(init);
    }
  }

  lemma SubsetOfSameSize(a: set<nat>, b: set<nat>)
    requires a <= b && |a| == |b|
    ensures a == b
  {
    assert b == a + (b - a);
    assert |b - a| == 0;
  }

  /** Matches that fit the limit are all on the page. */
  lemma FittingPageIsComplete(matches: set<nat>, limit: nat, ids: seq<nat>)
    requires IsPage(matches, limit, ids) && |matches| <= limit
    ensures ToSet(ids) == matches
  {
    DistinctSize(ids);
    SubsetOfSameSize(ToSet(ids), matches);
  }

  /** A page that is not full holds every match, however many rows there are. */
  lemma ShortPageIsComplete(matches: set<nat>, limit: nat, ids: seq<nat>)
    requires IsPage(matches, limit, ids)
    ensures |ids| < limit <==> |matches| < limit
    ensures |ids| < limit ==> ToSet(ids) == matches
  {
    if |ids| < limit {
      FittingPageIsComplete(matches, limit, ids);
    }
  }

  method ChoosePage(matches: set<nat>, limit: nat) returns (ids: seq<nat>)
    ensures IsPage(matches, limit, ids)
  {
    ids := [];
    var rest := matches;
    while |ids| < limit && rest != {}
      invariant Distinct(ids) && rest <= matches
      invariant forall i | 0 <= i < |ids| :: ids[i] in matches && ids[i] !in rest
      invariant |ids| + |rest| == |matches| && |ids| <= limit
      decreases |rest|
    {
      var id :| id in rest;
      ids, rest := ids + [id], rest - {id};
    }
  }

  // ---------- numbered matches ----------

  function FirstIds(n: nat): seq<nat> {
    seq(n, i requires 0 <= i < n => i)
  }

  function FirstSet(n: nat): set<nat> {
    ToSet(FirstIds(n))
  }

  lemma FirstIdsAre(n: nat)
    ensures Distinct(FirstIds(n)) && |FirstSet(n)| == n
    ensures forall m: nat :: m in FirstSet(n) <==> m < n
  {
    DistinctSize(FirstIds(n));
    forall m: nat | m < n ensures m in FirstSet(n) {
      assert FirstIds(n)[m] == m;
    }
  }

  /** Of matches numbered from 0, those below the limit are a page. */
  lemma FirstPage(n: nat, limit: nat)
    requires limit <= n
    ensures IsPage(FirstSet(n), limit, FirstIds(limit))
  {
    FirstIdsAre(n);
    FirstIdsAre(limit);
  }
}
