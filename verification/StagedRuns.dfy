/** Staging a range of visible runs: every covered run is cut into a kept front,
    a tombstoned middle and a kept rest, from right to left so that the ranks
    still to be edited stay valid. */
module StagedRuns {
  import opened Ids
  import opened Fragments
  import opened VisibleText
  import opened LocalEdits
  import opened VisibleRuns

  // ---- The pieces of one run ---------------------------------------------

  function Middle(f: Fragment, first: nat, last: nat, d: Identity): Fragment
    requires !f.marker && first < last <= |f.text|
  {
    HideRun(Prefix(Suffix(f, first), last - first), d)
  }

  function Pieces(f: Fragment, first: nat, last: nat, d: Identity): (r: seq<Fragment>)
    requires !f.marker && first < last <= |f.text|
    ensures 1 <= |r| <= 3 && NonEmptyRuns(r) && r[0].origin == f.origin
  {
    (if first > 0 then [Prefix(f, first)] else [])
    + [Middle(f, first, last, d)]
    + (if last < |f.text| then [Suffix(f, last)] else [])
  }

  /** Item `k` of a run that is tombstoned from `first` to `last`. */
  function CutItem(f: Fragment, first: nat, last: nat, d: Identity, k: nat): Item
    requires k < Length(f)
  {
    if first <= k < last then Hide(ItemOf(f, k), d) else ItemOf(f, k)
  }

  lemma {:induction false} PieceItem(f: Fragment, lo: nat, n: nat, k: nat)
    requires !f.marker && lo + n <= |f.text| && k < n
    ensures ItemOf(Prefix(Suffix(f, lo), n), k) == ItemOf(f, lo + k)
  {
  }

  lemma {:induction false} PiecesItems(f: Fragment, first: nat, last: nat, d: Identity)
    requires !f.marker && first < last <= |f.text|
    ensures Items(Pieces(f, first, last, d)) == seq(|f.text|, k requires 0 <= k < |f.text| => CutItem(f, first, last, d, k))
  {
    var front := if first > 0 then [Prefix(f, first)] else [];
    var rest := if last < |f.text| then [Suffix(f, last)] else [];
    var mid := Middle(f, first, last, d);
    ItemsConcat(front + [mid], rest);
    ItemsConcat(front, [mid]);
    ItemsSingle(mid);
    FrontItems(f, first);
    RestItems(f, last);
    MiddleItems(f, first, last, d);
    hide *;
    var whole := Items(Pieces(f, first, last, d));
    assert whole == Items(front) + ItemsOf(mid) + Items(rest) by { PiecesParts(f, first, last, d); }
    CutParts(f, first, last, d, Items(front), ItemsOf(mid), Items(rest));
  }

  lemma {:induction false} PiecesParts(f: Fragment, first: nat, last: nat, d: Identity)
    requires !f.marker && first < last <= |f.text|
    ensures Pieces(f, first, last, d)
            == (if first > 0 then [Prefix(f, first)] else []) + [Middle(f, first, last, d)] + (if last < |f.text| then [Suffix(f, last)] else [])
  {
  }

  lemma {:induction false} CutParts(f: Fragment, first: nat, last: nat, d: Identity, a: seq<Item>, b: seq<Item>, c: seq<Item>)
    requires !f.marker && first < last <= |f.text| && |a| == first && |b| == last - first && |c| == |f.text| - last
    requires forall k :: 0 <= k < |a| ==> a[k] == ItemOf(f, k)
    requires forall k :: 0 <= k < |b| ==> b[k] == Hide(ItemOf(f, first + k), d)
    requires forall k :: 0 <= k < |c| ==> c[k] == ItemOf(f, last + k)
    ensures a + b + c == seq(|f.text|, k requires 0 <= k < |f.text| => CutItem(f, first, last, d, k))
  {
    hide ItemOf, Hide;
    forall k | 0 <= k < |f.text|
      ensures (a + b + c)[k] == CutItem(f, first, last, d, k)
    {
      if k >= last { assert (a + b + c)[k] == c[k - last]; } else if k >= first { assert (a + b + c)[k] == b[k - first]; }
    }
  }

  lemma {:induction false} FrontItems(f: Fragment, first: nat)
    requires !f.marker && first <= |f.text|
    ensures var a := Items(if first > 0 then [Prefix(f, first)] else []);
            |a| == first && forall k :: 0 <= k < first ==> a[k] == ItemOf(f, k)
  {
    if first > 0 {
      ItemsSingle(Prefix(f, first));
      hide Items;
      forall k | 0 <= k < first
        ensures ItemOf(Prefix(f, first), k) == ItemOf(f, k)
      {
        assert Prefix(f, first).text[k] == f.text[k];
      }
    }
  }

  lemma {:induction false} RestItems(f: Fragment, last: nat)
    requires !f.marker && 0 < last <= |f.text|
    ensures var c := Items(if last < |f.text| then [Suffix(f, last)] else []);
            |c| == |f.text| - last && forall k :: 0 <= k < |c| ==> c[k] == ItemOf(f, last + k)
  {
    if last < |f.text| {
      ItemsSingle(Suffix(f, last));
      hide Items;
      assert forall k :: 0 <= k < |f.text| - last ==> ItemOf(Suffix(f, last), k) == ItemOf(f, last + k);
    }
  }

  lemma {:induction false} MiddleItems(f: Fragment, first: nat, last: nat, d: Identity)
    requires !f.marker && first < last <= |f.text|
    ensures |ItemsOf(Middle(f, first, last, d))| == last - first
    ensures forall k :: 0 <= k < last - first ==> ItemsOf(Middle(f, first, last, d))[k] == Hide(ItemOf(f, first + k), d)
  {
    var mid := Prefix(Suffix(f, first), last - first);
    forall k | 0 <= k < last - first
      ensures ItemOf(Middle(f, first, last, d), k) == Hide(ItemOf(f, first + k), d)
    {
      HideRunItems(mid, d, k);
      PieceItem(f, first, last - first, k);
    }
  }

  // ---- All runs ----------------------------------------------------------

  lemma {:induction false} CoveredBounds(frags: seq<Fragment>, i: nat, r: Range)
    requires i < |frags| && IsCovered(frags, i, r)
    ensures !frags[i].marker && CoverFirst(frags, i, r) < CoverLast(frags, i, r) <= |frags[i].text|
  {
  }

  /** What run `i` becomes. */
  function StagedRun(frags: seq<Fragment>, r: Range, d: Identity, i: nat): (s: seq<Fragment>)
    requires i < |frags|
    ensures |s| > 0 && s[0].origin == frags[i].origin
  {
    if IsCovered(frags, i, r) then
      CoveredBounds(frags, i, r);
      Pieces(frags[i], CoverFirst(frags, i, r), CoverLast(frags, i, r), d)
    else [frags[i]]
  }

  /** What the runs from rank `a` up to, not including, rank `b` become. */
  function Staged(frags: seq<Fragment>, r: Range, d: Identity, a: nat, b: nat): seq<Fragment>
    requires a <= b <= |frags|
    decreases b
  {
    if a == b then [] else Staged(frags, r, d, a, b - 1) + StagedRun(frags, r, d, b - 1)
  }

  lemma {:induction false} StagedJoin(frags: seq<Fragment>, r: Range, d: Identity, a: nat, b: nat, c: nat)
    requires a <= b <= c <= |frags|
    ensures Staged(frags, r, d, a, b) + Staged(frags, r, d, b, c) == Staged(frags, r, d, a, c)
    decreases c
  {
    if b < c {
      StagedJoin(frags, r, d, a, b, c - 1);
      hide StagedRun;
      assert Staged(frags, r, d, b, c) == Staged(frags, r, d, b, c - 1) + StagedRun(frags, r, d, c - 1);
    }
  }

  lemma {:induction false} StagedOne(frags: seq<Fragment>, r: Range, d: Identity, i: nat)
    requires i < |frags|
    ensures Staged(frags, r, d, i, i + 1) == StagedRun(frags, r, d, i)
  {
    hide StagedRun;
    assert Staged(frags, r, d, i, i) == [];
  }

  ghost predicate NoneCovered(frags: seq<Fragment>, r: Range, a: nat, b: nat)
    requires b <= |frags|
  {
    forall i :: a <= i < b ==> !IsCovered(frags, i, r)
  }

  /** Runs that are not covered stay. */
  lemma {:induction false} StagedSame(frags: seq<Fragment>, r: Range, d: Identity, a: nat, b: nat)
    requires a <= b <= |frags| && NoneCovered(frags, r, a, b)
    ensures Staged(frags, r, d, a, b) == frags[a..b]
    decreases b
  {
    if a < b {
      StagedSame(frags, r, d, a, b - 1);
      hide IsCovered;
      assert frags[a..b] == frags[a..b - 1] + [frags[b - 1]];
    }
  }

  /** The last covered run below rank `n`. */
  lemma {:induction false} LastCovered(frags: seq<Fragment>, r: Range, n: nat) returns (j: nat)
    requires n <= |frags| && CoveredBelow(frags, r, n) != []
    ensures j < n && IsCovered(frags, j, r) && NoneCovered(frags, r, j + 1, n) && CoveredPart(frags, j, r).frag == j
    ensures CoveredBelow(frags, r, n) == CoveredBelow(frags, r, j) + [CoveredPart(frags, j, r)]
  {
    hide IsCovered;
    if IsCovered(frags, n - 1, r) {
      j := n - 1;
    } else {
      j := LastCovered(frags, r, n - 1);
    }
  }

  lemma {:induction false} NoCovered(frags: seq<Fragment>, r: Range, n: nat)
    requires n <= |frags| && CoveredBelow(frags, r, n) == []
    ensures NoneCovered(frags, r, 0, n)
  {
    if n > 0 { NoCovered(frags, r, n - 1); }
  }

  /** The staged runs hold the items with the range tombstoned. */
  lemma {:induction false} StagedItems(frags: seq<Fragment>, r: Range, d: Identity, n: nat)
    requires NonEmptyRuns(frags) && n <= |frags|
    ensures Start(frags, n) <= |Items(frags)| && NonEmptyRuns(Staged(frags, r, d, 0, n))
    ensures Items(Staged(frags, r, d, 0, n)) == HideRanges(Items(frags), [r], d)[..Start(frags, n)]
  {
    StartInItems(frags, n);
    if n == 0 {
      assert Start(frags, 0) == 0 by { StartEnds(frags); }
    } else {
      StagedItems(frags, r, d, n - 1);
      StagedRunItems(frags, r, d, n - 1);
      ItemsConcat(Staged(frags, r, d, 0, n - 1), StagedRun(frags, r, d, n - 1));
    }
  }

  lemma {:induction false} StartInItems(frags: seq<Fragment>, n: nat)
    requires n <= |frags|
    ensures Start(frags, n) <= |Items(frags)|
  {
    StartEnds(frags);
    StartMonotone(frags, n, |frags|);
  }

  lemma {:induction false} StagedRunItems(frags: seq<Fragment>, r: Range, d: Identity, i: nat)
    requires NonEmptyRuns(frags) && i < |frags|
    ensures Start(frags, i) <= Start(frags, i + 1) <= |Items(frags)| && NonEmptyRuns(StagedRun(frags, r, d, i))
    ensures HideRanges(Items(frags), [r], d)[..Start(frags, i + 1)]
            == HideRanges(Items(frags), [r], d)[..Start(frags, i)] + Items(StagedRun(frags, r, d, i))
  {
    StartStep(frags, i);
    StartInItems(frags, i + 1);
    var hidden, lo: nat, s := HideRanges(Items(frags), [r], d), Start(frags, i), Items(StagedRun(frags, r, d, i));
    StagedRunItem(frags, r, d, i);
    forall k | 0 <= k < Length(frags[i])
      ensures hidden[lo + k] == s[k]
    {
      HiddenItem(frags, r, d, i, k);
    }
    hide *;
    assert |s| == Length(frags[i]);
    assert hidden[..lo + |s|] == hidden[..lo] + s;
  }

  function CutOf(frags: seq<Fragment>, r: Range, d: Identity, i: nat, k: nat): Item
    requires i < |frags| && k < Length(frags[i])
  {
    if IsCovered(frags, i, r) then CutItem(frags[i], CoverFirst(frags, i, r), CoverLast(frags, i, r), d, k)
    else ItemOf(frags[i], k)
  }

  lemma {:induction false} StagedRunItem(frags: seq<Fragment>, r: Range, d: Identity, i: nat)
    requires i < |frags| && Length(frags[i]) > 0
    ensures |Items(StagedRun(frags, r, d, i))| == Length(frags[i]) && NonEmptyRuns(StagedRun(frags, r, d, i))
    ensures forall k :: 0 <= k < Length(frags[i]) ==> Items(StagedRun(frags, r, d, i))[k] == CutOf(frags, r, d, i, k)
  {
    if IsCovered(frags, i, r) {
      CoveredBounds(frags, i, r);
      hide IsCovered, CoverFirst, CoverLast;
      PiecesItems(frags[i], CoverFirst(frags, i, r), CoverLast(frags, i, r), d);
    } else {
      ItemsSingle(frags[i]);
    }
  }

  lemma {:induction false} HiddenItem(frags: seq<Fragment>, r: Range, d: Identity, i: nat, k: nat)
    requires i < |frags| && k < Length(frags[i])
    ensures Start(frags, i) + k < |Items(frags)|
    ensures HideRanges(Items(frags), [r], d)[Start(frags, i) + k] == CutOf(frags, r, d, i, k)
  {
    FlatItem(frags, Pos(i, k));
    OffsetInRun(frags, i, k);
    hide RunStart, Offset, Items, Start;
    assert forall o: nat :: InRanges([r], o) <==> r.start <= o < r.end by {
      assert r in [r];
    }
  }
}
