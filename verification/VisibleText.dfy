/** The visible text of a document, offsets into it, and what hiding a range and
    weaving in runs does to it. Offsets count scalars. */
module VisibleText {
  import opened Ids
  import opened Fragments

  predicate IsText(x: Item) {
    x.visible && x.content.Some?
  }

  function Text(items: seq<Item>): seq<Scalar> {
    if items == [] then []
    else
      var last := items[|items| - 1];
      Text(items[..|items| - 1]) + if IsText(last) then [last.content.value] else []
  }

  /** How many visible scalars there are before item `i`. */
  function Offset(items: seq<Item>, i: nat): nat
    requires i <= |items|
  {
    |Text(items[..i])|
  }

  lemma {:induction false} TextConcat(a: seq<Item>, b: seq<Item>)
    ensures Text(a + b) == Text(a) + Text(b)
    decreases |b|
  {
    if b == [] {
      assert a + b == a;
    } else {
      TextConcat(a, b[..|b| - 1]);
      assert (a + b)[..|a + b| - 1] == a + b[..|b| - 1];
    }
  }

  lemma TextSplit(items: seq<Item>, p: nat)
    requires p <= |items|
    ensures Text(items) == Text(items[..p]) + Text(items[p..])
  {
    TextConcat(items[..p], items[p..]);
    assert items == items[..p] + items[p..];
  }

  lemma OffsetStep(items: seq<Item>, i: nat)
    requires i < |items|
    ensures Offset(items, i + 1) == Offset(items, i) + if IsText(items[i]) then 1 else 0
  {
    assert items[..i + 1][..i] == items[..i];
  }

  lemma {:induction false} OffsetMonotone(items: seq<Item>, i: nat, j: nat)
    requires i <= j <= |items|
    ensures Offset(items, i) <= Offset(items, j)
    ensures i < j && IsText(items[i]) ==> Offset(items, i) < Offset(items, j)
    decreases j
  {
    if i < j {
      OffsetStep(items, j - 1);
      OffsetMonotone(items, i, j - 1);
    }
  }

  lemma OffsetEnds(items: seq<Item>)
    ensures Offset(items, 0) == 0 && Offset(items, |items|) == |Text(items)|
  {
    assert items[..|items|] == items;
  }

  /** The place just after the visible scalar that ends at offset `s`, or the
      start of the document. */
  ghost predicate IsPlace(items: seq<Item>, s: nat, p: nat) {
    p <= |items| && Offset(items, p) == s && (p == 0 || IsText(items[p - 1])) && (s == 0 ==> p == 0)
  }

  lemma PlaceIsUnique(items: seq<Item>, s: nat, p: nat, q: nat)
    requires IsPlace(items, s, p) && IsPlace(items, s, q)
    ensures p == q
  {
    if p < q { OffsetStep(items, q - 1); OffsetMonotone(items, p, q - 1); }
    if q < p { OffsetStep(items, p - 1); OffsetMonotone(items, q, p - 1); }
  }

  lemma PlaceOrder(items: seq<Item>, s: nat, p: nat, t: nat, q: nat)
    requires IsPlace(items, s, p) && IsPlace(items, t, q) && s <= t
    ensures p <= q
  {
    if q < p { OffsetStep(items, p - 1); OffsetMonotone(items, q, p - 1); }
  }

  // ---- Hiding ranges -----------------------------------------------------

  datatype Range = Range(start: nat, end: nat)

  predicate InRanges(ranges: seq<Range>, k: nat) {
    exists r :: r in ranges && r.start <= k < r.end
  }

  /** Ranges one after the other, within a text of length `n`. */
  predicate InSequence(ranges: seq<Range>, n: nat) {
    && (forall i :: 0 <= i < |ranges| ==> ranges[i].start <= ranges[i].end <= n)
    && (forall i, j :: 0 <= i < j < |ranges| ==> ranges[i].end <= ranges[j].start)
  }

  /** Item `i` is a visible scalar at an offset in one of the ranges. */
  predicate Chosen(items: seq<Item>, ranges: seq<Range>, i: nat)
    requires i < |items|
  {
    IsText(items[i]) && InRanges(ranges, Offset(items, i))
  }

  function Hide(x: Item, d: Identity): Item {
    x.(dels := x.dels + {d}, visible := false)
  }

  function HideRanges(items: seq<Item>, ranges: seq<Range>, d: Identity): (r: seq<Item>)
    ensures |r| == |items|
  {
    seq(|items|, i requires 0 <= i < |items| => if Chosen(items, ranges, i) then Hide(items[i], d) else items[i])
  }

  ghost function ChosenIds(items: seq<Item>, ranges: seq<Range>): set<Identity> {
    set i | 0 <= i < |items| && Chosen(items, ranges, i) :: items[i].node.id
  }

  /** The text with every range replaced by its new text. */
  function Edited<T>(text: seq<T>, ranges: seq<Range>, news: seq<seq<T>>): seq<T>
    requires |ranges| == |news| && InSequence(ranges, |text|)
    decreases |ranges|
  {
    if ranges == [] then text
    else
      var last := |ranges| - 1;
      Edited(text[..ranges[last].start], ranges[..last], news[..last]) + news[last] + text[ranges[last].end..]
  }

  /** `base` with run `k` put at place `ps[k]`; the places count base items. */
  function Woven(base: seq<Item>, ps: seq<nat>, runs: seq<seq<Item>>): seq<Item>
    requires |ps| == |runs| && Places(ps, |base|)
    decreases |ps|
  {
    if ps == [] then base
    else
      var last := |ps| - 1;
      Woven(base[..ps[last]], ps[..last], runs[..last]) + runs[last] + base[ps[last]..]
  }

  predicate Places(ps: seq<nat>, n: nat) {
    && (forall i :: 0 <= i < |ps| ==> ps[i] <= n)
    && (forall i, j :: 0 <= i < j < |ps| ==> ps[i] <= ps[j])
  }

  ghost predicate PlacesOf(items: seq<Item>, ranges: seq<Range>, ps: seq<nat>) {
    |ps| == |ranges| && forall i :: 0 <= i < |ps| ==> IsPlace(items, ranges[i].start, ps[i])
  }

  ghost predicate RunTexts(runs: seq<seq<Item>>, news: seq<seq<Scalar>>) {
    |runs| == |news| && forall i :: 0 <= i < |runs| ==> Text(runs[i]) == news[i]
  }

  lemma PlacesInOrder(items: seq<Item>, ranges: seq<Range>, ps: seq<nat>)
    requires PlacesOf(items, ranges, ps) && InSequence(ranges, |Text(items)|)
    ensures Places(ps, |items|)
  {
    forall i, j | 0 <= i < j < |ps|
      ensures ps[i] <= ps[j]
    {
      PlaceOrder(items, ranges[i].start, ps[i], ranges[j].start, ps[j]);
    }
  }

  lemma WovenUnfold(base: seq<Item>, ps: seq<nat>, runs: seq<seq<Item>>)
    requires |ps| == |runs| && Places(ps, |base|) && ps != []
    ensures var last := |ps| - 1;
            && ps[last] <= |base| && Places(ps[..last], ps[last])
            && Woven(base, ps, runs) == Woven(base[..ps[last]], ps[..last], runs[..last]) + runs[last] + base[ps[last]..]
  {
  }

  lemma EditedUnfold<T>(text: seq<T>, ranges: seq<Range>, news: seq<seq<T>>)
    requires |ranges| == |news| && InSequence(ranges, |text|) && ranges != []
    ensures ranges[|ranges| - 1].start <= ranges[|ranges| - 1].end <= |text|
    ensures InSequence(ranges[..|ranges| - 1], |text[..ranges[|ranges| - 1].start]|)
    ensures var last := |ranges| - 1;
            Edited(text, ranges, news)
            == Edited(text[..ranges[last].start], ranges[..last], news[..last]) + news[last] + text[ranges[last].end..]
  {
    FirstInSequence(ranges, |text|);
    hide InSequence;
  }

  /** Hiding the ranges and weaving in runs at their starts edits the visible text. */
  lemma {:induction false} WovenText(items: seq<Item>, ranges: seq<Range>, d: Identity, ps: seq<nat>,
                                     runs: seq<seq<Item>>, news: seq<seq<Scalar>>)
    requires InSequence(ranges, |Text(items)|) && PlacesOf(items, ranges, ps) && RunTexts(runs, news)
    requires |ranges| == |runs|
    ensures Places(ps, |items|)
    ensures Text(Woven(HideRanges(items, ranges, d), ps, runs)) == Edited(Text(items), ranges, news)
    decreases |ranges|
  {
    PlacesInOrder(items, ranges, ps);
    WovenIsEdited(items, ranges, d, ps, runs, news);
  }

  /** Everything weaving needs to know about its arguments. */
  ghost predicate Weavable(items: seq<Item>, ranges: seq<Range>, ps: seq<nat>, runs: seq<seq<Item>>, news: seq<seq<Scalar>>) {
    && InSequence(ranges, |Text(items)|) && PlacesOf(items, ranges, ps) && Places(ps, |items|)
    && RunTexts(runs, news) && |ranges| == |runs|
  }

  ghost predicate WovenEdits(items: seq<Item>, ranges: seq<Range>, d: Identity, ps: seq<nat>, runs: seq<seq<Item>>, news: seq<seq<Scalar>>)
    requires Weavable(items, ranges, ps, runs, news)
  {
    Text(Woven(HideRanges(items, ranges, d), ps, runs)) == Edited(Text(items), ranges, news)
  }

  lemma {:induction false} WovenIsEdited(items: seq<Item>, ranges: seq<Range>, d: Identity, ps: seq<nat>,
                                         runs: seq<seq<Item>>, news: seq<seq<Scalar>>)
    requires Weavable(items, ranges, ps, runs, news)
    ensures WovenEdits(items, ranges, d, ps, runs, news)
    decreases |ranges|
  {
    if ranges == [] {
      assert HideRanges(items, [], d) == items;
    } else {
      var last := |ranges| - 1;
      WeavableFirst(items, ranges, d, ps, runs, news);
      hide *;
      WovenIsEdited(items[..ps[last]], ranges[..last], d, ps[..last], runs[..last], news[..last]);
      WovenLast(items, ranges, d, ps, runs, news);
    }
  }

  lemma {:induction false} WeavableFirst(items: seq<Item>, ranges: seq<Range>, d: Identity, ps: seq<nat>,
                                         runs: seq<seq<Item>>, news: seq<seq<Scalar>>)
    requires Weavable(items, ranges, ps, runs, news) && ranges != []
    ensures var last := |ranges| - 1;
            && |ps| == |runs| == |news| == last + 1 && ps[last] <= |items|
            && Weavable(items[..ps[last]], ranges[..last], ps[..last], runs[..last], news[..last])
  {
    hide IsPlace, InSequence, Text, HideRanges;
    FirstRanges(items, ranges, d, ps);
  }

  lemma {:induction false} WovenLast(items: seq<Item>, ranges: seq<Range>, d: Identity, ps: seq<nat>,
                                     runs: seq<seq<Item>>, news: seq<seq<Scalar>>)
    requires Weavable(items, ranges, ps, runs, news) && ranges != []
    requires var last := |ranges| - 1;
             && |ps| == |runs| == |news| == last + 1 && ps[last] <= |items|
             && Weavable(items[..ps[last]], ranges[..last], ps[..last], runs[..last], news[..last])
             && WovenEdits(items[..ps[last]], ranges[..last], d, ps[..last], runs[..last], news[..last])
    ensures WovenEdits(items, ranges, d, ps, runs, news)
  {
    var last := |ranges| - 1;
    assert IsPlace(items, ranges[last].start, ps[last]) && Text(runs[last]) == news[last];
    hide IsPlace, InSequence, Text, HideRanges, PlacesOf, Places, RunTexts, Woven, Edited;
    FirstRanges(items, ranges, d, ps);
    TailText(items, ranges, d, ps[last]);
    TextOfWoven(HideRanges(items, ranges, d), ps, runs);
    EditedUnfold(Text(items), ranges, news);
  }

  lemma {:induction false} TextOfWoven(base: seq<Item>, ps: seq<nat>, runs: seq<seq<Item>>)
    requires |ps| == |runs| && Places(ps, |base|) && ps != []
    ensures var last := |ps| - 1;
            && ps[last] <= |base| && Places(ps[..last], ps[last])
            && Text(Woven(base, ps, runs))
               == Text(Woven(base[..ps[last]], ps[..last], runs[..last])) + Text(runs[last]) + Text(base[ps[last]..])
  {
    var last := |ps| - 1;
    WovenUnfold(base, ps, runs);
    hide *;
    TextOfThree(Woven(base[..ps[last]], ps[..last], runs[..last]), runs[last], base[ps[last]..]);
  }

  lemma {:induction false} TextOfThree(a: seq<Item>, b: seq<Item>, c: seq<Item>)
    ensures Text(a + b + c) == Text(a) + Text(b) + Text(c)
  {
    TextConcat(a + b, c);
    TextConcat(a, b);
  }

  /** Before the last range, only the other ranges matter. */
  lemma FirstRanges(items: seq<Item>, ranges: seq<Range>, d: Identity, ps: seq<nat>)
    requires ranges != [] && InSequence(ranges, |Text(items)|) && PlacesOf(items, ranges, ps) && Places(ps, |items|)
    ensures var last := |ranges| - 1;
            var before := items[..ps[last]];
            && Text(before) == Text(items)[..ranges[last].start]
            && InSequence(ranges[..last], |Text(before)|) && PlacesOf(before, ranges[..last], ps[..last])
            && HideRanges(before, ranges[..last], d) == HideRanges(items, ranges, d)[..ps[last]]
  {
    var last := |ranges| - 1;
    var p := ps[last];
    var before := items[..p];
    assert IsPlace(items, ranges[last].start, p);
    TextSplit(items, p);
    FirstInSequence(ranges, |Text(items)|);
    forall i | 0 <= i < last
      ensures IsPlace(before, ranges[i].start, ps[i])
    {
      assert IsPlace(items, ranges[i].start, ps[i]);
      assert before[..ps[i]] == items[..ps[i]];
    }
    forall i | 0 <= i < p
      ensures Chosen(before, ranges[..last], i) <==> Chosen(items, ranges, i)
    {
      assert before[..i] == items[..i];
      OffsetMonotone(items, i, p);
      EarlierRangesOnly(ranges, |Text(items)|, Offset(items, i));
    }
  }

  lemma FirstInSequence(ranges: seq<Range>, n: nat)
    requires ranges != [] && InSequence(ranges, n)
    ensures InSequence(ranges[..|ranges| - 1], ranges[|ranges| - 1].start)
  {
  }

  lemma EarlierRangesOnly(ranges: seq<Range>, n: nat, k: nat)
    requires ranges != [] && InSequence(ranges, n) && k <= ranges[|ranges| - 1].start
    ensures k < ranges[|ranges| - 1].start ==> (InRanges(ranges[..|ranges| - 1], k) <==> InRanges(ranges, k))
  {
    var init, last := ranges[..|ranges| - 1], ranges[|ranges| - 1];
    assert forall x :: x in ranges <==> x in init || x == last;
  }

  /** From the start of the last range on, exactly that range is cut out. */
  lemma TailText(items: seq<Item>, ranges: seq<Range>, d: Identity, p: nat)
    requires ranges != [] && InSequence(ranges, |Text(items)|) && IsPlace(items, ranges[|ranges| - 1].start, p)
    ensures Text(HideRanges(items, ranges, d)[p..]) == Text(items)[ranges[|ranges| - 1].end..]
  {
    var r := ranges[|ranges| - 1];
    var hidden := HideRanges(items, ranges, d);
    TailTextUpTo(items, ranges, d, p, |items|);
    assert hidden[p..|items|] == hidden[p..];
    OffsetEnds(items);
    assert items[..|items|] == items;
  }

  function Tail(text: seq<Scalar>, end: nat): seq<Scalar> {
    if |text| <= end then [] else text[end..]
  }

  lemma {:induction false} TailTextUpTo(items: seq<Item>, ranges: seq<Range>, d: Identity, p: nat, i: nat)
    requires ranges != [] && InSequence(ranges, |Text(items)|) && IsPlace(items, ranges[|ranges| - 1].start, p)
    requires p <= i <= |items|
    ensures Text(HideRanges(items, ranges, d)[p..i]) == Tail(Text(items[..i]), ranges[|ranges| - 1].end)
    decreases i
  {
    var r := ranges[|ranges| - 1];
    var hidden := HideRanges(items, ranges, d);
    if i == p {
      assert hidden[p..i] == [];
    } else {
      TailTextUpTo(items, ranges, d, p, i - 1);
      HiddenStep(items, ranges, d, p, i - 1);
      TailNext(items, hidden, p, i - 1, r.end);
    }
  }

  lemma TailNext(items: seq<Item>, hidden: seq<Item>, p: nat, i: nat, end: nat)
    requires |hidden| == |items| && p <= i < |items| && hidden[i].content == items[i].content
    requires IsText(hidden[i]) <==> IsText(items[i]) && end <= Offset(items, i)
    requires Text(hidden[p..i]) == Tail(Text(items[..i]), end)
    ensures Text(hidden[p..i + 1]) == Tail(Text(items[..i + 1]), end)
  {
    assert hidden[p..i + 1] == hidden[p..i] + [hidden[i]];
    assert items[..i + 1] == items[..i] + [items[i]];
    AppendText(hidden[p..i], hidden[i]);
    AppendText(items[..i], items[i]);
    if IsText(items[i]) { TailStep(Text(items[..i]), items[i].content.value, end); }
  }

  lemma HiddenStep(items: seq<Item>, ranges: seq<Range>, d: Identity, p: nat, i: nat)
    requires ranges != [] && InSequence(ranges, |Text(items)|) && IsPlace(items, ranges[|ranges| - 1].start, p)
    requires p <= i < |items|
    ensures IsText(HideRanges(items, ranges, d)[i]) <==> IsText(items[i]) && ranges[|ranges| - 1].end <= Offset(items, i)
    ensures HideRanges(items, ranges, d)[i].content == items[i].content
  {
    OffsetMonotone(items, p, i);
    LastRangeOnly(ranges, |Text(items)|, Offset(items, i));
  }

  lemma TailStep(t: seq<Scalar>, c: Scalar, end: nat)
    ensures Tail(t + [c], end) == Tail(t, end) + if end <= |t| then [c] else []
  {
  }

  lemma AppendText(items: seq<Item>, x: Item)
    ensures Text(items + [x]) == Text(items) + if IsText(x) then [x.content.value] else []
  {
    assert (items + [x])[..|items|] == items;
  }

  lemma LastRangeOnly(ranges: seq<Range>, n: nat, k: nat)
    requires ranges != [] && InSequence(ranges, n) && ranges[|ranges| - 1].start <= k
    ensures InRanges(ranges, k) <==> k < ranges[|ranges| - 1].end
  {
    if InRanges(ranges, k) {
      var x :| x in ranges && x.start <= k < x.end;
      var j :| 0 <= j < |ranges| && ranges[j] == x;
    } else {
      assert ranges[|ranges| - 1] in ranges;
    }
  }
}
