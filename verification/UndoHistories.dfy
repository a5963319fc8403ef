/** The local undo history: groups that can be undone below the cursor, groups
    that can be redone from it on, and groups retired for good whose publication
    is pending. Budgets bound all of it, and the check made before an edit
    predicts exactly what committing the edit would do. */
module UndoHistories {
  import opened Ids

  const SIZE_MAX: nat := U64 - 1
  /** Pending retirements: groups and bytes. */
  const MAX_GROUPS: nat := 100_000
  const MAX_PENDING_BYTES: nat := 8 * 1024 * 1024
  /** Sizes in memory of a saved group and of an identity. */
  const GROUP_SIZE: nat := 104
  const IDENTITY_SIZE: nat := 24

  /** What one undo step reverses: the operations of a local change, the items
      they inserted and the deletions they made. */
  datatype Group = Group(
    id: Identity,
    operations: seq<Identity>,
    inserted: seq<Identity>,
    deletions: seq<Identity>,
    retained: nat)

  /** What a retired group is charged, saturating. */
  function ChargeFor(operations: nat, inserted: nat, deletions: nat): nat {
    var bytes := GROUP_SIZE + (operations + inserted + deletions) * IDENTITY_SIZE;
    if bytes > SIZE_MAX then SIZE_MAX else bytes
  }

  function Charge(g: Group): nat {
    ChargeFor(|g.operations|, |g.inserted|, |g.deletions|)
  }

  function Charges(groups: seq<Group>): nat {
    if groups == [] then 0 else Charges(groups[..|groups| - 1]) + Charge(groups[|groups| - 1])
  }

  function Retained(groups: seq<Group>): nat {
    if groups == [] then 0 else Retained(groups[..|groups| - 1]) + groups[|groups| - 1].retained
  }

  lemma {:induction false} Sums(x: seq<Group>, y: seq<Group>)
    ensures Charges(x + y) == Charges(x) + Charges(y) && Retained(x + y) == Retained(x) + Retained(y)
    decreases |y|
  {
    if y == [] {
      assert x + y == x;
    } else {
      Sums(x, y[..|y| - 1]);
      assert (x + y)[..|x + y| - 1] == x + y[..|y| - 1];
    }
  }

  lemma {:induction false} SumsSplit(groups: seq<Group>, k: nat)
    requires k <= |groups|
    ensures Charges(groups) == Charges(groups[..k]) + Charges(groups[k..])
    ensures Retained(groups) == Retained(groups[..k]) + Retained(groups[k..])
  {
    Sums(groups[..k], groups[k..]);
    assert groups == groups[..k] + groups[k..];
  }

  lemma {:induction false} SumsNext(groups: seq<Group>, k: nat)
    requires k < |groups|
    ensures Charges(groups[..k + 1]) == Charges(groups[..k]) + Charge(groups[k])
    ensures Retained(groups[k..]) == groups[k].retained + Retained(groups[k + 1..])
    ensures Retained(groups[..k + 1]) == Retained(groups[..k]) + groups[k].retained
  {
    assert groups[..k + 1][..k] == groups[..k];
    Sums([groups[k]], groups[k + 1..]);
    assert groups[k..] == [groups[k]] + groups[k + 1..];
    assert [groups[k]][..0] == [];
  }

  lemma {:induction false} SumsStart(groups: seq<Group>)
    ensures groups[0..] == groups && groups[..0] == [] && Charges(groups[..0]) == 0 && Charges([]) == 0
  {
  }

  lemma {:induction false} SumsEnd(groups: seq<Group>)
    ensures groups[|groups|..] == [] && Retained(groups[|groups|..]) == 0
  {
  }

  lemma {:induction false} OneMore(groups: seq<Group>, g: Group)
    ensures Charges(groups + [g]) == Charges(groups) + Charge(g) && Retained(groups + [g]) == Retained(groups) + g.retained
  {
    assert (groups + [g])[..|groups|] == groups;
  }

  lemma {:induction false} PrefixGrows(before: seq<Group>, groups: seq<Group>, k: nat)
    requires k < |groups|
    ensures before + groups[..k] + [groups[k]] == before + groups[..k + 1]
  {
    assert groups[..k + 1] == groups[..k] + [groups[k]];
  }

  /** The first `k` groups have gone from the stack to the retired ones. */
  ghost predicate HaveGone(was: seq<Group>, before: seq<Group>, k: nat, rest: seq<Group>, gone: seq<Group>) {
    k <= |was| && rest == was[k..] && gone == before + was[..k]
  }

  lemma {:induction false} NoneRetired(was: seq<Group>, before: seq<Group>)
    ensures HaveGone(was, before, 0, was, before)
  {
  }

  lemma {:induction false} OneRetired(was: seq<Group>, before: seq<Group>, k: nat, rest: seq<Group>, gone: seq<Group>)
    requires HaveGone(was, before, k, rest, gone)
    ensures k <= |was| && |rest| == |was| - k
    ensures rest != [] ==> rest[0] == was[k] && HaveGone(was, before, k + 1, rest[1..], gone + [rest[0]])
  {
    if rest != [] { PrefixGrows(before, was, k); }
  }

  lemma {:induction false} AllRetired(was: seq<Group>, before: seq<Group>, k: nat, rest: seq<Group>, gone: seq<Group>)
    requires HaveGone(was, before, k, rest, gone)
    ensures k <= |was| && |rest| == |was| - k && rest == was[k..] && gone == before + was[..k]
  {
  }

  lemma {:induction false} ChargeIs(g: Group)
    ensures Charge(g) == ChargeFor(|g.operations|, |g.inserted|, |g.deletions|)
  {
  }

  // ---- Trimming ----------------------------------------------------------

  /** How many of the oldest groups have to go. */
  function Excess(groups: seq<Group>, depth: nat, limit: nat): (n: nat)
    ensures n <= |groups|
    decreases |groups|
  {
    if groups != [] && (|groups| > depth || Retained(groups) > limit) then 1 + Excess(groups[1..], depth, limit) else 0
  }

  /** What is left keeps the limits, and nothing went without need: with one more
      group the limits would be broken. */
  lemma {:induction false} ExcessIsLeast(groups: seq<Group>, depth: nat, limit: nat)
    ensures var n := Excess(groups, depth, limit);
            && |groups| - n <= depth && Retained(groups[n..]) <= limit
            && (forall m :: 0 <= m < n ==> |groups| - m > depth || Retained(groups[m..]) > limit)
    decreases |groups|
  {
    var n := Excess(groups, depth, limit);
    if n > 0 {
      ExcessIsLeast(groups[1..], depth, limit);
      assert groups[1..][n - 1..] == groups[n..];
      forall m | 0 <= m < n
        ensures |groups| - m > depth || Retained(groups[m..]) > limit
      {
        if m > 0 { assert groups[1..][m - 1..] == groups[m..]; }
        else { assert groups[0..] == groups; }
      }
    } else {
      assert groups[0..] == groups;
    }
  }

  lemma {:induction false} ExcessStep(groups: seq<Group>, k: nat, depth: nat, limit: nat)
    requires k <= |groups|
    ensures if k < |groups| && (|groups| - k > depth || Retained(groups[k..]) > limit)
            then Excess(groups[k..], depth, limit) == 1 + Excess(groups[k + 1..], depth, limit)
            else Excess(groups[k..], depth, limit) == 0
  {
    if k < |groups| { assert groups[k..][1..] == groups[k + 1..]; }
  }

  /** The newest group stays if there is room for it alone. */
  lemma {:induction false} NewestStays(groups: seq<Group>, depth: nat, limit: nat)
    requires groups != [] && depth > 0 && groups[|groups| - 1].retained <= limit
    ensures Excess(groups, depth, limit) < |groups|
  {
    ExcessIsLeast(groups, depth, limit);
    var last := |groups| - 1;
    SumsNext(groups, last);
    assert groups[last + 1..] == [];
  }

  /** Stack and pending retirements keep their limits. */
  ghost predicate Fits(stack: seq<Group>, retired: seq<Group>) {
    |stack| + |retired| <= MAX_GROUPS && Charges(retired) <= MAX_PENDING_BYTES
  }

  lemma {:induction false} NewestOnTop(groups: seq<Group>, depth: nat, limit: nat)
    requires groups != [] && depth > 0 && groups[|groups| - 1].retained <= limit
    ensures var kept := groups[Excess(groups, depth, limit)..];
            kept != [] && kept[|kept| - 1] == groups[|groups| - 1]
  {
    NewestStays(groups, depth, limit);
  }

  /** If every group there is could be pending at once, with the new one, then any commit
      fits. */
  lemma {:induction false} RoomyFits(stack: seq<Group>, cursor: nat, g: Group, depth: nat, limit: nat, retired: seq<Group>)
    requires cursor <= |stack| && |stack| + |retired| + 1 <= MAX_GROUPS
    requires Charges(stack) + Charges(retired) + Charge(g) <= MAX_PENDING_BYTES
    ensures var all := Candidates(stack, cursor, g);
            var n := Excess(all, depth, limit);
            Fits(all[n..], retired + stack[cursor..] + all[..n])
  {
    var all := Candidates(stack, cursor, g);
    var n := Excess(all, depth, limit);
    ExcessIsLeast(all, depth, limit);
    SumsSplit(stack, cursor);
    OneMore(stack[..cursor], g);
    SumsSplit(all, n);
    Sums(retired + stack[cursor..], all[..n]);
    Sums(retired, stack[cursor..]);
    hide Charges, Retained, Excess, Charge;
  }

  /** Identities the groups name. */
  function Identities(groups: seq<Group>): nat {
    if groups == [] then 0
    else
      var last := groups[|groups| - 1];
      Identities(groups[..|groups| - 1]) + |last.operations| + |last.inserted| + |last.deletions|
  }

  /** What is pending stays small: retirements that fit are few and name few identities. */
  lemma {:induction false} PendingIsSmall(stack: seq<Group>, retired: seq<Group>)
    requires Fits(stack, retired)
    ensures 104 * |retired| + 24 * Identities(retired) <= 8 * 1024 * 1024 && |stack| + |retired| <= 100_000
  {
    ChargesAre(retired);
  }

  lemma {:induction false} ChargesAre(groups: seq<Group>)
    ensures Charges(groups) <= MAX_PENDING_BYTES ==> Charges(groups) == 104 * |groups| + 24 * Identities(groups)
  {
    if groups != [] { ChargesAre(groups[..|groups| - 1]); }
  }

  /** Saturating sum of two sizes. */
  function Saturated(a: nat, b: nat): nat {
    if b > SIZE_MAX - a then SIZE_MAX else a + b
  }

  function Less(a: nat, b: nat): nat {
    if b < a then a - b else 0
  }

  /** The groups an edit leaves on the stack before trimming. */
  function Candidates(stack: seq<Group>, cursor: nat, g: Group): seq<Group>
    requires cursor <= |stack|
  {
    stack[..cursor] + [g]
  }

  // ---- Moving one group across the cursor --------------------------------

  function Undoing(stack: seq<Group>, cursor: nat, i: nat): seq<Group>
    requires i < cursor <= |stack|
  {
    stack[..i] + stack[i + 1..cursor] + [stack[i]] + stack[cursor..]
  }

  function Redoing(stack: seq<Group>, cursor: nat, i: nat): seq<Group>
    requires cursor <= i < |stack|
  {
    stack[..cursor] + [stack[i]] + stack[cursor..i] + stack[i + 1..]
  }

  /** `rest` is `groups` without the one at `i`, in the same order. */
  predicate Without(groups: seq<Group>, i: nat, rest: seq<Group>) {
    i < |groups| && rest == groups[..i] + groups[i + 1..]
  }

  /** Undoing any active group keeps all groups, their sizes and the order of the
      others on either side; the group becomes the next to redo. */
  lemma {:induction false} UndoingKeeps(stack: seq<Group>, cursor: nat, i: nat)
    requires i < cursor <= |stack|
    ensures var r := Undoing(stack, cursor, i);
            && |r| == |stack| && multiset(r) == multiset(stack) && Retained(r) == Retained(stack)
            && Without(stack[..cursor], i, r[..cursor - 1])
            && r[cursor - 1] == stack[i] && r[cursor..] == stack[cursor..]
  {
    hide Retained;
    var r := Undoing(stack, cursor, i);
    MoveParts(stack[..i], [stack[i]], stack[i + 1..cursor], stack[cursor..]);
    assert stack == stack[..i] + [stack[i]] + stack[i + 1..cursor] + stack[cursor..];
    assert r[..cursor - 1] == stack[..i] + stack[i + 1..cursor];
    assert stack[..cursor][..i] == stack[..i] && stack[..cursor][i + 1..] == stack[i + 1..cursor];
  }

  lemma {:induction false} RedoingKeeps(stack: seq<Group>, cursor: nat, i: nat)
    requires cursor <= i < |stack|
    ensures var r := Redoing(stack, cursor, i);
            && |r| == |stack| && multiset(r) == multiset(stack) && Retained(r) == Retained(stack)
            && r[..cursor] == stack[..cursor] && r[cursor] == stack[i]
            && Without(stack[cursor..], i - cursor, r[cursor + 1..])
  {
    hide Retained;
    var r := Redoing(stack, cursor, i);
    MoveParts(stack[..cursor], stack[cursor..i], [stack[i]], stack[i + 1..]);
    CutAround(stack, cursor, i);
    AfterThree(stack[..cursor], stack[i], stack[cursor..i], stack[i + 1..]);
    assert stack[cursor..][..i - cursor] == stack[cursor..i] && stack[cursor..][i - cursor + 1..] == stack[i + 1..];
  }

  /** Take a group out and put it back at `to`, next to the cursor. */
  method MoveGroup(stack: seq<Group>, at: nat, to: nat, ghost cursor: nat) returns (r: seq<Group>)
    requires at < |stack| && to < |stack| && cursor <= |stack|
    ensures at < cursor && to == cursor - 1 ==> r == Undoing(stack, cursor, at)
    ensures cursor <= at && to == cursor ==> r == Redoing(stack, cursor, at)
  {
    var rest := stack[..at] + stack[at + 1..];
    r := rest[..to] + [stack[at]] + rest[to..];
    if at < cursor && to == cursor - 1 {
      assert rest[..to] == stack[..at] + stack[at + 1..cursor] && rest[to..] == stack[cursor..];
    }
    if cursor <= at && to == cursor {
      assert rest[..to] == stack[..cursor] && rest[to..] == stack[cursor..at] + stack[at + 1..];
    }
  }

  lemma {:induction false} CutAround(stack: seq<Group>, cursor: nat, i: nat)
    requires cursor <= i < |stack|
    ensures stack == stack[..cursor] + stack[cursor..i] + [stack[i]] + stack[i + 1..]
  {
  }

  lemma {:induction false} AfterThree(a: seq<Group>, x: Group, b: seq<Group>, c: seq<Group>)
    ensures var r := a + [x] + b + c;
            r[..|a|] == a && r[|a|] == x && r[|a| + 1..] == b + c
  {
  }

  lemma {:induction false} MoveParts(a: seq<Group>, b: seq<Group>, c: seq<Group>, d: seq<Group>)
    ensures multiset(a + b + c + d) == multiset(a + c + b + d)
    ensures Retained(a + b + c + d) == Retained(a + c + b + d)
  {
    Sums(a + b + c, d);
    Sums(a + b, c);
    Sums(a, b);
    Sums(a + c + b, d);
    Sums(a + c, b);
    Sums(a, c);
  }

  /** Undoing the latest group and redoing it restores the stack. */
  lemma {:induction false} UndoRedoRestores(stack: seq<Group>, cursor: nat)
    requires 0 < cursor <= |stack|
    ensures Undoing(stack, cursor, cursor - 1) == stack
    ensures Redoing(Undoing(stack, cursor, cursor - 1), cursor - 1, cursor - 1) == stack
  {
  }

  /** A stack and its cursor. */
  datatype Split = Split(stack: seq<Group>, cursor: nat)

  function UndoTimes(s: Split, k: nat): (r: Split)
    requires k <= s.cursor <= |s.stack|
    ensures r.cursor == s.cursor - k && |r.stack| == |s.stack|
  {
    if k == 0 then s
    else
      var t := UndoTimes(s, k - 1);
      Split(Undoing(t.stack, t.cursor, t.cursor - 1), t.cursor - 1)
  }

  function RedoTimes(s: Split, k: nat): (r: Split)
    requires s.cursor + k <= |s.stack|
    ensures r.cursor == s.cursor + k && |r.stack| == |s.stack|
  {
    if k == 0 then s
    else
      var t := RedoTimes(s, k - 1);
      Split(Redoing(t.stack, t.cursor, t.cursor), t.cursor + 1)
  }

  /** `k` undos of the latest group and as many redos restore stack and cursor. */
  lemma {:induction false} UndosThenRedos(s: Split, k: nat)
    requires k <= s.cursor <= |s.stack|
    ensures RedoTimes(UndoTimes(s, k), k) == s
  {
    LatestStays(s, k);
    NextStays(UndoTimes(s, k), k);
  }

  lemma {:induction false} LatestStays(s: Split, k: nat)
    requires k <= s.cursor <= |s.stack|
    ensures UndoTimes(s, k).stack == s.stack
  {
    if k > 0 {
      LatestStays(s, k - 1);
      UndoRedoRestores(s.stack, s.cursor - k + 1);
    }
  }

  lemma {:induction false} NextStays(s: Split, k: nat)
    requires s.cursor + k <= |s.stack|
    ensures RedoTimes(s, k).stack == s.stack
  {
    if k > 0 {
      NextStays(s, k - 1);
      UndoRedoRestores(s.stack, s.cursor + k);
    }
  }

  // ---- Charging what would be retired ------------------------------------

  /** Room for one more charge below the pending limit. */
  predicate CanAdd(added: nat, charge: nat) {
    charge <= MAX_PENDING_BYTES - (if added < MAX_PENDING_BYTES then added else MAX_PENDING_BYTES)
  }

  /** Charge all these groups; stops after the first that goes beyond the limit. */
  method ChargeAll(gone: seq<Group>, bytes: nat) returns (some: bool, groups: nat, added: nat, remaining: nat)
    requires Retained(gone) <= bytes
    ensures groups <= |gone| && added == Charges(gone[..groups])
    ensures if some then groups == |gone| && added == Charges(gone) <= MAX_PENDING_BYTES && remaining == bytes - Retained(gone)
            else added > MAX_PENDING_BYTES
  {
    SumsStart(gone);
    SumsEnd(gone);
    hide Charges, Retained, Charge;
    groups, added, remaining := 0, 0, bytes;
    while groups < |gone|
      invariant groups <= |gone| && added == Charges(gone[..groups]) <= MAX_PENDING_BYTES
      invariant remaining == bytes - Retained(gone) + Retained(gone[groups..])
    {
      SumsNext(gone, groups);
      var g := gone[groups];
      remaining := Less(remaining, g.retained);
      var fits := CanAdd(added, Charge(g));
      groups, added := groups + 1, added + Charge(g);
      if !fits { return false, groups, added, remaining; }
    }
    assert gone[..groups] == gone;
    some := true;
  }

  /** Charge the oldest groups, then the new one, until the limits are kept. */
  method ChargeExcess(active: seq<Group>, retained: nat, charge: nat, ghost g: Group, depth: nat, limit: nat, addedBefore: nat, bytes: nat)
    returns (some: bool, first: nat, added: nat, remaining: nat)
    requires g.retained == retained && charge == Charge(g) && bytes == Retained(active + [g]) && addedBefore <= MAX_PENDING_BYTES
    ensures first <= Excess(active + [g], depth, limit) && added == addedBefore + Charges((active + [g])[..first])
    ensures if some then first == Excess(active + [g], depth, limit) && added <= MAX_PENDING_BYTES else added > MAX_PENDING_BYTES
  {
    ghost var all := active + [g];
    SumsStart(all);
    SumsEnd(all);
    hide Charges, Retained, Excess, Charge;
    first, added, remaining := 0, addedBefore, bytes;
    var count := |active| + 1;
    while count > depth || remaining > limit
      invariant first <= |all| && count == |all| - first && remaining == Retained(all[first..])
      invariant added == addedBefore + Charges(all[..first]) <= MAX_PENDING_BYTES
      invariant Excess(all, depth, limit) == first + Excess(all[first..], depth, limit)
      decreases count
    {
      ExcessStep(all, first, depth, limit);
      SumsNext(all, first);
      var size, cost := if first < |active| then active[first].retained else retained, if first < |active| then Charge(active[first]) else charge;
      remaining := Less(remaining, size);
      var fits := CanAdd(added, cost);
      first, added, count := first + 1, added + cost, count - 1;
      if !fits { return false, first, added, remaining; }
    }
    ExcessStep(all, first, depth, limit);
    some := true;
  }

  /** The same without a new group. */
  method ChargeOldest(active: seq<Group>, depth: nat, limit: nat, bytes: nat) returns (some: bool, first: nat, added: nat)
    requires bytes == Retained(active)
    ensures first <= Excess(active, depth, limit) <= |active| && added == Charges(active[..first])
    ensures if some then first == Excess(active, depth, limit) && added <= MAX_PENDING_BYTES else added > MAX_PENDING_BYTES
  {
    SumsStart(active);
    SumsEnd(active);
    hide Charges, Retained, Excess, Charge;
    first, added := 0, 0;
    var remaining, count := bytes, |active|;
    while count > depth || remaining > limit
      invariant first <= |active| && count == |active| - first && remaining == Retained(active[first..])
      invariant added == Charges(active[..first]) <= MAX_PENDING_BYTES
      invariant Excess(active, depth, limit) == first + Excess(active[first..], depth, limit)
      decreases count
    {
      ExcessStep(active, first, depth, limit);
      if first >= |active| { break; }
      SumsNext(active, first);
      var g := active[first];
      remaining := Less(remaining, g.retained);
      var fits := CanAdd(added, Charge(g));
      first, added, count := first + 1, added + Charge(g), count - 1;
      if !fits { return false, first, added; }
    }
    ExcessStep(active, first, depth, limit);
    some := true;
  }

  lemma {:induction false} CommitSums(stack: seq<Group>, cursor: nat, g: Group)
    requires cursor <= |stack|
    ensures Retained(stack) == Retained(stack[..cursor]) + Retained(stack[cursor..])
    ensures Retained(Candidates(stack, cursor, g)) == Retained(stack[..cursor]) + g.retained
  {
    SumsSplit(stack, cursor);
    OneMore(stack[..cursor], g);
  }

  lemma {:induction false} NoCharges()
    ensures Charges([]) == 0
  {
  }

  /** More than the pending limit already: nothing after it can help. */
  lemma {:induction false} TooMuch(gone: seq<Group>, k: nat, all: seq<Group>, n: nat, retired: seq<Group>)
    requires k <= |gone| && Charges(gone[..k]) > MAX_PENDING_BYTES && n <= |all|
    ensures !Fits(all[n..], retired + gone + all[..n])
  {
    hide Charges, Retained, Charge;
    SumsSplit(gone, k);
    Sums(retired + gone, all[..n]);
    Sums(retired, gone);
  }

  /** What the retirements after this one come to. */
  lemma {:induction false} PendingSum(gone: seq<Group>, all: seq<Group>, n: nat, retired: seq<Group>)
    requires n <= |all|
    ensures Fits(all[n..], retired + gone + all[..n]) <==>
              |all| + |retired| + |gone| <= MAX_GROUPS && Charges(retired) + Charges(gone) + Charges(all[..n]) <= MAX_PENDING_BYTES
  {
    hide Charges, Retained, Charge;
    Sums(retired + gone, all[..n]);
    Sums(retired, gone);
  }

  lemma {:induction false} StillTooMuch(gone: seq<Group>, all: seq<Group>, k: nat, n: nat, retired: seq<Group>)
    requires k <= n <= |all| && Charges(gone) + Charges(all[..k]) > MAX_PENDING_BYTES
    ensures !Fits(all[n..], retired + gone + all[..n])
  {
    hide Charges, Retained, Charge, Fits;
    PendingSum(gone, all, n, retired);
    SumsSplit(all[..n], k);
    assert all[..n][..k] == all[..k];
  }

  // ---- The history -------------------------------------------------------

  class UndoHistory {
    var stack: seq<Group>
    var cursor: nat
    var bytes: nat
    var maxDepth: nat
    var maxBytes: nat
    var retired: seq<Group>
    var retiredBytes: nat

    /** The counters are the sums over their groups, and every limit is kept. */
    ghost predicate Valid()
      reads this
    {
      && cursor <= |stack| <= maxDepth && bytes == Retained(stack) <= maxBytes <= SIZE_MAX
      && retiredBytes == Charges(retired) && Fits(stack, retired)
    }

    constructor ()
      ensures Valid() && stack == [] && cursor == 0 && retired == [] && maxDepth == 1000 && maxBytes == 16 * 1024 * 1024
    {
      stack, cursor, bytes, retired, retiredBytes := [], 0, 0, [], 0;
      maxDepth, maxBytes := 1000, 16 * 1024 * 1024;
    }

    predicate WithinGroups(addedGroups: nat, count: nat, addedBytes: nat)
      reads this
    {
      var existing := |retired|;
      && existing <= MAX_GROUPS && addedGroups <= MAX_GROUPS - existing
      && count <= MAX_GROUPS - existing - addedGroups
      && addedBytes <= MAX_PENDING_BYTES - (if retiredBytes < MAX_PENDING_BYTES then retiredBytes else MAX_PENDING_BYTES)
    }

    /** Whether an edit that retains so many bytes, inserts so many items and makes
        so many deletions can be committed: it can exactly if the stack and the
        retirements it leads to keep their limits. */
    method CheckNewEntry(retained: nat, inserted: nat, deletions: nat, ghost g: Group) returns (ok: bool)
      requires Valid()
      requires g.retained == retained && |g.operations| == 1 && |g.inserted| == inserted && |g.deletions| == deletions
      requires Retained(stack[..cursor]) + retained <= SIZE_MAX
      ensures var all := Candidates(stack, cursor, g);
              var n := Excess(all, maxDepth, maxBytes);
              ok <==> Fits(all[n..], retired + stack[cursor..] + all[..n])
    {
      ghost var all := Candidates(stack, cursor, g);
      ghost var n := Excess(all, maxDepth, maxBytes);
      CommitSums(stack, cursor, g);
      hide Charges, Retained, Excess, Charge, ChargeFor, Fits;
      var some, groups, added, remaining := ChargeAll(stack[cursor..], bytes);
      if !some {
        TooMuch(stack[cursor..], groups, all, n, retired);
        return false;
      }
      remaining := Saturated(remaining, retained);
      ChargeIs(g);
      var more, first, added2, left := ChargeExcess(stack[..cursor], retained, ChargeFor(1, inserted, deletions), g,
                                                    maxDepth, maxBytes, added, remaining);
      if !more {
        StillTooMuch(stack[cursor..], all, first, n, retired);
        return false;
      }
      PendingSum(stack[cursor..], all, first, retired);
      ok := WithinGroups(groups + first, cursor + 1 - first, added2);
    }

    method RetireGroup(g: Group)
      modifies `retired, `retiredBytes
      ensures retired == old(retired) + [g] && retiredBytes == old(retiredBytes) + Charge(g)
    {
      retiredBytes := retiredBytes + Charge(g);
      retired := retired + [g];
    }

    method RetireOldest()
      requires stack != [] && retiredBytes == Charges(retired)
      modifies `stack, `cursor, `bytes, `retired, `retiredBytes
      ensures stack == old(stack)[1..] && cursor == Less(old(cursor), 1) && bytes == Less(old(bytes), old(stack)[0].retained)
      ensures retired == old(retired) + [old(stack)[0]] && retiredBytes == Charges(retired)
    {
      OneMore(retired, stack[0]);
      hide Charges, Charge;
      RetireGroup(stack[0]);
      bytes := Less(bytes, stack[0].retained);
      stack := stack[1..];
      if cursor != 0 { cursor := cursor - 1; }
    }

    /** Retire from the oldest group on until the limits are kept. */
    method Trim()
      requires cursor <= |stack| && bytes == Retained(stack) && retiredBytes == Charges(retired)
      modifies `stack, `cursor, `bytes, `retired, `retiredBytes
      ensures var n := Excess(old(stack), maxDepth, maxBytes);
              && stack == old(stack)[n..] && retired == old(retired) + old(stack)[..n]
              && cursor == Less(old(cursor), n)
      ensures cursor <= |stack| <= maxDepth && bytes == Retained(stack) <= maxBytes && retiredBytes == Charges(retired)
    {
      ghost var was, before, k: nat := stack, retired, 0;
      SumsStart(was);
      SumsEnd(was);
      NoneRetired(was, before);
      ghost var depth, limit, c := maxDepth, maxBytes, cursor;
      hide Charges, Retained, Excess, Charge, HaveGone;
      while stack != [] && (|stack| > maxDepth || bytes > maxBytes)
        invariant maxDepth == depth && maxBytes == limit
        invariant k <= |was| && HaveGone(was, before, k, stack, retired) && retiredBytes == Charges(retired)
        invariant bytes == Retained(was[k..]) && cursor == Less(c, k)
        invariant Excess(was, depth, limit) == k + Excess(was[k..], depth, limit)
        decreases |stack|
      {
        ExcessStep(was, k, depth, limit);
        OneRetired(was, before, k, stack, retired);
        SumsNext(was, k);
        RetireOldest();
        k := k + 1;
      }
      AllRetired(was, before, k, stack, retired);
      ExcessStep(was, k, depth, limit);
      ExcessIsLeast(was, depth, limit);
    }

    /** Commit an edit the check accepted: what could be redone is retired, the edit
        goes on top, and the oldest groups make room. */
    method Commit(g: Group)
      requires Valid() && Retained(stack[..cursor]) + g.retained <= SIZE_MAX
      requires var all := Candidates(stack, cursor, g);
               var n := Excess(all, maxDepth, maxBytes);
               Fits(all[n..], retired + stack[cursor..] + all[..n])
      modifies `stack, `cursor, `bytes, `retired, `retiredBytes
      ensures Valid() && cursor == |stack|
      ensures old(cursor) <= |old(stack)|
      ensures var all := Candidates(old(stack), old(cursor), g);
              var n := Excess(all, maxDepth, maxBytes);
              stack == all[n..] && retired == old(retired) + old(stack)[old(cursor)..] + all[..n]
      ensures maxDepth > 0 && g.retained <= maxBytes ==> stack != [] && stack[|stack| - 1] == g
    {
      ghost var all := Candidates(stack, cursor, g);
      if maxDepth > 0 && g.retained <= maxBytes { NewestOnTop(all, maxDepth, maxBytes); }
      ghost var n, more := Excess(all, maxDepth, maxBytes), retired + stack[cursor..];
      hide Charges, Retained, Excess, Charge, Fits, Candidates;
      PutOnTop(g);
      Trim();
      assert stack == all[n..] && retired == more + all[..n];
    }

    /** The group goes on top of the active ones; what could be redone is retired. */
    method PutOnTop(g: Group)
      requires Valid() && Retained(stack[..cursor]) + g.retained <= SIZE_MAX
      modifies `stack, `cursor, `bytes, `retired, `retiredBytes
      ensures old(cursor) <= |old(stack)| && stack == Candidates(old(stack), old(cursor), g) && cursor == |stack|
      ensures retired == old(retired) + old(stack)[old(cursor)..]
      ensures bytes == Retained(stack) && retiredBytes == Charges(retired)
    {
      CommitSums(stack, cursor, g);
      hide Charges, Retained, Charge, Fits;
      RetireAll(stack[cursor..]);
      stack := stack[..cursor];
      bytes := Saturated(bytes, g.retained);
      stack := stack + [g];
      cursor := |stack|;
    }

    /** Retire these groups, in order. */
    method RetireAll(gone: seq<Group>)
      requires retiredBytes == Charges(retired) && Retained(gone) <= bytes
      modifies `bytes, `retired, `retiredBytes
      ensures retired == old(retired) + gone && retiredBytes == Charges(retired) && bytes == old(bytes) - Retained(gone)
    {
      ghost var before, was := retired, bytes;
      SumsStart(gone);
      SumsEnd(gone);
      assert before + gone[..0] == before;
      hide Charges, Retained, Charge;
      for i := 0 to |gone|
        invariant retired == before + gone[..i] && retiredBytes == Charges(retired)
        invariant bytes == was - Retained(gone) + Retained(gone[i..])
      {
        SumsNext(gone, i);
        OneMore(retired, gone[i]);
        PrefixGrows(before, gone, i);
        RetireGroup(gone[i]);
        bytes := Less(bytes, gone[i].retained);
      }
      assert gone[..|gone|] == gone;
    }

    /** Whether lower limits can be imposed. */
    method CheckLimits(depth: nat, limit: nat) returns (ok: bool)
      requires Valid()
      ensures var n := Excess(stack, depth, limit);
              ok <==> Fits(stack[n..], retired + stack[..n])
    {
      ghost var n := Excess(stack, depth, limit);
      assert retired + [] == retired;
      NoCharges();
      hide Charges, Retained, Excess, Charge, Fits;
      var more, first, added := ChargeOldest(stack, depth, limit, bytes);
      if !more {
        StillTooMuch([], stack, first, n, retired);
        return false;
      }
      PendingSum([], stack, first, retired);
      ok := WithinGroups(first, |stack| - first, added);
    }

    method SetMaxDepth(depth: nat) returns (ok: bool)
      requires Valid()
      modifies this
      ensures Valid() && maxBytes == old(maxBytes)
      ensures var n := Excess(old(stack), depth, maxBytes);
              && (ok <==> depth <= MAX_GROUPS && Fits(old(stack)[n..], old(retired) + old(stack)[..n]))
              && (ok ==> maxDepth == depth && stack == old(stack)[n..] && retired == old(retired) + old(stack)[..n])
      ensures !ok ==> unchanged(this)
    {
      hide Charges, Retained, Excess, Charge, Fits;
      if depth > MAX_GROUPS { return false; }
      ok := CheckLimits(depth, maxBytes);
      if ok { Impose(depth, maxBytes); }
    }

    method SetMaxBytes(limit: nat) returns (ok: bool)
      requires Valid() && limit <= SIZE_MAX
      modifies this
      ensures Valid() && maxDepth == old(maxDepth)
      ensures var n := Excess(old(stack), maxDepth, limit);
              && (ok <==> Fits(old(stack)[n..], old(retired) + old(stack)[..n]))
              && (ok ==> maxBytes == limit && stack == old(stack)[n..] && retired == old(retired) + old(stack)[..n])
      ensures !ok ==> unchanged(this)
    {
      hide Charges, Retained, Excess, Charge, Fits;
      ok := CheckLimits(maxDepth, limit);
      if ok { Impose(maxDepth, limit); }
    }

    /** Impose limits the check accepted. */
    method Impose(depth: nat, limit: nat)
      requires Valid() && limit <= SIZE_MAX
      requires var n := Excess(stack, depth, limit); Fits(stack[n..], retired + stack[..n])
      modifies this
      ensures Valid() && maxDepth == depth && maxBytes == limit
      ensures var n := Excess(old(stack), depth, limit); stack == old(stack)[n..] && retired == old(retired) + old(stack)[..n]
    {
      ghost var was, before, n := stack, retired, Excess(stack, depth, limit);
      hide Charges, Retained, Excess, Charge, Fits;
      maxDepth, maxBytes := depth, limit;
      Trim();
      assert stack == was[n..] && retired == before + was[..n];
    }

    /** Join the two latest active groups into one. */
    method CoalesceLast() returns (ok: bool)
      requires Valid()
      modifies `stack, `cursor
      ensures Valid() && (ok <==> old(cursor) >= 2) && old(cursor) <= |old(stack)|
      ensures ok ==> 1 <= cursor == old(cursor) - 1 < |stack| + 1 && |stack| == |old(stack)| - 1
      ensures ok ==> stack[..cursor - 1] == old(stack)[..cursor - 1] && stack[cursor..] == old(stack)[old(cursor)..]
      ensures ok ==> var a, b, g := old(stack)[cursor - 1], old(stack)[cursor], stack[cursor - 1];
                     && g.id == a.id && g.operations == a.operations + b.operations && g.inserted == a.inserted + b.inserted
                     && g.deletions == a.deletions + b.deletions && g.retained == a.retained + b.retained
      ensures !ok ==> unchanged(this)
    {
      if cursor < 2 { return false; }
      var a, b := stack[cursor - 2], stack[cursor - 1];
      var g := Group(a.id, a.operations + b.operations, a.inserted + b.inserted, a.deletions + b.deletions,
                     Saturated(a.retained, b.retained));
      JoinedSums(stack, cursor, g);
      stack := stack[..cursor - 2] + [g] + stack[cursor..];
      cursor := cursor - 1;
      ok := true;
    }

    lemma JoinedSums(s: seq<Group>, c: nat, g: Group)
      requires 2 <= c <= |s| && Retained(s) <= SIZE_MAX && g.retained == Saturated(s[c - 2].retained, s[c - 1].retained)
      ensures g.retained == s[c - 2].retained + s[c - 1].retained
      ensures Retained(s[..c - 2] + [g] + s[c..]) == Retained(s)
    {
      SumsSplit(s, c);
      SumsNext(s, c - 2);
      SumsNext(s, c - 1);
      Sums(s[..c - 2] + [g], s[c..]);
      Sums(s[..c - 2], [g]);
      assert [g][..0] == [];
    }

    /** Undo the group with this identity, if it is active. */
    method UndoOf(id: Identity) returns (group: Option<Group>, ghost i: nat)
      requires Valid()
      modifies `stack, `cursor
      ensures Valid()
      ensures group.None? ==> unchanged(this) && forall j :: 0 <= j < cursor ==> stack[j].id != id
      ensures group.Some? ==> i < old(cursor) && old(stack)[i].id == id && group.value == old(stack)[i]
                              && (forall j :: 0 <= j < i ==> old(stack)[j].id != id)
                              && cursor == old(cursor) - 1 && stack == Undoing(old(stack), old(cursor), i)
                              && stack[cursor] == group.value
    {
      var at := FindGroup(stack, 0, cursor, id);
      i := at;
      if at == cursor { return None, i; }
      UndoingKeeps(stack, cursor, at);
      hide Retained, Charges, Undoing;
      group := Some(stack[at]);
      stack := MoveGroup(stack, at, cursor - 1, cursor);
      cursor := cursor - 1;
    }

    /** Redo the group with this identity, if it can be redone. */
    method RedoOf(id: Identity) returns (group: Option<Group>, ghost i: nat)
      requires Valid()
      modifies `stack, `cursor
      ensures Valid()
      ensures group.None? ==> unchanged(this) && forall j :: cursor <= j < |stack| ==> stack[j].id != id
      ensures group.Some? ==> old(cursor) <= i < |old(stack)| && old(stack)[i].id == id && group.value == old(stack)[i]
                              && (forall j :: old(cursor) <= j < i ==> old(stack)[j].id != id)
                              && cursor == old(cursor) + 1 && stack == Redoing(old(stack), old(cursor), i)
                              && stack[cursor - 1] == group.value
    {
      var at := FindGroup(stack, cursor, |stack|, id);
      i := at;
      if at == |stack| { return None, i; }
      RedoingKeeps(stack, cursor, at);
      hide Retained, Charges, Redoing;
      group := Some(stack[at]);
      stack := MoveGroup(stack, at, cursor, cursor);
      cursor := cursor + 1;
    }

    /** The publication of these retirements is durable: forget them. */
    method Acknowledge(ids: seq<Identity>) returns (ok: bool)
      requires Valid()
      modifies `retired, `retiredBytes
      ensures Valid()
      ensures ok <==> (forall i, j :: 0 <= i < j < |ids| ==> ids[i] != ids[j])
                      && forall i :: 0 <= i < |ids| ==> Pending(old(retired), ids[i])
      ensures ok ==> retired == Others(old(retired), ids)
      ensures !ok ==> unchanged(this)
    {
      ok := AllPending(retired, ids);
      if !ok { return; }
      var kept, freed := Forget(retired, ids);
      retiredBytes := retiredBytes - freed;
      retired := kept;
    }
  }

  /** The identities are different and all of them are pending. */
  method AllPending(retired: seq<Group>, ids: seq<Identity>) returns (ok: bool)
    ensures ok <==> (forall i, j :: 0 <= i < j < |ids| ==> ids[i] != ids[j])
                    && forall i :: 0 <= i < |ids| ==> Pending(retired, ids[i])
  {
    for i := 0 to |ids|
      invariant forall j, k :: 0 <= j < k < i ==> ids[j] != ids[k]
      invariant forall j :: 0 <= j < i ==> Pending(retired, ids[j])
    {
      if ids[i] in ids[..i] { return false; }
      var known := HasGroup(retired, ids[i]);
      if !known { return false; }
    }
    ok := true;
  }

  ghost predicate Pending(groups: seq<Group>, id: Identity) {
    exists i :: 0 <= i < |groups| && groups[i].id == id
  }

  method Forget(retired: seq<Group>, ids: seq<Identity>) returns (kept: seq<Group>, freed: nat)
    ensures kept == Others(retired, ids) && freed + Charges(kept) == Charges(retired)
  {
    kept, freed := [], 0;
    OthersStart(retired, ids);
    NoCharges();
    hide Charges, Others, Charge;
    for i := 0 to |retired|
      invariant kept == Others(retired[..i], ids) && freed + Charges(kept) == Charges(retired[..i])
    {
      SumsNext(retired, i);
      OthersStep(retired, i, ids);
      if retired[i].id in ids {
        freed := freed + Charge(retired[i]);
      } else {
        OneMore(kept, retired[i]);
        kept := kept + [retired[i]];
      }
    }
    assert retired[..|retired|] == retired;
  }

  /** The first group with this identity from `lo` up to, not including, `hi`. */
  method FindGroup(stack: seq<Group>, lo: nat, hi: nat, id: Identity) returns (at: nat)
    requires lo <= hi <= |stack|
    ensures lo <= at <= hi && (at < hi ==> stack[at].id == id) && forall j :: lo <= j < at ==> stack[j].id != id
  {
    at := lo;
    while at < hi && stack[at].id != id
      invariant lo <= at <= hi && forall j :: lo <= j < at ==> stack[j].id != id
    {
      at := at + 1;
    }
  }

  method HasGroup(groups: seq<Group>, id: Identity) returns (has: bool)
    ensures has <==> Pending(groups, id)
  {
    for i := 0 to |groups|
      invariant forall j :: 0 <= j < i ==> groups[j].id != id
    {
      if groups[i].id == id { return true; }
    }
    has := false;
  }

  /** The groups whose identities are not named, in order. */
  function Others(groups: seq<Group>, ids: seq<Identity>): (r: seq<Group>)
    ensures |r| <= |groups|
  {
    if groups == [] then []
    else
      var last := groups[|groups| - 1];
      Others(groups[..|groups| - 1], ids) + if last.id in ids then [] else [last]
  }

  lemma {:induction false} OthersAre(groups: seq<Group>, ids: seq<Identity>)
    ensures forall g :: g in Others(groups, ids) <==> g in groups && g.id !in ids
  {
    if groups != [] {
      OthersAre(groups[..|groups| - 1], ids);
      assert groups == groups[..|groups| - 1] + [groups[|groups| - 1]];
    }
  }

  lemma {:induction false} OthersStart(groups: seq<Group>, ids: seq<Identity>)
    ensures Others(groups[..0], ids) == [] && Charges(groups[..0]) == 0
  {
  }

  lemma {:induction false} OthersStep(groups: seq<Group>, i: nat, ids: seq<Identity>)
    requires i < |groups|
    ensures Others(groups[..i + 1], ids) == Others(groups[..i], ids) + if groups[i].id in ids then [] else [groups[i]]
  {
    assert groups[..i + 1][..i] == groups[..i];
  }
}
