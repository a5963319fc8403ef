/** Version vectors as values: how far each actor has been observed. Absence is
    zero coverage, and a zero component is never carried. */
module VersionVectors {
  import opened Ids

  type Positive = n: nat | n > 0 witness 1

  type Version = map<ActorId, Positive>

  function Get(v: Version, a: ActorId): nat {
    if a in v then v[a] else 0
  }

  predicate Observed(v: Version, id: Identity) {
    Get(v, id.actor) >= id.counter
  }

  /** Counter 0 is the "unseen" sentinel, not an identity. */
  function Observe(v: Version, id: Identity): (r: Version)
    ensures forall a :: Get(r, a) == if a == id.actor && Get(v, a) < id.counter then id.counter else Get(v, a)
  {
    if Get(v, id.actor) < id.counter then v[id.actor := id.counter] else v
  }

  /** `v` covers `w`: every component of `w` is observed. */
  predicate Covers(v: Version, w: Version) {
    forall a :: a in w ==> Get(v, a) >= w[a]
  }

  lemma CoversPointwise(v: Version, w: Version)
    ensures Covers(v, w) <==> forall a :: Get(v, a) >= Get(w, a)
  {
    if Covers(v, w) {
      forall a ensures Get(v, a) >= Get(w, a) {}
    } else {
      var a :| a in w && Get(v, a) < w[a];
      assert !(Get(v, a) >= Get(w, a));
    }
  }

  function Max(a: nat, b: nat): nat { if a < b then b else a }

  function Min(a: nat, b: nat): nat { if a < b then a else b }

  function Join(v: Version, w: Version): (r: Version)
    ensures forall a :: Get(r, a) == Max(Get(v, a), Get(w, a))
  {
    map a | a in v.Keys + w.Keys :: Max(Get(v, a), Get(w, a))
  }

  /** Pointwise minimum, absent counting as zero. */
  function Meet(v: Version, w: Version): (r: Version)
    ensures forall a :: Get(r, a) == Min(Get(v, a), Get(w, a))
  {
    map a | a in v && a in w :: Min(v[a], w[a])
  }

  /** Two vectors with the same components are the same vector. */
  lemma Extensional(v: Version, w: Version)
    requires forall a :: Get(v, a) == Get(w, a)
    ensures v == w
  {
    assert forall a :: (a in v <==> Get(v, a) > 0) && (a in w <==> Get(w, a) > 0);
    assert v.Keys == w.Keys;
  }

  // ---- The lattice -------------------------------------------------------

  lemma CoversIsOrder(u: Version, v: Version, w: Version)
    ensures Covers(v, v)
    ensures Covers(u, v) && Covers(v, w) ==> Covers(u, w)
    ensures Covers(v, w) && Covers(w, v) ==> v == w
  {
    CoversPointwise(u, v);
    CoversPointwise(v, w);
    CoversPointwise(u, w);
    CoversPointwise(w, v);
    if Covers(v, w) && Covers(w, v) {
      Extensional(v, w);
    }
  }

  lemma JoinIsLeastUpperBound(v: Version, w: Version, u: Version)
    ensures Covers(Join(v, w), v) && Covers(Join(v, w), w)
    ensures Covers(u, v) && Covers(u, w) <==> Covers(u, Join(v, w))
  {
    var j := Join(v, w);
    assert forall a :: a in j <==> a in v || a in w;
    if Covers(u, j) {
      forall a | a in v ensures Get(u, a) >= v[a] { assert Get(u, a) >= j[a]; }
      forall a | a in w ensures Get(u, a) >= w[a] { assert Get(u, a) >= j[a]; }
    }
  }

  lemma MeetIsGreatestLowerBound(v: Version, w: Version, u: Version)
    ensures Covers(v, Meet(v, w)) && Covers(w, Meet(v, w))
    ensures Covers(v, u) && Covers(w, u) <==> Covers(Meet(v, w), u)
  {
    var m := Meet(v, w);
    if Covers(m, u) {
      forall a | a in u ensures Get(v, a) >= u[a] && Get(w, a) >= u[a] { assert Get(m, a) >= u[a]; }
    }
    if Covers(v, u) && Covers(w, u) {
      forall a | a in u ensures Get(m, a) >= u[a] { assert Get(v, a) >= u[a] && Get(w, a) >= u[a]; }
    }
  }

  /** Absorption ties the two together: this is a lattice. */
  lemma Absorption(v: Version, w: Version)
    ensures Join(v, Meet(v, w)) == v
    ensures Meet(v, Join(v, w)) == v
  {
    Extensional(Join(v, Meet(v, w)), v);
    Extensional(Meet(v, Join(v, w)), v);
  }
}
