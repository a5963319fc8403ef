/** Actors, identities and the few generic types shared by every component. */
module Ids {

  datatype Option<+T> = None | Some(value: T)

  const U32: nat := 0x1_0000_0000
  const U64: nat := 0x1_0000_0000_0000_0000
  const U128: nat := 0x1_0000_0000_0000_0000_0000_0000_0000_0000

  /** Sixteen bytes, read as one big-endian number: comparing the bytes
      lexicographically is comparing the numbers. */
  type ActorId = a: nat | a < U128

  /** The all-zero actor is the absence of an actor. */
  predicate ValidActor(a: ActorId) {
    a != 0
  }

  /** One item or one operation: an actor and that actor's counter. */
  datatype Identity = Identity(actor: ActorId, counter: nat)

  /** An identity of an item or an operation. */
  predicate Usable(id: Identity) {
    ValidActor(id.actor) && id.counter > 0
  }

  /** An identity that may be stored or sent: the largest counter is never issued. */
  predicate Issuable(id: Identity) {
    Usable(id) && id.counter < U64 - 1
  }

  /** The total order on identities: counter first, then actor. */
  predicate IdLess(a: Identity, b: Identity) {
    a.counter < b.counter || (a.counter == b.counter && a.actor < b.actor)
  }
}
