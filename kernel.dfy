/**
 * The entity base of ContactManagement.Shared.Kernel: an identifier, creation
 * and update timestamps, and a two-state soft-delete machine.
 *
 * `Guid.NewGuid()` is the counter `IdSource`, and `DateTime.UtcNow` is a clock
 * reading `now` that the caller passes in.
 */
module Kernel {
  import opened Wrappers

  /** A Guid, as a number; 0 plays `Guid.Empty`. */
  type Guid = nat
  const EmptyGuid: Guid := 0

  /** A `DateTime` clock reading. */
  type Time = int

  /** The persisted fields of an entity. */
  datatype EntityState = EntityState(
    id: Guid,
    createdAt: Time,
    updatedAt: Time,
    isDeleted: bool,
    deletedAt: Option<Time>)
  {
    /** The lifecycle invariant: deleted exactly when a deletion time is recorded. */
    predicate Consistent() {
      isDeleted <==> deletedAt.Some?
    }
  }

  /** The state the constructor establishes. */
  function Created(id: Guid, now: Time): (s: EntityState)
    ensures s.id == id && s.createdAt == now && s.updatedAt == now
    ensures !s.isDeleted && s.deletedAt == None && s.Consistent()
  {
    EntityState(id, now, now, false, None)
  }

  /** `UpdateTimestamps`: only `UpdatedAt` moves. */
  function Touched(s: EntityState, now: Time): (r: EntityState)
    ensures r.updatedAt == now
    ensures r.id == s.id && r.createdAt == s.createdAt
    ensures r.isDeleted == s.isDeleted && r.deletedAt == s.deletedAt
  {
    s.(updatedAt := now)
  }

  /** `SoftDelete`: marks a live entity deleted at `now`; a deleted one is left alone. */
  function SoftDeleted(s: EntityState, now: Time): (r: EntityState)
    ensures r.isDeleted
    ensures r.id == s.id && r.createdAt == s.createdAt
    ensures s.isDeleted ==> r == s
    ensures !s.isDeleted ==> r.deletedAt == Some(now) && r.updatedAt == now
  {
    if !s.isDeleted then s.(isDeleted := true, deletedAt := Some(now), updatedAt := now) else s
  }

  /** `Restore`: revives a deleted entity at `now`; a live one is left alone. */
  function Restored(s: EntityState, now: Time): (r: EntityState)
    ensures !r.isDeleted
    ensures r.id == s.id && r.createdAt == s.createdAt
    ensures !s.isDeleted ==> r == s
    ensures s.isDeleted ==> r.deletedAt == None && r.updatedAt == now
  {
    if s.isDeleted then s.(isDeleted := false, deletedAt := None, updatedAt := now) else s
  }

  /** The lifecycle operations keep the invariant. */
  lemma LifecyclePreservesConsistency(s: EntityState, now: Time)
    requires s.Consistent()
    ensures Touched(s, now).Consistent()
    ensures SoftDeleted(s, now).Consistent()
    ensures Restored(s, now).Consistent()
  {
  }

  /** A second soft delete changes nothing, not even `DeletedAt`. */
  lemma SoftDeleteIdempotent(s: EntityState, t1: Time, t2: Time)
    ensures SoftDeleted(SoftDeleted(s, t1), t2) == SoftDeleted(s, t1)
  {
  }

  /** A second restore changes nothing. */
  lemma RestoreIdempotent(s: EntityState, t1: Time, t2: Time)
    ensures Restored(Restored(s, t1), t2) == Restored(s, t1)
  {
  }

  /** Restoring a soft-deleted live entity gives it back, with only `UpdatedAt` moved. */
  lemma RestoreUndoesSoftDelete(s: EntityState, t1: Time, t2: Time)
    requires s.Consistent() && !s.isDeleted
    ensures Restored(SoftDeleted(s, t1), t2) == Touched(s, t2)
  {
  }

  /** `Guid.GetHashCode`: some function of the identifier alone. */
  function GuidHash(g: Guid): int {
    g
  }

  /** The source of fresh identifiers (`Guid.NewGuid`): a counter that never yields `Guid.Empty`. */
  class IdSource {
    var next: Guid

    predicate Valid()
      reads this
    {
      next != EmptyGuid
    }

    constructor ()
      ensures Valid() && next == 1
    {
      next := 1;
    }

    method NewGuid() returns (g: Guid)
      requires Valid()
      modifies this
      ensures Valid()
      ensures g == old(next) && g != EmptyGuid && next == old(next) + 1
    {
      g := next;
      next := next + 1;
    }
  }

  class Entity {
    const id: Guid
    const createdAt: Time
    var updatedAt: Time
    var isDeleted: bool
    var deletedAt: Option<Time>

    /** The current values of the fields. */
    function State(): (s: EntityState)
      reads this
      ensures s.id == id && s.createdAt == createdAt
    {
      EntityState(id, createdAt, updatedAt, isDeleted, deletedAt)
    }

    /** `new Entity()`: a fresh identifier, both timestamps at `now`, live. */
    constructor (id: Guid, now: Time)
      requires id != EmptyGuid
      ensures State() == Created(id, now)
    {
      this.id := id;
      this.createdAt := now;
      this.updatedAt := now;
      this.isDeleted := false;
      this.deletedAt := None;
    }

    /** Materialization of a stored row (the object-relational mapper sets the private fields). */
    constructor Load(s: EntityState)
      ensures State() == s
    {
      this.id := s.id;
      this.createdAt := s.createdAt;
      this.updatedAt := s.updatedAt;
      this.isDeleted := s.isDeleted;
      this.deletedAt := s.deletedAt;
    }

    method UpdateTimestamps(now: Time)
      modifies this
      ensures State() == Touched(old(State()), now)
    {
      updatedAt := now;
    }

    method SoftDelete(now: Time)
      modifies this
      ensures State() == SoftDeleted(old(State()), now)
    {
      if !isDeleted {
        isDeleted := true;
        deletedAt := Some(now);
        UpdateTimestamps(now);
      }
    }

    method Restore(now: Time)
      modifies this
      ensures State() == Restored(old(State()), now)
    {
      if isDeleted {
        isDeleted := false;
        deletedAt := None;
        UpdateTimestamps(now);
      }
    }

    /** `Equals(Entity? other)`: by identifier only. */
    predicate Equals(other: Entity?)
    {
      other != null && id == other.id
    }

    function GetHashCode(): int
    {
      GuidHash(id)
    }
  }

  /** `operator ==`: the same reference, or two non-null entities with equal identifiers. */
  predicate OpEquals(left: Entity?, right: Entity?)
  {
    if left == right then true
    else if left == null || right == null then false
    else left.Equals(right)
  }

  predicate OpNotEquals(left: Entity?, right: Entity?)
  {
    !OpEquals(left, right)
  }

  /** `IdComparer.Equals`. */
  predicate IdComparerEquals(x: Entity?, y: Entity?)
  {
    if x == y then true
    else if x == null || y == null then false
    else x.id == y.id
  }

  /** `IdComparer.GetHashCode`. */
  function IdComparerHash(obj: Entity): int
  {
    GuidHash(obj.id)
  }

  /** Equality is identifier equality; the reference shortcut agrees with it. */
  lemma EqualityIsIdEquality(left: Entity?, right: Entity?)
    ensures OpEquals(left, right) <==>
            (left == null && right == null) || (left != null && right != null && left.id == right.id)
    ensures OpNotEquals(left, right) <==> !OpEquals(left, right)
    ensures IdComparerEquals(left, right) <==> OpEquals(left, right)
  {
  }

  /** Equal entities hash alike, under both hash functions. */
  lemma HashConsistentWithEquality(a: Entity, b: Entity)
    requires OpEquals(a, b)
    ensures a.GetHashCode() == b.GetHashCode()
    ensures IdComparerHash(a) == IdComparerHash(b)
    ensures a.GetHashCode() == IdComparerHash(a)
  {
  }

  /** Two entities built from two draws of the same identifier source are unequal. */
  method TwoNewEntitiesAreUnequal(ids: IdSource, now: Time) returns (a: Entity, b: Entity)
    requires ids.Valid()
    modifies ids
    ensures ids.Valid() && ids.next == old(ids.next) + 2
    ensures OpNotEquals(a, b) && !a.Equals(b)
    ensures !a.isDeleted && a.deletedAt == None && !b.isDeleted && b.deletedAt == None
  {
    var g1 := ids.NewGuid();
    a := new Entity(g1, now);
    var g2 := ids.NewGuid();
    b := new Entity(g2, now);
  }
}
