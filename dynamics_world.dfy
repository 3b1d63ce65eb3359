/** The bookkeeping of ReactPhysics3D's DynamicsWorld: the ordered registry
    of constraints, the set of rigid bodies and their per-step movement flag,
    the gravity settings, the solver settings the world forwards, and the
    cache of overlapping pairs keyed by body-index pairs.

    The physics itself (integration, gravity arithmetic, contact solving) is
    not part of this model; the collaborators whose bodies are not part of it
    (RigidBody, OverlappingPair, ConstraintSolver) are reduced to the one
    field or call the world touches. */
module Dynamics {

  /** The C++ `uint` taken by setNbLCPIterations. */
  newtype uint32 = x: int | 0 <= x < 0x1_0000_0000

  /** The gravity vector; only stored and returned here. */
  datatype Vector3 = Vector3(x: real, y: real, z: real)

  /** The key of the overlapping-pair cache: the indices of the two bodies. */
  type BodyIndexPair = (nat, nat)

  /** A pair of bodies reported by the broad phase. */
  datatype BroadPhasePair = BroadPhasePair(bodiesIndexPair: BodyIndexPair)

  // ---------------------------------------------------------------------
  // The constraint registry as a sequence
  // ---------------------------------------------------------------------

  /** Where std::find stops: the position of the first occurrence of x. */
  function FirstIndex<T(==)>(s: seq<T>, x: T): (k: nat)
    requires x in s
    ensures k < |s| && s[k] == x
    ensures forall i :: 0 <= i < k ==> s[i] != x
  {
    if s[0] == x then 0 else 1 + FirstIndex(s[1..], x)
  }

  /** The registry after erasing the first occurrence of x. */
  function RemoveFirst<T(==)>(s: seq<T>, x: T): (r: seq<T>)
    requires x in s
    ensures |r| == |s| - 1
    ensures multiset(r) == multiset(s) - multiset{x}
  {
    var k := FirstIndex(s, x);
    assert s == s[..k] + [s[k]] + s[k + 1..];
    s[..k] + s[k + 1..]
  }

  /** Erasing puts nothing out of order: putting x back where it was found
      restores the registry exactly. */
  lemma RemoveFirstReinsert<T>(s: seq<T>, x: T)
    requires x in s
    ensures var k := FirstIndex(s, x);
      k <= |RemoveFirst(s, x)| &&
      RemoveFirst(s, x)[..k] + [x] + RemoveFirst(s, x)[k..] == s
  {
    var k := FirstIndex(s, x);
    var r := RemoveFirst(s, x);
    assert r[..k] == s[..k];
    assert r[k..] == s[k + 1..];
    assert s == s[..k] + [s[k]] + s[k + 1..];
  }

  /** Adding a constraint that was not registered and then removing it
      gives back the registry it was added to. */
  lemma AddThenRemove<T>(s: seq<T>, x: T)
    requires x !in s
    ensures RemoveFirst(s + [x], x) == s
  {
    var t := s + [x];
    assert t[|s|] == x;
    assert FirstIndex(t, x) == |s|;
    assert t[..|s|] == s;
  }

  /** Removing a registered constraint commutes with appending another one:
      the appended constraint stays last and the rest keep their order. */
  lemma RemoveBeforeAppended<T>(s: seq<T>, x: T, y: T)
    requires x in s
    ensures RemoveFirst(s + [y], x) == RemoveFirst(s, x) + [y]
  {
    var t := s + [y];
    var k := FirstIndex(s, x);
    assert t[k] == x;
    assert FirstIndex(t, x) == k;
    assert t[..k] == s[..k];
    assert t[k + 1..] == s[k + 1..] + [y];
  }

  /** A constraint stays registered after its removal exactly when it was
      registered more than once. */
  lemma StillRegistered<T>(s: seq<T>, x: T)
    requires x in s
    ensures x in RemoveFirst(s, x) <==> multiset(s)[x] > 1
  {
    var r := RemoveFirst(s, x);
    assert multiset(r)[x] == multiset(s)[x] - 1;
    assert x in r <==> x in multiset(r);
  }

  // ---------------------------------------------------------------------
  // Collaborators, reduced to what the world uses
  // ---------------------------------------------------------------------

  class RigidBody {
    /** Whether the body moved during the current step. */
    var hasMoved: bool

    constructor(hasMoved: bool)
      ensures this.hasMoved == hasMoved
    {
      this.hasMoved := hasMoved;
    }

    method SetHasMoved(hasMoved: bool)
      modifies this
      ensures this.hasMoved == hasMoved
    {
      this.hasMoved := hasMoved;
    }
  }

  class Constraint {
    constructor()
    {
    }
  }

  class OverlappingPair {
    /** How many times the contact cache has been refreshed. */
    var nbUpdates: nat

    constructor()
      ensures nbUpdates == 0
    {
      nbUpdates := 0;
    }

    /** Refreshes the contact cache of the pair. */
    method Update()
      modifies this
      ensures nbUpdates == old(nbUpdates) + 1
    {
      nbUpdates := nbUpdates + 1;
    }
  }

  class ConstraintSolver {
    var nbLCPIterations: uint32
    var isErrorCorrectionActive: bool

    constructor(nbLCPIterations: uint32, isErrorCorrectionActive: bool)
      ensures this.nbLCPIterations == nbLCPIterations
      ensures this.isErrorCorrectionActive == isErrorCorrectionActive
    {
      this.nbLCPIterations := nbLCPIterations;
      this.isErrorCorrectionActive := isErrorCorrectionActive;
    }

    method SetNbLCPIterations(nbIterations: uint32)
      modifies this
      ensures nbLCPIterations == nbIterations
      ensures isErrorCorrectionActive == old(isErrorCorrectionActive)
    {
      nbLCPIterations := nbIterations;
    }

    method SetIsErrorCorrectionActive(isErrorCorrectionActive: bool)
      modifies this
      ensures this.isErrorCorrectionActive == isErrorCorrectionActive
      ensures nbLCPIterations == old(nbLCPIterations)
    {
      this.isErrorCorrectionActive := isErrorCorrectionActive;
    }
  }

  // ---------------------------------------------------------------------
  // The world
  // ---------------------------------------------------------------------

  class DynamicsWorld {
    const constraintSolver: ConstraintSolver
    var isDeactivationActive: bool
    var rigidBodies: set<RigidBody>
    var constraints: seq<Constraint>
    var gravity: Vector3
    var isGravityOn: bool
    var overlappingPairs: map<BodyIndexPair, OverlappingPair>
    /** The constraints whose memory removeConstraint has freed. */
    ghost var deleted: set<Constraint>

    /** No registered constraint has been freed. */
    ghost predicate NoDangling()
      reads this
    {
      forall c :: c in constraints ==> c !in deleted
    }

    /** The settings the constructor chooses are parameters here. The world
        owns its solver, a by-value member in the C++. */
    constructor(gravity: Vector3, isGravityOn: bool, isDeactivationActive: bool,
                nbLCPIterations: uint32, isErrorCorrectionActive: bool)
      ensures this.gravity == gravity && this.isGravityOn == isGravityOn
      ensures this.isDeactivationActive == isDeactivationActive
      ensures fresh(constraintSolver)
      ensures constraintSolver.nbLCPIterations == nbLCPIterations
      ensures constraintSolver.isErrorCorrectionActive == isErrorCorrectionActive
      ensures constraints == [] && rigidBodies == {} && overlappingPairs == map[]
      ensures deleted == {} && NoDangling()
    {
      constraintSolver := new ConstraintSolver(nbLCPIterations, isErrorCorrectionActive);
      this.isDeactivationActive := isDeactivationActive;
      rigidBodies := {};
      constraints := [];
      this.gravity := gravity;
      this.isGravityOn := isGravityOn;
      overlappingPairs := map[];
      deleted := {};
    }

    /** setNbLCPIterations: forwards the count to the solver. */
    method SetNbLCPIterations(nbIterations: uint32)
      modifies constraintSolver
      ensures constraintSolver.nbLCPIterations == nbIterations
      ensures constraintSolver.isErrorCorrectionActive == old(constraintSolver.isErrorCorrectionActive)
    {
      constraintSolver.SetNbLCPIterations(nbIterations);
    }

    /** setIsErrorCorrectionActive: forwards the flag to the solver. */
    method SetIsErrorCorrectionActive(isErrorCorrectionActive: bool)
      modifies constraintSolver
      ensures constraintSolver.isErrorCorrectionActive == isErrorCorrectionActive
      ensures constraintSolver.nbLCPIterations == old(constraintSolver.nbLCPIterations)
    {
      constraintSolver.SetIsErrorCorrectionActive(isErrorCorrectionActive);
    }

    /** resetBodiesMovementVariable: clears hasMoved on every registered
        body, visiting each once; the set of bodies is left as it is. */
    method ResetBodiesMovementVariable()
      modifies rigidBodies
      ensures forall body :: body in rigidBodies ==> !body.hasMoved
    {
      var remaining := rigidBodies;
      while remaining != {}
        invariant remaining <= rigidBodies
        invariant forall body :: body in rigidBodies && body !in remaining ==> !body.hasMoved
        decreases |remaining|
      {
        var body :| body in remaining;
        body.SetHasMoved(false);
        remaining := remaining - {body};
      }
    }

    /** updateOverlappingPair: refreshes the cached pair stored under the
        broad-phase pair's body-index pair, and no other. The key must be
        present: the map's operator[] would otherwise insert a null pair and
        call update() on it. */
    method UpdateOverlappingPair(pair: BroadPhasePair)
      requires pair.bodiesIndexPair in overlappingPairs
      modifies overlappingPairs[pair.bodiesIndexPair]
      ensures overlappingPairs[pair.bodiesIndexPair].nbUpdates
        == old(overlappingPairs[pair.bodiesIndexPair].nbUpdates) + 1
    {
      var indexPair := pair.bodiesIndexPair;
      var overlappingPair := overlappingPairs[indexPair];
      overlappingPair.Update();
    }

    /** addConstraint: appends the constraint at the end of the registry.
        The C++ assert that it is not null is the type Constraint here. */
    method AddConstraint(constraint: Constraint)
      modifies this
      ensures constraints == old(constraints) + [constraint]
      ensures rigidBodies == old(rigidBodies) && overlappingPairs == old(overlappingPairs)
      ensures gravity == old(gravity) && isGravityOn == old(isGravityOn)
      ensures isDeactivationActive == old(isDeactivationActive) && deleted == old(deleted)
      ensures old(NoDangling()) && constraint !in deleted ==> NoDangling()
    {
      constraints := constraints + [constraint];
    }

    /** removeConstraint: the constraint must be registered (asserted in the
        C++) and not yet freed, since a second `delete` of it is undefined
        behaviour; the first occurrence is found, its memory freed and it is
        erased, the others keeping their order. A constraint registered twice
        stays in the registry, freed. */
    method RemoveConstraint(constraint: Constraint)
      requires constraint in constraints && constraint !in deleted
      modifies this
      ensures constraints == RemoveFirst(old(constraints), constraint)
      ensures deleted == old(deleted) + {constraint}
      ensures rigidBodies == old(rigidBodies) && overlappingPairs == old(overlappingPairs)
      ensures gravity == old(gravity) && isGravityOn == old(isGravityOn)
      ensures isDeactivationActive == old(isDeactivationActive)
      ensures old(NoDangling()) ==> (NoDangling() <==> multiset(old(constraints))[constraint] == 1)
    {
      var k := FindConstraint(constraint);
      StillRegistered(constraints, constraint);
      deleted := deleted + {constraint};
      constraints := constraints[..k] + constraints[k + 1..];
    }

    /** std::find over the registry: the position of the first occurrence. */
    method FindConstraint(constraint: Constraint) returns (k: nat)
      requires constraint in constraints
      ensures k == FirstIndex(constraints, constraint)
    {
      k := 0;
      while constraints[k] != constraint
        invariant k < |constraints| && constraint in constraints[k..]
        invariant forall i :: 0 <= i < k ==> constraints[i] != constraint
        decreases |constraints| - k
      {
        assert constraints[k..] == [constraints[k]] + constraints[k + 1..];
        k := k + 1;
      }
      var first := FirstIndex(constraints, constraint);
      assert !(first < k) && !(k < first);
    }

    /** getGravity. */
    method GetGravity() returns (g: Vector3)
      ensures g == gravity
    {
      g := gravity;
    }

    /** getIsGravityOn. */
    method GetIsGravityOn() returns (on: bool)
      ensures on == isGravityOn
    {
      on := isGravityOn;
    }

    /** setIsGratityOn (so spelled in the C++): stores the flag and nothing
        else. */
    method SetIsGravityOn(isGravityOn: bool)
      modifies this
      ensures this.isGravityOn == isGravityOn
      ensures gravity == old(gravity) && constraints == old(constraints)
      ensures rigidBodies == old(rigidBodies) && overlappingPairs == old(overlappingPairs)
      ensures isDeactivationActive == old(isDeactivationActive) && deleted == old(deleted)
    {
      this.isGravityOn := isGravityOn;
    }

    /** getConstraintsBeginIterator / getConstraintsEndIterator: the range
        they delimit, in registry order. */
    method GetConstraints() returns (range: seq<Constraint>)
      ensures range == constraints
    {
      range := constraints;
    }

    /** getRigidBodiesBeginIterator / getRigidBodiesEndIterator: the bodies
        they range over, each once. */
    method GetRigidBodies() returns (range: set<RigidBody>)
      ensures range == rigidBodies
    {
      range := rigidBodies;
    }
  }
}
