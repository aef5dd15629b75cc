/**
 * ValueBase and ValueSQL of value.hpp: handles that share pointers, of which the non-const one has
 * custody. Copying from a const handle copies the pointer only; copying or assigning from any other
 * handle moves the custody. The class shows the field updates, the state machine below runs any
 * number of handles.
 */
module Handles {
  import opened Wrappers

  const SQLITE_TEXT := 3
  const SQLITE_BLOB := 4
  const SQLITE_NULL := 5
  const SQLITE_BLOBX := 20

  /** The union: all zero bits, a number, or the address of a memory block. */
  datatype Field = Zero | Number(bits: int) | Pointer(block: nat)

  datatype Val = Val(isConst: bool, field: Field, typeId: int) {
    /** This handle has to free its block. */
    predicate Owns() { !isConst && field.Pointer? }

    /** What the destructor of ValueBase asserts, and what assignment asserts of its target. */
    predicate Releasable() { isConst || field == Zero }

    predicate Holds(b: nat) { Owns() && field.block == b }
  }

  const EMPTY := Val(true, Zero, SQLITE_NULL)

  function ConstCopy(other: Val): Val { other.(isConst := true) }

  /** The block that Destroy frees. */
  function Freed(v: Val): Option<nat> {
    if v.Owns() && (v.typeId == SQLITE_TEXT || v.typeId == SQLITE_BLOBX || v.typeId == SQLITE_BLOB)
    then Some(v.field.block) else None
  }

  function Destroyed(v: Val): Val {
    Val(v.isConst, if Freed(v).Some? then Zero else v.field, SQLITE_NULL)
  }

  predicate Detachable(v: Val) {
    v.field != Zero && (v.typeId == SQLITE_TEXT || v.typeId == SQLITE_BLOB || v.typeId == SQLITE_BLOBX)
  }

  /** A const copy sees the same value, and can free nothing. */
  lemma CopyFreesNothing(v: Val)
    ensures var c := ConstCopy(v);
      c.field == v.field && c.typeId == v.typeId && !c.Owns() && c.Releasable() && Freed(c) == None
  {}

  /**
   * Destroy frees the block of an owner whose type has memory: text, array or sqlite3_malloc'ed
   * memory. The handle is NULL then, and a second Destroy frees nothing.
   */
  lemma DestroyedOnce(v: Val)
    ensures forall b: nat :: Freed(v) == Some(b) <==> !v.isConst && v.field == Pointer(b) && v.typeId in {3, 4, 20}
    ensures var d := Destroyed(v);
      && d.typeId == 5 && d.isConst == v.isConst && Freed(d) == None
      && d.field == if Freed(v).Some? then Zero else v.field
    ensures Detachable(v) <==> v.field != Zero && v.typeId in {3, 4, 20}
    ensures EMPTY.typeId == 5 && EMPTY.isConst && EMPTY.field == Zero
  {}

  class ValueSQL {
    var isConst: bool
    var field: Field
    var typeId: int

    function Value(): Val
      reads this
    {
      Val(isConst, field, typeId)
    }

    constructor ()
      ensures Value() == EMPTY
    {
      isConst, field, typeId := true, Zero, SQLITE_NULL;
    }

    /** From a number, a text or a const array: no custody. A text is never freed by a handle. */
    constructor Plain(value: Field, kind: int)
      ensures Value() == Val(true, value, kind)
    {
      isConst, field, typeId := true, value, kind;
    }

    /** From sqlite3_malloc'ed memory (SQLITE_BLOBX) or a non-const array (SQLITE_BLOB). */
    constructor Owner(value: Field, kind: int)
      ensures Value() == Val(false, value, kind)
    {
      isConst, field, typeId := false, value, kind;
    }

    constructor Copy(other: ValueSQL)
      ensures Value() == ConstCopy(other.Value())
    {
      isConst := true;
      field := other.field;
      typeId := other.typeId;
    }

    constructor Move(other: ValueSQL)
      modifies other
      ensures Value() == old(other.Value()) && other.Value() == ConstCopy(old(other.Value()))
    {
      isConst := other.isConst;
      field := other.field;
      typeId := other.typeId;
      new;
      other.isConst := true;
    }

    method AssignConst(other: ValueSQL)
      requires this == other || Value().Releasable()
      modifies this
      ensures Value() == if this == other then old(Value()) else ConstCopy(old(other.Value()))
    {
      if this != other {
        isConst := true;
        field := other.field;
      }
      typeId := other.typeId;
    }

    method AssignMove(other: ValueSQL)
      requires this == other || Value().Releasable()
      modifies this, other
      ensures this == other ==> Value() == old(Value())
      ensures this != other ==> Value() == old(other.Value()) && other.Value() == ConstCopy(old(other.Value()))
    {
      if this != other {
        isConst := other.isConst;
        field := other.field;
        other.isConst := true;
      }
      typeId := other.typeId;
    }

    method Detach() returns (pointer: Field)
      requires Detachable(Value())
      modifies this
      ensures pointer == old(field) && Value() == ConstCopy(old(Value()))
    {
      isConst := true;
      pointer := field;
    }

    method Destroy() returns (freed: seq<nat>)
      modifies this
      ensures Value() == Destroyed(old(Value()))
      ensures freed == match Freed(old(Value())) case None => [] case Some(b) => [b]
    {
      freed := [];
      if !isConst {
        if typeId == SQLITE_TEXT && field.Pointer? {
          freed := freed + [field.block];
          field := Zero;
        }
        if typeId == SQLITE_BLOBX && field.Pointer? {
          freed := freed + [field.block];
          field := Zero;
        }
        if typeId == SQLITE_BLOB && field.Pointer? {
          freed := freed + [field.block];
          field := Zero;
        }
      }
      typeId := SQLITE_NULL;
    }
  }

  // ----- Any number of handles -------------------------------------------------------------------

  /** The handles in use, the blocks given to owning handles so far, and what became of them. */
  datatype World = World(handles: map<nat, Val>, given: set<nat>, detached: set<nat>, freed: seq<nat>)

  datatype Op =
    | Create(h: nat)
    | CreatePlain(h: nat, field: Field, typeId: int)
    | CreateOwner(h: nat, block: Option<nat>, typeId: int)
    | CopyConst(h: nat, other: nat)
    | MoveNew(h: nat, other: nat)
    | AssignConst(h: nat, other: nat)
    | AssignMove(h: nat, other: nat)
    | Detach(h: nat)
    | Destroy(h: nat)
    | Drop(h: nat)  // the destructor: Destroy, then the end of the handle

  /** New handles are new, owned blocks are fresh memory, and the source's assertions hold. */
  predicate Enabled(w: World, op: Op) {
    match op
    case Create(h) => h !in w.handles
    case CreatePlain(h, field, typeId) => h !in w.handles
    case CreateOwner(h, block, typeId) =>
      h !in w.handles && (typeId == SQLITE_BLOB || typeId == SQLITE_BLOBX) && (block.Some? ==> block.value !in w.given)
    case CopyConst(h, other) => h !in w.handles && other in w.handles
    case MoveNew(h, other) => h !in w.handles && other in w.handles
    case AssignConst(h, other) =>
      h in w.handles && other in w.handles && (h == other || w.handles[h].Releasable())
    case AssignMove(h, other) =>
      h in w.handles && other in w.handles && (h == other || w.handles[h].Releasable())
    case Detach(h) => h in w.handles && Detachable(w.handles[h])
    case Destroy(h) => h in w.handles
    case Drop(h) => h in w.handles
  }

  function AfterDestroy(w: World, h: nat): World
    requires h in w.handles
  {
    var v := w.handles[h];
    w.(handles := w.handles[h := Destroyed(v)],
       freed := w.freed + match Freed(v) case None => [] case Some(b) => [b])
  }

  function Apply(w: World, op: Op): World
    requires Enabled(w, op)
  {
    match op
    case Create(h) => w.(handles := w.handles[h := EMPTY])
    case CreatePlain(h, field, typeId) => w.(handles := w.handles[h := Val(true, field, typeId)])
    case CreateOwner(h, block, typeId) =>
      var field := match block case None => Zero case Some(b) => Pointer(b);
      w.(handles := w.handles[h := Val(false, field, typeId)],
         given := w.given + match block case None => {} case Some(b) => {b})
    case CopyConst(h, other) => w.(handles := w.handles[h := ConstCopy(w.handles[other])])
    case MoveNew(h, other) =>
      w.(handles := w.handles[h := w.handles[other]][other := ConstCopy(w.handles[other])])
    case AssignConst(h, other) =>
      if h == other then w else w.(handles := w.handles[h := ConstCopy(w.handles[other])])
    case AssignMove(h, other) =>
      if h == other then w
      else w.(handles := w.handles[h := w.handles[other]][other := ConstCopy(w.handles[other])])
    case Detach(h) =>
      var v := w.handles[h];
      w.(handles := w.handles[h := ConstCopy(v)], detached := w.detached + if v.Owns() then {v.field.block} else {})
    case Destroy(h) => AfterDestroy(w, h)
    case Drop(h) => var x := AfterDestroy(w, h); x.(handles := x.handles - {h})
  }

  /** The handles an operation may change. */
  function Touched(op: Op): set<nat> {
    match op
    case MoveNew(h, other) => {h, other}
    case AssignMove(h, other) => {h, other}
    case _ => {op.h}
  }

  /**
   * One operation in terms of what the handles show: copies and assignments show the value of the
   * other handle, a move takes over its custody, Destroy shows NULL, and no third handle changes.
   */
  lemma HandlesAfter(w: World, op: Op)
    requires Enabled(w, op)
    ensures var x := Apply(w, op);
      && (forall k :: k !in Touched(op) ==> (k in x.handles <==> k in w.handles))
      && (forall k :: k !in Touched(op) && k in w.handles ==> x.handles[k] == w.handles[k])
      && (op.Drop? <==> op.h !in x.handles)
    ensures var x := Apply(w, op);
      match op
      case Create(h) => x.handles[h] == EMPTY
      case CreatePlain(h, field, typeId) => x.handles[h] == Val(true, field, typeId)
      case CreateOwner(h, block, typeId) =>
        (forall b: nat :: HoldsAt(x, h, b) <==> block == Some(b)) && x.handles[h].typeId == typeId
      case CopyConst(h, other) => SameValue(x.handles[h], w.handles[other]) && x.handles[h].isConst
      case AssignConst(h, other) => SameValue(x.handles[h], w.handles[other]) && (h != other ==> x.handles[h].isConst)
      case MoveNew(h, other) =>
        x.handles[h] == w.handles[other] && SameValue(x.handles[other], w.handles[other]) && x.handles[other].isConst
      case AssignMove(h, other) =>
        && x.handles[h] == w.handles[other] && SameValue(x.handles[other], w.handles[other])
        && (h != other ==> x.handles[other].isConst)
      case Detach(h) =>
        && SameValue(x.handles[h], w.handles[h]) && x.handles[h].isConst
        && forall b: nat :: b in x.detached <==> b in w.detached || HoldsAt(w, h, b)
      case Destroy(h) => x.handles[h].typeId == 5 && x.freed == w.freed + FreedBy(w.handles[h])
      case Drop(h) => x.freed == w.freed + FreedBy(w.handles[h])
  {}

  predicate SameValue(v: Val, w: Val) { v.field == w.field && v.typeId == w.typeId }

  function FreedBy(v: Val): seq<nat> {
    if !v.isConst && v.field.Pointer? && v.typeId in {3, 4, 20} then [v.field.block] else []
  }

  predicate HoldsAt(w: World, h: nat, b: nat) {
    h in w.handles && w.handles[h].Holds(b)
  }

  ghost predicate Owned(w: World, b: nat) {
    exists h :: HoldsAt(w, h, b)
  }

  /** Only arrays and sqlite3_malloc'ed memory are ever owned. */
  ghost predicate TypesAgree(w: World) {
    forall h :: h in w.handles && !w.handles[h].isConst ==>
      || w.handles[h].field == Zero
      || (w.handles[h].field.Pointer? && w.handles[h].typeId in {SQLITE_BLOB, SQLITE_BLOBX})
  }

  /** No block has two handles that would free it. */
  ghost predicate Exclusive(w: World) {
    forall h, k, b :: HoldsAt(w, h, b) && HoldsAt(w, k, b) ==> h == k
  }

  /** Every block given to a handle is in one place: owned, handed out by Detach, or freed. */
  ghost predicate OnePlace(w: World) {
    && (forall b :: b in w.given <==> (Owned(w, b) || b in w.detached || b in w.freed))
    && (forall b :: Owned(w, b) ==> b !in w.detached && b !in w.freed)
    && (forall b :: b in w.detached ==> b !in w.freed)
  }

  /** Nothing is freed twice. */
  ghost predicate FreedOnce(w: World) {
    forall i, j :: 0 <= i < j < |w.freed| ==> w.freed[i] != w.freed[j]
  }

  ghost predicate Custody(w: World) {
    TypesAgree(w) && Exclusive(w) && OnePlace(w) && FreedOnce(w)
  }

  lemma SameOwners(w: World, x: World)
    requires Custody(w) && TypesAgree(x)
    requires forall h, b :: HoldsAt(x, h, b) == HoldsAt(w, h, b)
    requires x.given == w.given && x.detached == w.detached && x.freed == w.freed
    ensures Custody(x)
  {}

  lemma OwnerMoves(w: World, x: World, h: nat, other: nat)
    requires Custody(w) && TypesAgree(x) && h != other
    requires forall b :: !HoldsAt(w, h, b)
    requires forall k, b :: HoldsAt(x, k, b) == HoldsAt(w, if k == h then other else if k == other then h else k, b)
    requires x.given == w.given && x.detached == w.detached && x.freed == w.freed
    ensures Custody(x)
  {
    forall b ensures Owned(x, b) == Owned(w, b) {
      if k :| HoldsAt(x, k, b) {
        assert HoldsAt(w, if k == h then other else k, b);
      }
      if k :| HoldsAt(w, k, b) {
        assert HoldsAt(x, if k == other then h else k, b);
      }
    }
  }

  lemma OwnerGains(w: World, x: World, h: nat, block: nat)
    requires Custody(w) && TypesAgree(x) && h !in w.handles && block !in w.given
    requires forall k, b :: HoldsAt(x, k, b) == (if k == h then b == block else HoldsAt(w, k, b))
    requires x.given == w.given + {block} && x.detached == w.detached && x.freed == w.freed
    ensures Custody(x)
  {
    assert HoldsAt(x, h, block);
    forall b ensures Owned(x, b) == (Owned(w, b) || b == block) {
      if k :| HoldsAt(x, k, b) {
        assert k == h || HoldsAt(w, k, b);
      }
      if k :| HoldsAt(w, k, b) {
        assert HoldsAt(x, k, b);
      }
    }
    assert forall k :: HoldsAt(w, k, block) ==> Owned(w, block);
  }

  /** h stops owning block: it was handed out, or freed. */
  lemma OwnerLoses(w: World, x: World, h: nat, block: nat, handedOut: bool)
    requires Custody(w) && TypesAgree(x) && HoldsAt(w, h, block)
    requires forall k, b :: HoldsAt(x, k, b) == (k != h && HoldsAt(w, k, b))
    requires x.given == w.given
    requires x.detached == w.detached + (if handedOut then {block} else {})
    requires x.freed == w.freed + (if handedOut then [] else [block])
    ensures Custody(x)
  {
    assert Owned(w, block);
    forall b ensures Owned(x, b) == (Owned(w, b) && b != block) {
      if k :| HoldsAt(x, k, b) {
        assert HoldsAt(w, k, b);
      }
      if k :| HoldsAt(w, k, b) {
        assert b != block ==> k != h && HoldsAt(x, k, b);
      }
    }
  }

  lemma StepKeepsCustody(w: World, op: Op)
    requires Custody(w) && Enabled(w, op)
    ensures Custody(Apply(w, op))
  {
    var x := Apply(w, op);
    match op {
      case Create(_) => SameOwners(w, x);
      case CreatePlain(_, _, _) => SameOwners(w, x);
      case CreateOwner(h, block, _) =>
        if block.Some? {
          OwnerGains(w, x, h, block.value);
        } else {
          SameOwners(w, x);
        }
      case CopyConst(_, _) => SameOwners(w, x);
      case AssignConst(_, _) => SameOwners(w, x);
      case MoveNew(h, other) => OwnerMoves(w, x, h, other);
      case AssignMove(h, other) =>
        if h == other {
          SameOwners(w, x);
        } else {
          OwnerMoves(w, x, h, other);
        }
      case Detach(h) =>
        if w.handles[h].Owns() {
          OwnerLoses(w, x, h, w.handles[h].field.block, true);
        } else {
          SameOwners(w, x);
        }
      case Destroy(h) => DestroyKeepsCustody(w, x, h);
      case Drop(h) => DestroyKeepsCustody(w, x, h);
    }
  }

  lemma DestroyKeepsCustody(w: World, x: World, h: nat)
    requires Custody(w) && h in w.handles
    requires var y := AfterDestroy(w, h); x == y || x == y.(handles := y.handles - {h})
    ensures Custody(x)
  {
    if w.handles[h].Owns() {
      OwnerLoses(w, x, h, w.handles[h].field.block, false);
    } else {
      SameOwners(w, x);
    }
  }

  // ----- Whole runs --------------------------------------------------------------------------------

  const START := World(map[], {}, {}, [])

  predicate Runs(w: World, ops: seq<Op>)
    decreases |ops|
  {
    ops != [] ==> Enabled(w, ops[0]) && Runs(Apply(w, ops[0]), ops[1..])
  }

  function Run(w: World, ops: seq<Op>): World
    requires Runs(w, ops)
    decreases |ops|
  {
    if ops == [] then w else Run(Apply(w, ops[0]), ops[1..])
  }

  /** Custody holds after every run that respects the assertions. */
  lemma {:induction false} RunKeepsCustody(w: World, ops: seq<Op>)
    requires Custody(w) && Runs(w, ops)
    ensures Custody(Run(w, ops))
    decreases |ops|
  {
    if ops != [] {
      StepKeepsCustody(w, ops[0]);
      RunKeepsCustody(Apply(w, ops[0]), ops[1..]);
    }
  }

  /**
   * What a run from the start guarantees for each block: one place, at most one owner, at most one
   * free; and for each handle: the assertion of its destructor holds.
   */
  lemma EveryRunIsSafe(ops: seq<Op>, b: nat)
    requires Runs(START, ops)
    ensures var w := Run(START, ops);
      && (b in w.given <==> (Owned(w, b) || b in w.detached || b in w.freed))
      && !(Owned(w, b) && b in w.detached) && !(Owned(w, b) && b in w.freed) && !(b in w.detached && b in w.freed)
      && (forall h, k :: HoldsAt(w, h, b) && HoldsAt(w, k, b) ==> h == k)
      && multiset(w.freed)[b] <= 1
      && forall h :: h in w.handles ==> Destroyed(w.handles[h]).Releasable()
  {
    var w := Run(START, ops);
    assert Custody(START);
    RunKeepsCustody(START, ops);
    CountOnce(w.freed, b);
  }

  lemma {:induction false} CountOnce(s: seq<nat>, b: nat)
    requires forall i, j :: 0 <= i < j < |s| ==> s[i] != s[j]
    ensures multiset(s)[b] <= 1
  {
    if s != [] {
      CountOnce(s[1..], b);
      assert s == [s[0]] + s[1..];
      assert s[0] !in s[1..];
      assert multiset(s) == multiset{s[0]} + multiset(s[1..]);
    }
  }

  /** Without the asserted precondition, assignment loses a block: it is owned by nobody. */
  lemma AssertionIsNeeded(w: World, h: nat, other: nat, b: nat)
    requires Custody(w) && h in w.handles && other in w.handles && h != other
    requires w.handles[h].Holds(b)
    ensures var x := w.(handles := w.handles[h := w.handles[other]][other := ConstCopy(w.handles[other])]);
      b in x.given && !Owned(x, b) && b !in x.detached && b !in x.freed
  {
    var x := w.(handles := w.handles[h := w.handles[other]][other := ConstCopy(w.handles[other])]);
    assert HoldsAt(w, h, b) && Owned(w, b);
    if k :| HoldsAt(x, k, b) {
      assert HoldsAt(w, if k == h then other else k, b);
      assert false;
    }
  }
}
