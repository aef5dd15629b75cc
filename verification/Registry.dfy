/**
 * The user functions of one database: attachMexFunction and closeDb of sql_interface.hpp, and the
 * commands of mksqlite.cpp that lead there. The name map and SQLite's own registrations have to
 * agree, although SQLite may refuse any call.
 */
module Registry {
  datatype Handle = Absent | Function(id: nat) | NotAFunction

  /** The three handles of a MexFunctors object. */
  datatype Functors = Functors(func: Handle, step: Handle, final: Handle) {
    predicate IsEmpty() { func.Absent? && step.Absent? && final.Absent? }

    predicate IsValid() {
      !IsEmpty() && !func.NotAFunction? && !step.NotAFunction? && !final.NotAFunction?
    }
  }

  /** What SQLite keeps of a function: the object it passes back, and which callbacks there are. */
  datatype Registration = Registration(functor: nat, xFunc: bool, xStep: bool, xFinal: bool)

  function RegistrationOf(functor: nat, f: Functors): Registration {
    Registration(functor, !f.func.Absent?, !f.step.Absent?, !f.final.Absent?)
  }

  function Lower(name: string): (s: string)
    ensures |s| == |name|
    ensures forall i :: 0 <= i < |s| ==> !('A' <= s[i] <= 'Z')
  {
    seq(|name|, i requires 0 <= i < |name| =>
      if 'A' <= name[i] <= 'Z' then name[i] - 'A' + 'a' else name[i])
  }

  lemma LowerTwice(name: string)
    ensures Lower(Lower(name)) == Lower(name)
  {}

  // ----- The state machine ---------------------------------------------------------------------

  /**
   * The functor objects are numbered as they are created; functors holds those still alive, and
   * deleted counts how often each was deleted. SQLite does not distinguish upper and lower case.
   */
  datatype World = World(
    isOpen: bool,
    fcnmap: map<string, nat>,
    sqlite: map<string, Registration>,
    functors: map<nat, Functors>,
    deleted: multiset<nat>,
    created: nat)

  const START := World(false, map[], map[], map[], multiset{}, 0)

  datatype Op =
    | Define(name: string, f: Functors, accepts: bool)
    | Close(accepts: bool)
    | Open(accepts: bool)

  predicate Effective(f: Functors, accepts: bool) { accepts && (f.IsEmpty() || f.IsValid()) }

  /** The object the map has for a name. */
  function Registered(fcnmap: map<string, nat>, name: string): set<nat> {
    if name in fcnmap then {fcnmap[name]} else {}
  }

  /** attachMexFunction: an accepted definition replaces what was there, an accepted removal leaves nothing. */
  function Attached(w: World, name: string, f: Functors, accepts: bool): World {
    if !w.isOpen then w
    else if !Effective(f, accepts) then
      w.(created := w.created + 1, deleted := w.deleted + multiset{w.created})
    else if f.IsEmpty() then
      w.(sqlite := w.sqlite - {Lower(name)},
         fcnmap := w.fcnmap - {name},
         functors := w.functors - Registered(w.fcnmap, name),
         deleted := w.deleted + multiset(Registered(w.fcnmap, name)) + multiset{w.created},
         created := w.created + 1)
    else
      w.(sqlite := w.sqlite[Lower(name) := RegistrationOf(w.created, f)],
         fcnmap := w.fcnmap[name := w.created],
         functors := (w.functors - Registered(w.fcnmap, name))[w.created := f],
         deleted := w.deleted + multiset(Registered(w.fcnmap, name)),
         created := w.created + 1)
  }

  /** closeDb: the functors go first, whatever SQLite says then. */
  function Closed(w: World, accepts: bool): World {
    var freed := w.(fcnmap := map[],
                    functors := w.functors - w.fcnmap.Values,
                    deleted := w.deleted + multiset(w.fcnmap.Values));
    if !w.isOpen || accepts then freed.(isOpen := false, sqlite := map[]) else freed
  }

  function Apply(w: World, op: Op): World {
    match op
    case Define(name, f, accepts) => Attached(w, Lower(name), f, accepts)
    case Close(accepts) => Closed(w, accepts)
    case Open(accepts) =>
      var c := Closed(w, accepts);
      if c.isOpen then c else c.(isOpen := true)
  }

  function Run(w: World, ops: seq<Op>): World {
    if ops == [] then w else Apply(Run(w, ops[..|ops| - 1]), ops[|ops| - 1])
  }

  // ----- What every run keeps ------------------------------------------------------------------

  /**
   * Each object ever created is either alive, and then in the map under exactly one name, or was
   * deleted exactly once. What the map says is what SQLite has; what SQLite has beyond that belongs
   * to a deleted object.
   */
  ghost predicate Sound(w: World) {
    && Owned(w)
    && DeletedOnce(w)
    && Mirrored(w)
    && (!w.isOpen ==> w.fcnmap == map[] && w.sqlite == map[])
  }

  /** The live objects are those in the map, each under one name. */
  ghost predicate Owned(w: World) {
    && (forall n, m :: n in w.fcnmap && m in w.fcnmap && n != m ==> w.fcnmap[n] != w.fcnmap[m])
    && (forall n :: n in w.fcnmap ==> w.fcnmap[n] in w.functors)
    && (forall id :: id in w.functors ==> id in w.fcnmap.Values)
  }

  ghost predicate DeletedOnce(w: World) {
    forall id: nat :: w.deleted[id] == if id < w.created && id !in w.functors then 1 else 0
  }

  ghost predicate Mirrored(w: World) {
    && (forall n :: n in w.fcnmap ==>
          n == Lower(n) && n in w.sqlite && w.fcnmap[n] in w.functors && w.functors[w.fcnmap[n]].IsValid()
          && w.sqlite[n] == RegistrationOf(w.fcnmap[n], w.functors[w.fcnmap[n]]))
    && (forall n :: n in w.sqlite && n !in w.fcnmap ==> w.sqlite[n].functor in w.deleted)
    && (forall id :: id in w.functors ==> id < w.created)
  }

  /** Names SQLite still knows although their functors are gone. */
  function Dangling(w: World): set<string> { w.sqlite.Keys - w.fcnmap.Keys }

  /** Map and registrations agree: the same names, each with the same live object. */
  ghost predicate Agree(w: World) {
    && w.sqlite.Keys == w.fcnmap.Keys
    && forall n :: n in w.sqlite ==>
        w.sqlite[n].functor == w.fcnmap[n] && w.sqlite[n].functor in w.functors
  }

  lemma AgreeIffNothingDangles(w: World)
    requires Sound(w)
    ensures Agree(w) <==> Dangling(w) == {}
    ensures Dangling(w) == (set n | n in w.sqlite && w.sqlite[n].functor !in w.functors)
  {
    if Dangling(w) == {} {
      forall n | n in w.sqlite.Keys ensures n in w.fcnmap.Keys {
        assert n !in Dangling(w);
      }
    }
  }

  // Each operation is made of four small ones.

  function Freed(w: World, name: string): World {
    w.(fcnmap := w.fcnmap - {name},
       functors := w.functors - Registered(w.fcnmap, name),
       deleted := w.deleted + multiset(Registered(w.fcnmap, name)))
  }

  function Forgotten(w: World, name: string): World { w.(sqlite := w.sqlite - {name}) }

  function Discarded(w: World): World {
    w.(deleted := w.deleted + multiset{w.created}, created := w.created + 1)
  }

  function Added(w: World, name: string, f: Functors): World {
    w.(sqlite := w.sqlite[name := RegistrationOf(w.created, f)],
       fcnmap := w.fcnmap[name := w.created],
       functors := w.functors[w.created := f],
       created := w.created + 1)
  }

  lemma FreedOwned(w: World, name: string)
    requires Owned(w)
    ensures Owned(Freed(w, name))
  {
    MapWithout(w.fcnmap, name);
  }

  lemma FreedDeletedOnce(w: World, name: string)
    requires Owned(w) && DeletedOnce(w) && forall id :: id in w.functors ==> id < w.created
    ensures DeletedOnce(Freed(w, name))
  {}

  lemma FreedMirrored(w: World, name: string)
    requires Owned(w) && Mirrored(w)
    ensures Mirrored(Freed(w, name))
  {}

  lemma FreedSound(w: World, name: string)
    requires Sound(w)
    ensures Sound(Freed(w, name)) && name !in Freed(w, name).fcnmap
    ensures Freed(w, name).isOpen == w.isOpen
    ensures Freed(w, name).sqlite == w.sqlite && Dangling(Freed(w, name)) - {name} == Dangling(w) - {name}
  {
    FreedOwned(w, name);
    FreedDeletedOnce(w, name);
    FreedMirrored(w, name);
  }

  lemma ForgottenSound(w: World, name: string)
    requires Sound(w) && name !in w.fcnmap
    ensures Sound(Forgotten(w, name)) && Dangling(Forgotten(w, name)) == Dangling(w) - {name}
  {}

  lemma DiscardedSound(w: World)
    requires Sound(w)
    ensures Sound(Discarded(w)) && Dangling(Discarded(w)) == Dangling(w)
  {}

  lemma LiveWasCreated(w: World)
    requires Mirrored(w)
    ensures forall id :: id in w.functors ==> id < w.created
  {}

  lemma AddedOwned(w: World, name: string, f: Functors)
    requires Owned(w) && name !in w.fcnmap && w.created !in w.functors
    ensures Owned(Added(w, name, f))
  {
    var v := Added(w, name, f);
    assert v.fcnmap[name] == w.created;
    forall id | id in v.functors ensures id in v.fcnmap.Values {
      if id != w.created {
        var n :| n in w.fcnmap && w.fcnmap[n] == id;
        assert v.fcnmap[n] == id;
      }
    }
  }

  lemma AddedMirrored(w: World, name: string, f: Functors)
    requires Mirrored(w) && name !in w.fcnmap && name == Lower(name) && f.IsValid()
    ensures Mirrored(Added(w, name, f))
  {}

  lemma AddedSound(w: World, name: string, f: Functors)
    requires Sound(w) && w.isOpen && name !in w.fcnmap && name == Lower(name) && f.IsValid()
    ensures Sound(Added(w, name, f)) && Dangling(Added(w, name, f)) == Dangling(w) - {name}
  {
    hide Owned, Mirrored, Lower;
    assert w.created !in w.functors by { LiveWasCreated(w); }
    AddedOwned(w, name, f);
    AddedMirrored(w, name, f);
  }

  lemma AttachedSound(w: World, name: string, f: Functors, accepts: bool)
    requires Sound(w) && name == Lower(name)
    ensures Sound(Attached(w, name, f, accepts))
    ensures Dangling(Attached(w, name, f, accepts)) ==
      if w.isOpen && Effective(f, accepts) then Dangling(w) - {name} else Dangling(w)
  {
    hide Sound, Dangling, Lower;
    if w.isOpen {
      FreedSound(w, name);
      var u := Freed(w, name);
      if !Effective(f, accepts) {
        DiscardedSound(w);
      } else if f.IsEmpty() {
        ForgottenSound(u, name);
        DiscardedSound(Forgotten(u, name));
        assert Attached(w, name, f, accepts) == Discarded(Forgotten(u, name));
      } else {
        AddedSound(u, name, f);
        assert (w.fcnmap - {name})[name := w.created] == w.fcnmap[name := w.created];
        assert Attached(w, name, f, accepts) == Added(u, name, f);
      }
    }
  }

  lemma MapWithout(m: map<string, nat>, name: string)
    requires forall n, k :: n in m && k in m && n != k ==> m[n] != m[k]
    ensures (m - {name}).Values == m.Values - (if name in m then {m[name]} else {})
  {
    var less := m - {name};
    forall v | v in m.Values - (if name in m then {m[name]} else {}) ensures v in less.Values {
      var n :| n in m && m[n] == v;
      assert n in less && less[n] == v;
    }
  }

  lemma AllFreed(w: World)
    requires Owned(w)
    ensures w.functors.Keys == w.fcnmap.Values && w.functors - w.fcnmap.Values == map[]
  {}

  lemma ClosedDeletedOnce(w: World, accepts: bool)
    requires Owned(w) && DeletedOnce(w) && Mirrored(w)
    ensures DeletedOnce(Closed(w, accepts))
  {}

  lemma ClosedMirrored(w: World, accepts: bool)
    requires Owned(w) && Mirrored(w)
    ensures Mirrored(Closed(w, accepts))
  {}

  lemma ClosedSound(w: World, accepts: bool)
    requires Sound(w)
    ensures Sound(Closed(w, accepts))
    ensures Closed(w, accepts).fcnmap == map[]
    ensures Dangling(Closed(w, accepts)) == if w.isOpen && !accepts then w.sqlite.Keys else {}
  {
    hide DeletedOnce, Mirrored;
    AllFreed(w);
    ClosedDeletedOnce(w, accepts);
    ClosedMirrored(w, accepts);
  }

  /** Whether SQLite refuses to close an open database that has user functions in it. */
  predicate ClosedTooEarly(w: World, op: Op) {
    !op.Define? && w.isOpen && !op.accepts && w.sqlite != map[]
  }

  /**
   * One operation: the invariant is kept, and what dangles is known. An effective definition or
   * removal settles its own name, a completed close settles all of them, and a refused close leaves
   * every name SQLite has.
   */
  lemma ApplySound(w: World, op: Op)
    requires Sound(w)
    ensures Sound(Apply(w, op))
    ensures Dangling(Apply(w, op)) ==
      match op
      case Define(name, f, accepts) =>
        if w.isOpen && Effective(f, accepts) then Dangling(w) - {Lower(name)} else Dangling(w)
      case _ => if w.isOpen && !op.accepts then w.sqlite.Keys else {}
  {
    match op {
      case Define(name, f, accepts) =>
        LowerTwice(name);
        AttachedSound(w, Lower(name), f, accepts);
      case Close(accepts) => ClosedSound(w, accepts);
      case Open(accepts) => ClosedSound(w, accepts);
    }
  }

  /** Over every run, whatever SQLite refuses: no object is lost, and none is deleted twice. */
  lemma {:induction false} RunSound(ops: seq<Op>)
    ensures Sound(Run(START, ops))
  {
    if ops != [] {
      RunSound(ops[..|ops| - 1]);
      ApplySound(Run(START, ops[..|ops| - 1]), ops[|ops| - 1]);
    }
  }

  ghost predicate AgreesUpTo(ops: seq<Op>, k: nat)
    requires k <= |ops|
  {
    forall i :: 0 <= i <= k ==> Agree(Run(START, ops[..i]))
  }

  predicate NoCloseTooEarly(ops: seq<Op>, k: nat)
    requires k <= |ops|
  {
    forall i :: 0 <= i < k ==> !ClosedTooEarly(Run(START, ops[..i]), ops[i])
  }

  lemma AgreeStep(ops: seq<Op>, k: nat)
    requires k < |ops| && Agree(Run(START, ops[..k]))
    ensures Agree(Run(START, ops[..k + 1])) <==> !ClosedTooEarly(Run(START, ops[..k]), ops[k])
  {
    hide Sound, Agree, Apply;
    var w, v := Run(START, ops[..k]), Run(START, ops[..k + 1]);
    assert ops[..k + 1][..k] == ops[..k];
    RunSound(ops[..k]);
    RunSound(ops[..k + 1]);
    ApplySound(w, ops[k]);
    AgreeIffNothingDangles(w);
    AgreeIffNothingDangles(v);
    assert v == Apply(w, ops[k]);
    assert w.sqlite.Keys == {} <==> w.sqlite == map[];
  }

  /**
   * closeDb deletes the functors before it knows whether the database can be closed. So the map and
   * SQLite agree after every operation of a run exactly when no close is refused while there are
   * functions.
   */
  lemma {:induction false} AgreeThroughout(ops: seq<Op>, k: nat)
    requires k <= |ops|
    ensures AgreesUpTo(ops, k) <==> NoCloseTooEarly(ops, k)
  {
    hide Agree, ClosedTooEarly, Run;
    if k == 0 {
      assert Agree(Run(START, ops[..0])) by { NothingYet(ops); }
    } else {
      AgreeThroughout(ops, k - 1);
      if AgreesUpTo(ops, k - 1) {
        AgreeStep(ops, k - 1);
      }
    }
  }

  lemma NothingYet(ops: seq<Op>)
    ensures Agree(Run(START, ops[..0]))
  {
    assert ops[..0] == [];
  }

  /** A refused close really happens to hurt: the function is still known, its object is gone. */
  lemma RefusedCloseDangles()
    ensures var f := Functors(Function(1), Absent, Absent);
      var w := Run(START, [Open(true), Define("f", f, true), Close(false)]);
      "f" in w.sqlite && w.sqlite["f"].functor !in w.functors && !Agree(w)
  {
    var f := Functors(Function(1), Absent, Absent);
    var ops := [Open(true), Define("f", f, true), Close(false)];
    assert ops[..2] == [Open(true), Define("f", f, true)];
    assert ops[..2][..1] == [Open(true)];
    assert [Open(true)][..0] == [];
    assert Lower("f") == "f";
    var w1, w2 := Run(START, [Open(true)]), Run(START, ops[..2]);
    assert w1 == START.(isOpen := true);
    assert w2 == Apply(w1, ops[1]);
    assert w2.fcnmap == map["f" := 0] && w2.sqlite == map["f" := Registration(0, true, false, false)];
    assert 0 in w2.fcnmap.Values by { assert w2.fcnmap["f"] == 0; }
    assert Run(START, ops) == Apply(w2, Close(false));
  }

  // ----- What single operations do ---------------------------------------------------------------

  /** Capital letters become the small ones, everything else stays: names that differ in case are the same name. */
  lemma LowerIs(name: string)
    ensures forall i :: 0 <= i < |name| ==>
      if 'A' <= name[i] <= 'Z' then Lower(name)[i] as int == name[i] as int + 32 else Lower(name)[i] == name[i]
    ensures Lower("MyFUN_1z") == "myfun_1z"
  {}

  /** At least one function handle, and nothing else among the three. */
  lemma ValidMeans(f: Functors)
    ensures f.IsEmpty() <==> f == Functors(Absent, Absent, Absent)
    ensures f.IsValid() <==> (f.func.Function? || f.step.Function? || f.final.Function?)
                             && NotAFunction !in {f.func, f.step, f.final}
  {}

  /** The two worlds say the same about all names but this one. */
  predicate SameButFor(v: World, w: World, name: string) {
    v.fcnmap - {name} == w.fcnmap - {name} && v.sqlite - {name} == w.sqlite - {name}
  }

  lemma FieldsDefined(w: World, n: string, f: Functors)
    requires w.isOpen && f.IsValid() && n == Lower(n)
    ensures var v := Attached(w, n, f, true);
      && n in v.fcnmap && v.fcnmap[n] == w.created && w.created in v.functors && v.functors[w.created] == f
      && n in v.sqlite && v.sqlite[n] == Registration(w.created, f.func.Function?, f.step.Function?, f.final.Function?)
      && SameButFor(v, w, n) && v.isOpen && v.created == w.created + 1
      && v.functors.Keys == w.functors.Keys - Registered(w.fcnmap, n) + {w.created}
  {
    hide Lower;
  }

  lemma FieldsRemoved(w: World, n: string, f: Functors)
    requires w.isOpen && f.IsEmpty() && n == Lower(n)
    ensures var v := Attached(w, n, f, true);
      && n !in v.fcnmap && n !in v.sqlite && SameButFor(v, w, n) && v.isOpen && v.created == w.created + 1
      && v.functors.Keys == w.functors.Keys - Registered(w.fcnmap, n)
  {
    hide Lower;
  }

  /** An object that is not alive any more was deleted, once. */
  lemma GoneIsDeleted(w: World, v: World, id: nat)
    requires Sound(w) && Sound(v) && id in w.functors && w.created <= v.created && id !in v.functors
    ensures v.deleted[id] == 1
  {
    LiveWasCreated(w);
  }

  /**
   * An accepted definition: under its lower-case name, the map has a new live object with these
   * handles, SQLite has the callbacks for those that are there, and the object that was there is gone.
   */
  lemma DefineTakesEffect(w: World, name: string, f: Functors)
    requires Sound(w) && w.isOpen && f.IsValid()
    ensures var v, n := Apply(w, Define(name, f, true)), Lower(name);
      && n in v.fcnmap && v.fcnmap[n] in v.functors && v.fcnmap[n] !in w.functors && v.functors[v.fcnmap[n]] == f
      && n in v.sqlite
      && v.sqlite[n] == Registration(v.fcnmap[n], f.func.Function?, f.step.Function?, f.final.Function?)
      && (n in w.fcnmap ==> w.fcnmap[n] !in v.functors && v.deleted[w.fcnmap[n]] == 1)
      && SameButFor(v, w, n) && v.isOpen
  {
    hide Sound, Lower, Attached, Functors.IsValid, SameButFor;
    LowerTwice(name);
    MapIsLive(w);
    ApplySound(w, Define(name, f, true));
    FieldsDefined(w, Lower(name), f);
    if Lower(name) in w.fcnmap {
      GoneIsDeleted(w, Apply(w, Define(name, f, true)), w.fcnmap[Lower(name)]);
    }
  }

  /** An accepted removal: neither the map nor SQLite has the name, and the object is gone. */
  lemma RemovalTakesEffect(w: World, name: string)
    requires Sound(w) && w.isOpen
    ensures var v, n := Apply(w, Define(name, Functors(Absent, Absent, Absent), true)), Lower(name);
      && n !in v.fcnmap && n !in v.sqlite
      && (n in w.fcnmap ==> w.fcnmap[n] !in v.functors && v.deleted[w.fcnmap[n]] == 1)
      && SameButFor(v, w, n) && v.isOpen
  {
    hide Sound, Lower, Attached, SameButFor;
    var f := Functors(Absent, Absent, Absent);
    LowerTwice(name);
    MapIsLive(w);
    ApplySound(w, Define(name, f, true));
    FieldsRemoved(w, Lower(name), f);
    if Lower(name) in w.fcnmap {
      GoneIsDeleted(w, Apply(w, Define(name, f, true)), w.fcnmap[Lower(name)]);
    }
  }

  /** A definition that SQLite refuses, or with a handle that is none, changes nothing. */
  lemma RefusalChangesNothing(w: World, name: string, f: Functors, accepts: bool)
    requires Sound(w) && (!accepts || !w.isOpen || NotAFunction in {f.func, f.step, f.final})
    ensures var v := Apply(w, Define(name, f, accepts));
      v.isOpen == w.isOpen && v.fcnmap == w.fcnmap && v.sqlite == w.sqlite && v.functors == w.functors
  {}

  /** A close that SQLite completes leaves nothing; a refused one leaves the registrations, but no objects. */
  lemma CloseTakesEffect(w: World, accepts: bool)
    requires Sound(w)
    ensures var v := Apply(w, Close(accepts));
      && v.fcnmap == map[] && v.functors == map[]
      && (forall id :: id in w.functors ==> v.deleted[id] == 1)
      && (v.isOpen <==> w.isOpen && !accepts)
      && v.sqlite == if v.isOpen then w.sqlite else map[]
    ensures var v := Apply(w, Open(accepts));
      && v.isOpen && v.fcnmap == map[] && v.functors == map[]
      && v.sqlite == if w.isOpen && !accepts then w.sqlite else map[]
  {
    hide Sound, Owned;
    MapIsLive(w);
    AllFreed(w);
    ApplySound(w, Close(accepts));
    var v := Apply(w, Close(accepts));
    forall id | id in w.functors ensures v.deleted[id] == 1 {
      GoneIsDeleted(w, v, id);
    }
  }

  lemma MapIsLive(w: World)
    requires Sound(w)
    ensures Owned(w)
    ensures forall n :: n in w.fcnmap ==> w.fcnmap[n] in w.functors && w.fcnmap[n] < w.created
    ensures w.created !in w.functors
  {}

  lemma OwnedMeans(w: World)
    requires Owned(w)
    ensures forall n, m :: n in w.fcnmap && m in w.fcnmap && n != m ==> w.fcnmap[n] != w.fcnmap[m]
    ensures forall n :: n in w.fcnmap ==> w.fcnmap[n] in w.functors
  {}

  lemma DeletedOneMore(functors: map<nat, Functors>, freed: set<nat>, fcn: nat)
    requires fcn !in freed
    ensures functors - freed - {fcn} == functors - (freed + {fcn})
    ensures multiset(freed + {fcn}) == multiset(freed) + multiset{fcn}
  {}

  lemma RegisteredIsLive(w: World, name: string)
    requires Sound(w)
    ensures w.created !in Registered(w.fcnmap, name)
  {}

  lemma NothingAttached(w: World, name: string, f: Functors, accepts: bool)
    requires !w.isOpen
    ensures Attached(w, name, f, accepts) == w
  {}

  /** The new state field by field, as the code leaves it. */
  lemma AttachedFields(w: World, name: string, f: Functors, accepts: bool, v: World)
    requires w.isOpen && w.created !in w.functors && w.created !in Registered(w.fcnmap, name)
    requires v.isOpen && v.created == w.created + 1
    requires v.sqlite ==
      if !Effective(f, accepts) then w.sqlite
      else if f.IsEmpty() then w.sqlite - {Lower(name)}
      else w.sqlite[Lower(name) := RegistrationOf(w.created, f)]
    requires v.fcnmap ==
      if !Effective(f, accepts) then w.fcnmap
      else if f.IsEmpty() then w.fcnmap - {name}
      else w.fcnmap[name := w.created]
    requires var gone := if Effective(f, accepts) then Registered(w.fcnmap, name) else {};
      var keep := Effective(f, accepts) && !f.IsEmpty();
      && v.functors == w.functors[w.created := f] - gone - (if keep then {} else {w.created})
      && v.deleted == w.deleted + multiset(gone) + (if keep then multiset{} else multiset{w.created})
    ensures v == Attached(w, name, f, accepts)
  {
    hide Registered, Effective;
    var gone := Registered(w.fcnmap, name);
    if !Effective(f, accepts) {
      assert v.functors == w.functors;
    } else if f.IsEmpty() {
      assert v.functors == w.functors - gone;
    } else {
      assert v.functors == (w.functors - gone)[w.created := f];
    }
  }

  lemma ClosedIsSound(w: World, accepts: bool)
    requires Sound(w)
    ensures Sound(Closed(w, accepts))
  {
    ClosedSound(w, accepts);
  }

  lemma ClosedFields(w: World, accepts: bool, v: World)
    requires v.fcnmap == map[] && v.created == w.created
    requires v.functors == w.functors - w.fcnmap.Values && v.deleted == w.deleted + multiset(w.fcnmap.Values)
    requires v.isOpen == (w.isOpen && !accepts) && v.sqlite == if v.isOpen then w.sqlite else map[]
    ensures v == Closed(w, accepts)
  {}

  // ----- The code ------------------------------------------------------------------------------

  /** One slot of the database stack, together with what SQLite holds for it. */
  class SQLstackitem {
    var isOpen: bool
    var fcnmap: map<string, nat>
    var sqlite: map<string, Registration>
    var functors: map<nat, Functors>
    var created: nat
    ghost var deleted: multiset<nat>

    ghost function State(): World
      reads this
    {
      World(isOpen, fcnmap, sqlite, functors, deleted, created)
    }

    constructor ()
      ensures State() == START
    {
      isOpen, fcnmap, sqlite, functors, created := false, map[], map[], map[], 0;
      deleted := multiset{};
    }

    method New(f: Functors) returns (fcn: nat)
      modifies this`functors, this`created
      ensures fcn == old(created) && created == fcn + 1 && functors == old(functors)[fcn := f]
    {
      fcn := created;
      functors := functors[fcn := f];
      created := created + 1;
    }

    /** Only a live object may be deleted. */
    method Delete(fcn: nat)
      requires fcn in functors
      modifies this`functors, this`deleted
      ensures functors == old(functors) - {fcn} && deleted == old(deleted) + multiset{fcn}
    {
      functors := functors - {fcn};
      deleted := deleted + multiset{fcn};
    }

    /** sqlite3_create_function: a name without callbacks is forgotten; a refused call changes nothing. */
    method CreateInSqlite(name: string, registration: Registration, accepts: bool) returns (ok: bool)
      modifies this`sqlite
      ensures ok == accepts
      ensures sqlite ==
        if !accepts then old(sqlite)
        else if registration.xFunc || registration.xStep || registration.xFinal then
          old(sqlite)[Lower(name) := registration]
        else
          old(sqlite) - {Lower(name)}
    {
      ok := accepts;
      if accepts {
        if registration.xFunc || registration.xStep || registration.xFinal {
          sqlite := sqlite[Lower(name) := registration];
        } else {
          sqlite := sqlite - {Lower(name)};
        }
      }
    }

    /** The functors the map has for a name, and the entry itself. */
    method DeleteRegistered(name: string)
      requires name in fcnmap ==> fcnmap[name] in functors
      modifies this`fcnmap, this`functors, this`deleted
      ensures fcnmap == old(fcnmap) - {name}
      ensures functors == old(functors) - Registered(old(fcnmap), name)
      ensures deleted == old(deleted) + multiset(Registered(old(fcnmap), name))
    {
      if name in fcnmap {
        assert multiset(Registered(fcnmap, name)) == multiset{fcnmap[name]};
        Delete(fcnmap[name]);
        fcnmap := fcnmap - {name};
      }
    }

    /** Telling SQLite; an invalid set of handles is refused before that. */
    method Announce(name: string, fcn: nat, f: Functors, accepts: bool) returns (failed: bool, action: int)
      modifies this`sqlite
      ensures failed <==> !Effective(f, accepts)
      ensures !failed ==> action == if f.IsEmpty() then 0 else 1
      ensures sqlite ==
        if failed then old(sqlite)
        else if f.IsEmpty() then old(sqlite) - {Lower(name)}
        else old(sqlite)[Lower(name) := RegistrationOf(fcn, f)]
    {
      var ok;
      failed, action := false, -1;
      if f.IsEmpty() {
        ok := CreateInSqlite(name, Registration(0, false, false, false), accepts);
        action := 0;
        failed := !ok;
      } else if !f.IsValid() {
        failed := true;
      } else {
        ok := CreateInSqlite(name, RegistrationOf(fcn, f), accepts);
        action := 1;
        failed := !ok;
      }
    }

    /** Bringing the map in line: the old functors go, and so do new ones that are not kept. */
    method Settle(name: string, fcn: nat, failed: bool, action: int)
      requires fcn in functors && (name in fcnmap ==> fcnmap[name] in functors && fcnmap[name] != fcn)
      requires !failed ==> 0 <= action <= 1
      modifies this`fcnmap, this`functors, this`deleted
      ensures var gone := if failed then {} else Registered(old(fcnmap), name);
        && functors == old(functors) - gone - (if !failed && action == 1 then {} else {fcn})
        && deleted == old(deleted) + multiset(gone) + (if !failed && action == 1 then multiset{} else multiset{fcn})
      ensures fcnmap ==
        if failed then old(fcnmap)
        else if action == 1 then old(fcnmap)[name := fcn]
        else old(fcnmap) - {name}
    {
      var keep := false;
      if !failed {
        DeleteRegistered(name);
        if action > 0 {
          fcnmap := fcnmap[name := fcn];
          keep := true;
        }
      }
      if !keep {
        Delete(fcn);
      }
    }

    method AttachMexFunction(name: string, f: Functors, accepts: bool) returns (ok: bool)
      requires Sound(State()) && name == Lower(name)
      modifies this
      ensures State() == Attached(old(State()), name, f, accepts)
      ensures Sound(State())
      ensures ok == (!old(isOpen) || Effective(f, accepts))
    {
      hide Sound, Owned, DeletedOnce, Mirrored, Lower, RegistrationOf, Attached, Registered, Effective;
      AttachedSound(State(), name, f, accepts);
      MapIsLive(State());
      if !isOpen {
        NothingAttached(State(), name, f, accepts);
        return true;
      }
      ghost var w := State();
      var fcn := New(f);
      RegisteredIsLive(w, name);
      var failed, action := Announce(name, fcn, f, accepts);
      Settle(name, fcn, failed, action);
      ok := !failed;
      AttachedFields(w, name, f, accepts, State());
    }

    /** The commands that define or remove a function lower-case its name. */
    method CreateFunction(name: string, f: Functors, accepts: bool) returns (ok: bool)
      requires Sound(State())
      modifies this
      ensures State() == Apply(old(State()), Define(name, f, accepts)) && Sound(State())
    {
      LowerTwice(name);
      ok := AttachMexFunction(Lower(name), f, accepts);
    }

    /** Every functor in the map. */
    method DeleteAll()
      requires Owned(State())
      modifies this`functors, this`deleted
      ensures functors == old(functors) - fcnmap.Values && deleted == old(deleted) + multiset(fcnmap.Values)
    {
      hide Owned;
      assert forall n, m :: n in fcnmap && m in fcnmap && n != m ==> fcnmap[n] != fcnmap[m] by {
        OwnedMeans(State());
      }
      assert forall n :: n in fcnmap ==> fcnmap[n] in functors by {
        OwnedMeans(State());
      }
      var names := fcnmap.Keys;
      ghost var freed: set<nat> := {};
      while names != {}
        invariant names <= fcnmap.Keys
        invariant forall n :: n in fcnmap ==> (n in names <==> fcnmap[n] !in freed)
        invariant freed <= fcnmap.Values
        invariant functors == old(functors) - freed && deleted == old(deleted) + multiset(freed)
        decreases names
      {
        var name :| name in names;
        var fcn := fcnmap[name];
        DeletedOneMore(old(functors), freed, fcn);
        Delete(fcn);
        freed := freed + {fcn};
        names := names - {name};
      }
      assert freed == fcnmap.Values;
    }

    method CloseDb(accepts: bool) returns (ok: bool)
      requires Sound(State())
      modifies this
      ensures State() == Closed(old(State()), accepts) && Sound(State())
      ensures ok == !isOpen == (!old(isOpen) || accepts)
    {
      hide Sound, Mirrored, Owned, Closed, Dangling, DeletedOnce;
      ghost var w := State();
      ClosedIsSound(w, accepts);
      MapIsLive(w);
      DeleteAll();
      fcnmap := map[];
      ok := !isOpen || accepts;
      if ok {
        isOpen, sqlite := false, map[];
      }
      ClosedFields(w, accepts, State());
    }

    /** sqlite3_open_v2 leaves a handle even when it fails, so the slot counts as open then. */
    method OpenDb(accepts: bool, opens: bool) returns (ok: bool)
      requires Sound(State())
      modifies this
      ensures State() == Apply(old(State()), Open(accepts)) && Sound(State())
      ensures ok == ((!old(isOpen) || accepts) && opens)
    {
      ApplySound(State(), Open(accepts));
      ok := CloseDb(accepts);
      if !ok {
        return;
      }
      isOpen := true;
      ok := opens;
    }
  }
}
