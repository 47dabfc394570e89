/** `wrapper` of `btck.hpp` with its two ownership policies: what constructing,
    copying, moving, assigning, converting and destroying any number of wrappers
    does to the handles of the C library. */
module Ownership {
  import opened Common

  /** The object behind a handle, with the parts that accessors such as
      `outputs()[i]` lend out. */
  datatype Object = Object(data: nat, parts: seq<Object>)

  /** A pointer to the object behind a handle (the empty path) or to one of its parts. */
  datatype Ptr = Null | At(handle: nat, path: seq<nat>)

  function Find(o: Object, path: seq<nat>): Option<Object>
    decreases path
  {
    if path == [] then Some(o)
    else if path[0] < |o.parts| then Find(o.parts[path[0]], path[1..])
    else None
  }

  datatype Policy = Owned | Unowned

  /** The C library's side: the objects of the live handles, all allocations and
      frees so far, and whether a pointer was ever freed or read that must not be. */
  datatype Heap = Heap(objects: map<nat, Object>, allocs: multiset<nat>, frees: multiset<nat>, fault: bool)
  {
    function Live(): set<nat> {
      objects.Keys
    }

    /** What a pointer refers to. */
    function ValueAt(p: Ptr): Option<Object> {
      if p.At? && p.handle in objects then Find(objects[p.handle], p.path) else None
    }

    /** A C constructor or copy function has made `o` under a new handle. */
    function Alloc(h: nat, o: Object): Heap {
      Heap(objects[h := o], allocs + multiset{h}, frees, fault)
    }
  }

  /** `ownership_traits::free` */
  function Free(heap: Heap, policy: Policy, p: Ptr): Heap {
    if policy.Unowned? || p.Null? then heap
    else if p.path == [] && p.handle in heap.Live() then
      heap.(objects := heap.objects - {p.handle}, frees := heap.frees + multiset{p.handle})
    else heap.(fault := true)
  }

  predicate Dereferenceable(heap: Heap, p: Ptr) {
    heap.ValueAt(p).Some?
  }

  /** `ownership_traits::copy`; `made` is the handle under which the library makes a
      copy of the object that `p` refers to, None when it fails and `invoke` throws. */
  function CopyOf(heap: Heap, policy: Policy, p: Ptr, made: Option<nat>): (Heap, Option<Ptr>) {
    if policy.Unowned? then (heap, Some(p))
    else
      var read := if Dereferenceable(heap, p) then heap else heap.(fault := true);
      var o := match heap.ValueAt(p) case Some(o) => o case None => Object(0, []);
      match made
      case None => (read, None)
      case Some(h) => (read.Alloc(h, o), Some(At(h, [])))
  }

  // ----- runs of any number of wrapper variables -----

  type Var = nat
  datatype Wrapped = Wrapped(policy: Policy, ptr: Ptr)
  datatype State = State(vars: map<Var, Wrapped>, heap: Heap)

  datatype Op =
    | New(v: Var, made: Option<nat>, content: Object)             // from a C constructor function
    | Borrow(v: Var, ptr: Ptr)                                   // from a pointer an accessor returns
    | Copy(v: Var, policy: Policy, source: Var, made: Option<nat>)  // copy and converting constructors
    | Move(v: Var, source: Var)
    | CopyAssign(v: Var, source: Var, made: Option<nat>)
    | MoveAssign(v: Var, source: Var)
    | Destroy(v: Var)

  const START := State(map[], Heap(map[], multiset{}, multiset{}, false))

  /** What C++ demands of the caller, and the library of its allocator. */
  ghost predicate Enabled(s: State, op: Op) {
    match op
    case New(v, made, content) => v !in s.vars && Unused(s.heap, made)
    case Borrow(v, _) => v !in s.vars
    case Copy(v, policy, source, made) => v !in s.vars && source in s.vars && Copyable(s, policy, source, made)
    case Move(v, source) => v !in s.vars && source in s.vars
    case CopyAssign(v, source, made) =>
      && v in s.vars && source in s.vars && s.vars[v].policy == s.vars[source].policy
      && Copyable(s, s.vars[v].policy, source, made)
    case MoveAssign(v, source) =>
      v in s.vars && source in s.vars && s.vars[v].policy == s.vars[source].policy && v != source
    case Destroy(v) => v in s.vars
  }

  predicate Unused(heap: Heap, made: Option<nat>) {
    made.Some? ==> made.value !in heap.Live()
  }

  ghost predicate Copyable(s: State, policy: Policy, source: Var, made: Option<nat>)
    requires source in s.vars
  {
    policy.Owned? ==> Dereferenceable(s.heap, s.vars[source].ptr) && Unused(s.heap, made)
  }

  /** One step; whatever is not enabled changes nothing here. */
  ghost function Step(s: State, op: Op): State {
    if !Mentions(s, op) then s
    else
      match op
      case New(v, made, content) =>
        (match made
         case None => s
         case Some(h) => State(s.vars[v := Wrapped(Owned, At(h, []))], s.heap.Alloc(h, content)))
      case Borrow(v, p) => s.(vars := s.vars[v := Wrapped(Unowned, p)])
      case Copy(v, policy, source, made) =>
        var (heap, p) := CopyOf(s.heap, policy, s.vars[source].ptr, made);
        (match p
         case None => s.(heap := heap)
         case Some(q) => State(s.vars[v := Wrapped(policy, q)], heap))
      case Move(v, source) =>
        var w := s.vars[source];
        s.(vars := s.vars[source := w.(ptr := Null)][v := w])
      case CopyAssign(v, source, made) =>
        var w := s.vars[v];
        var (heap, p) := CopyOf(s.heap, w.policy, s.vars[source].ptr, made);
        (match p
         case None => s.(heap := heap)
         case Some(q) => State(s.vars[v := w.(ptr := q)], Free(heap, w.policy, w.ptr)))
      case MoveAssign(v, source) =>
        var w := s.vars[v];
        var moved := s.vars[source];
        State(s.vars[source := moved.(ptr := Null)][v := w.(ptr := moved.ptr)], Free(s.heap, w.policy, w.ptr))
      case Destroy(v) =>
        State(s.vars - {v}, Free(s.heap, s.vars[v].policy, s.vars[v].ptr))
  }

  /** The variables an operation reads exist. */
  predicate Mentions(s: State, op: Op) {
    match op
    case New(_, _, _) | Borrow(_, _) => true
    case Copy(_, _, source, _) => source in s.vars
    case Move(_, source) => source in s.vars
    case CopyAssign(v, source, _) => v in s.vars && source in s.vars
    case MoveAssign(v, source) => v in s.vars && source in s.vars
    case Destroy(v) => v in s.vars
  }

  /** An operation that ends in the exception of a failed allocation. */
  predicate Throws(s: State, op: Op) {
    match op
    case New(_, made, _) => made.None?
    case Copy(_, policy, _, made) => policy.Owned? && made.None?
    case CopyAssign(v, _, made) => v in s.vars && s.vars[v].policy.Owned? && made.None?
    case _ => false
  }

  predicate Owns(s: State, v: Var, h: nat) {
    v in s.vars && s.vars[v] == Wrapped(Owned, At(h, []))
  }

  /** A wrapper that owns anything owns a whole live handle. */
  predicate Sound(w: Wrapped, live: set<nat>) {
    w.policy.Owned? && w.ptr.At? ==> w.ptr.path == [] && w.ptr.handle in live
  }

  ghost predicate Housed(s: State, h: nat) {
    exists v :: Owns(s, v, h)
  }

  /** Live handles and non-null owned wrappers correspond one to one, every
      handle was freed as often as it was allocated but for the live ones, and
      nothing was freed or read wrongly. */
  ghost predicate Inv(s: State) {
    && !s.heap.fault
    && (forall v :: v in s.vars ==> Sound(s.vars[v], s.heap.Live()))
    && (forall v, w, h :: Owns(s, v, h) && Owns(s, w, h) ==> v == w)
    && (forall h :: h in s.heap.Live() ==> Housed(s, h))
    && s.heap.allocs == s.heap.frees + multiset(s.heap.Live())
  }

  // The steps are made of five smaller ones.

  /** Frees what `v` owns and leaves it null. */
  ghost function Release(s: State, v: Var): State
    requires v in s.vars
  {
    var w := s.vars[v];
    if w.policy.Owned? then State(s.vars[v := w.(ptr := Null)], Free(s.heap, w.policy, w.ptr)) else s
  }

  lemma ReleaseKeepsInv(s: State, v: Var)
    requires Inv(s) && v in s.vars
    ensures Inv(Release(s, v))
  {
    var t, w := Release(s, v), s.vars[v];
    assert Sound(w, s.heap.Live());
    if w.policy.Owned? && w.ptr.At? {
      var g := w.ptr.handle;
      assert Owns(s, v, g);
      assert multiset(s.heap.Live()) == multiset(t.heap.Live()) + multiset{g};
      forall x | x in t.vars
        ensures Sound(t.vars[x], t.heap.Live())
      {
        assert Sound(s.vars[x], s.heap.Live());
        assert x != v && Owns(s, x, g) ==> x == v;
      }
      assert forall x, h :: Owns(t, x, h) ==> Owns(s, x, h);
      forall h | h in t.heap.Live()
        ensures Housed(t, h)
      {
        assert Housed(s, h);
        var x :| Owns(s, x, h);
        assert Owns(t, x, h);
      }
    } else {
      SameOwners(s, t);
    }
  }

  /** States with the same heap and the same owners keep the correspondence together. */
  lemma SameOwners(s: State, t: State)
    requires Inv(s) && t.heap == s.heap
    requires forall x, h :: Owns(t, x, h) <==> Owns(s, x, h)
    requires forall x :: x in t.vars ==> Sound(t.vars[x], t.heap.Live())
    ensures Inv(t)
  {
  }

  /** Whether `v` owns nothing: it does not exist, is null or unowned. */
  predicate Idle(s: State, v: Var) {
    v in s.vars && s.vars[v].policy.Owned? ==> s.vars[v].ptr.Null?
  }

  /** A new handle for `v`. */
  ghost function Give(s: State, v: Var, h: nat, o: Object): State {
    State(s.vars[v := Wrapped(Owned, At(h, []))], s.heap.Alloc(h, o))
  }

  lemma GiveKeepsInv(s: State, v: Var, h: nat, o: Object)
    requires Inv(s) && Idle(s, v) && h !in s.heap.Live()
    ensures Inv(Give(s, v, h, o))
  {
    var t := Give(s, v, h, o);
    assert multiset(t.heap.Live()) == multiset(s.heap.Live()) + multiset{h};
    assert Owns(t, v, h);
    forall x | x in t.vars
      ensures Sound(t.vars[x], t.heap.Live())
    {
      assert x != v ==> Sound(s.vars[x], s.heap.Live());
    }
    forall x, g | Owns(t, x, g)
      ensures if x == v then g == h else Owns(s, x, g) && g != h
    {
      assert x != v ==> Sound(s.vars[x], s.heap.Live());
    }
    forall g | g in t.heap.Live()
      ensures Housed(t, g)
    {
      if g != h {
        assert Housed(s, g);
        var x :| Owns(s, x, g);
        assert Owns(t, x, g);
      }
    }
  }

  /** The pointer of `source` passes to `v`. */
  ghost function Transfer(s: State, v: Var, source: Var): State
    requires source in s.vars
  {
    var w := s.vars[source];
    s.(vars := s.vars[source := w.(ptr := Null)][v := w])
  }

  lemma TransferKeepsInv(s: State, v: Var, source: Var)
    requires Inv(s) && Idle(s, v) && source in s.vars && v != source
    ensures Inv(Transfer(s, v, source))
  {
    var t := Transfer(s, v, source);
    assert Sound(s.vars[source], s.heap.Live());
    forall x | x in t.vars
      ensures Sound(t.vars[x], t.heap.Live())
    {
      assert x != v ==> Sound(s.vars[x], s.heap.Live());
    }
    assert forall x, h :: Owns(t, x, h) ==> Owns(s, if x == v then source else x, h) && x != source;
    forall h | h in t.heap.Live()
      ensures Housed(t, h)
    {
      assert Housed(s, h);
      var x :| Owns(s, x, h);
      assert Owns(t, if x == source then v else x, h);
    }
  }

  lemma SetIdleKeepsInv(s: State, v: Var, w: Wrapped)
    requires Inv(s) && Idle(s, v) && (w.policy.Unowned? || w.ptr.Null?)
    ensures Inv(s.(vars := s.vars[v := w]))
  {
    var t := s.(vars := s.vars[v := w]);
    forall x | x in t.vars
      ensures Sound(t.vars[x], t.heap.Live())
    {
      assert x != v ==> Sound(s.vars[x], s.heap.Live());
    }
    SameOwners(s, t);
  }

  lemma RemoveKeepsInv(s: State, v: Var)
    requires Inv(s) && Idle(s, v)
    ensures Inv(s.(vars := s.vars - {v}))
  {
    var t := s.(vars := s.vars - {v});
    forall x | x in t.vars
      ensures Sound(t.vars[x], t.heap.Live())
    {
      assert Sound(s.vars[x], s.heap.Live());
    }
    SameOwners(s, t);
  }

  lemma CopyKeepsInv(s: State, op: Op)
    requires op.Copy? && Inv(s) && Enabled(s, op)
    ensures Inv(Step(s, op))
  {
    if op.policy.Unowned? {
      SetIdleKeepsInv(s, op.v, Wrapped(Unowned, s.vars[op.source].ptr));
    } else if op.made.Some? {
      GiveKeepsInv(s, op.v, op.made.value, s.heap.ValueAt(s.vars[op.source].ptr).value);
    }
  }

  /** Copying and then freeing the old object is freeing it first and then giving
      `v` the copy of what the source held before. */
  lemma CopyAssignIs(s: State, v: Var, source: Var, h: nat, o: Object)
    requires v in s.vars && source in s.vars && s.vars[v].policy.Owned?
    requires s.heap.ValueAt(s.vars[source].ptr) == Some(o) && h !in s.heap.Live()
    requires Sound(s.vars[v], s.heap.Live())
    ensures Step(s, CopyAssign(v, source, Some(h))) == Give(Release(s, v), v, h, o)
  {
    var w := s.vars[v];
    var t, u := Step(s, CopyAssign(v, source, Some(h))), Give(Release(s, v), v, h, o);
    assert t.vars == u.vars;
    if w.ptr.At? {
      assert s.heap.objects[h := o] - {w.ptr.handle} == (s.heap.objects - {w.ptr.handle})[h := o];
    }
  }

  lemma CopyAssignKeepsInv(s: State, op: Op)
    requires op.CopyAssign? && Inv(s) && Enabled(s, op)
    ensures Inv(Step(s, op))
  {
    var w := s.vars[op.v];
    if w.policy.Unowned? {
      SetIdleKeepsInv(s, op.v, w.(ptr := s.vars[op.source].ptr));
    } else if op.made.Some? {
      var o := s.heap.ValueAt(s.vars[op.source].ptr).value;
      CopyAssignIs(s, op.v, op.source, op.made.value, o);
      ReleaseKeepsInv(s, op.v);
      GiveKeepsInv(Release(s, op.v), op.v, op.made.value, o);
    }
  }

  lemma MoveAssignIs(s: State, v: Var, source: Var)
    requires v in s.vars && source in s.vars && s.vars[v].policy == s.vars[source].policy && v != source
    ensures Step(s, MoveAssign(v, source)) == Transfer(Release(s, v), v, source)
  {
    assert Step(s, MoveAssign(v, source)).vars == Transfer(Release(s, v), v, source).vars;
  }

  lemma MoveAssignKeepsInv(s: State, v: Var, source: Var)
    requires Inv(s) && Enabled(s, MoveAssign(v, source))
    ensures Inv(Step(s, MoveAssign(v, source)))
  {
    MoveAssignIs(s, v, source);
    ReleaseKeepsInv(s, v);
    TransferKeepsInv(Release(s, v), v, source);
  }

  lemma DestroyIs(s: State, v: Var)
    requires v in s.vars
    ensures var r := Release(s, v); Step(s, Destroy(v)) == r.(vars := r.vars - {v})
  {
    assert Step(s, Destroy(v)).vars == Release(s, v).vars - {v};
  }

  lemma DestroyKeepsInv(s: State, v: Var)
    requires Inv(s) && Enabled(s, Destroy(v))
    ensures Inv(Step(s, Destroy(v)))
  {
    DestroyIs(s, v);
    ReleaseKeepsInv(s, v);
    RemoveKeepsInv(Release(s, v), v);
  }

  lemma StepKeepsInv(s: State, op: Op)
    requires Inv(s) && Enabled(s, op)
    ensures Inv(Step(s, op))
  {
    match op
    case New(v, made, content) => if made.Some? { GiveKeepsInv(s, v, made.value, content); }
    case Borrow(v, p) => SetIdleKeepsInv(s, v, Wrapped(Unowned, p));
    case Copy(_, _, _, _) => CopyKeepsInv(s, op);
    case Move(v, source) => TransferKeepsInv(s, v, source);
    case CopyAssign(_, _, _) => CopyAssignKeepsInv(s, op);
    case MoveAssign(v, source) => MoveAssignKeepsInv(s, v, source);
    case Destroy(v) => DestroyKeepsInv(s, v);
  }

  /** The variables an operation may change. */
  function Targets(op: Op): set<Var> {
    match op
    case New(v, _, _) => {v}
    case Borrow(v, _) => {v}
    case Copy(v, _, _, _) => {v}
    case Move(v, source) => {v, source}
    case CopyAssign(v, _, _) => {v}
    case MoveAssign(v, source) => {v, source}
    case Destroy(v) => {v}
  }

  /** What a step is for.  One that throws leaves everything as it was, the target
      of an assignment included.  Otherwise a copy is a handle of its own, a lent
      pointer is shared, a move empties its source; what the target owned before
      is freed, an unowned target frees nothing; and no other variable changes. */
  lemma StepEffect(s: State, op: Op)
    requires Inv(s) && Enabled(s, op)
    ensures Throws(s, op) ==> Step(s, op) == s
    ensures var t := Step(s, op);
            && (forall w :: w !in Targets(op) ==> (w in s.vars <==> w in t.vars) && (w in s.vars ==> s.vars[w] == t.vars[w]))
            && (op.v in s.vars && s.vars[op.v].policy.Unowned? ==> t.heap == s.heap)
    ensures !Throws(s, op) ==>
            var t := Step(s, op);
            && (op.v in s.vars && s.vars[op.v].policy.Owned? && s.vars[op.v].ptr.At? ==>
                  s.vars[op.v].ptr.handle !in t.heap.Live())
            && match op
               case New(v, made, content) => Owns(t, v, made.value) && made.value !in s.heap.Live()
               case Borrow(v, p) => v in t.vars && t.vars[v] == Wrapped(Unowned, p)
               case Copy(v, policy, source, made) =>
                 if policy.Owned? then Owns(t, v, made.value) && made.value !in s.heap.Live()
                 else v in t.vars && t.vars[v] == Wrapped(Unowned, s.vars[source].ptr)
               case Move(v, source) => v in t.vars && t.vars[v] == s.vars[source] && t.vars[source].ptr.Null?
               case CopyAssign(v, source, made) =>
                 if s.vars[v].policy.Owned? then Owns(t, v, made.value) && made.value !in s.heap.Live()
                 else t.vars[v].ptr == s.vars[source].ptr
               case MoveAssign(v, source) => t.vars[v] == s.vars[source] && t.vars[source].ptr.Null?
               case Destroy(v) => v !in t.vars
  {
  }

  /** What a variable refers to: the object behind its handle, the part lent to it,
      or nothing. */
  function ValueOf(s: State, v: Var): Option<Object> {
    if v in s.vars then s.heap.ValueAt(s.vars[v].ptr) else None
  }

  predicate Unchanged(before: Heap, after: Heap) {
    forall h :: h in before.Live() && h in after.Live() ==> before.objects[h] == after.objects[h]
  }

  /** Two wrappers never own the same handle, so the object freed is not the one taken. */
  lemma MoveAssignValue(s: State, v: Var, source: Var)
    requires Inv(s) && Enabled(s, MoveAssign(v, source))
    ensures ValueOf(Step(s, MoveAssign(v, source)), v) == ValueOf(s, source)
  {
    var w, moved := s.vars[v], s.vars[source];
    assert Sound(w, s.heap.Live()) && Sound(moved, s.heap.Live());
    if w.policy.Owned? && w.ptr.At? && moved.ptr.At? {
      assert Owns(s, v, w.ptr.handle) && Owns(s, source, moved.ptr.handle);
      assert moved.ptr.handle != w.ptr.handle;
    }
  }

  lemma CopyAssignValue(s: State, op: Op)
    requires op.CopyAssign? && Inv(s) && Enabled(s, op) && !Throws(s, op)
    ensures ValueOf(Step(s, op), op.v) == ValueOf(s, op.source)
  {
    assert Sound(s.vars[op.v], s.heap.Live());
  }

  /** No step changes the object behind a handle that stays live. */
  lemma StepKeepsObjects(s: State, op: Op)
    requires Enabled(s, op)
    ensures Unchanged(s.heap, Step(s, op).heap)
  {
  }

  /** What a step makes a variable refer to: a copy of either kind, a converted
      wrapper and a moved one refer to what the source referred to before the step,
      also where the target freed an object or is the source itself. */
  lemma StepValues(s: State, op: Op)
    requires Inv(s) && Enabled(s, op)
    ensures !Throws(s, op) ==>
            var t := Step(s, op);
            match op
            case New(v, _, content) => ValueOf(t, v) == Some(content)
            case Borrow(v, p) => ValueOf(t, v) == s.heap.ValueAt(p)
            case Copy(v, _, source, _) => ValueOf(t, v) == ValueOf(s, source)
            case Move(v, source) => ValueOf(t, v) == ValueOf(s, source)
            case CopyAssign(v, source, _) => ValueOf(t, v) == ValueOf(s, source)
            case MoveAssign(v, source) => ValueOf(t, v) == ValueOf(s, source)
            case Destroy(v) => ValueOf(t, v) == None
  {
    match op
    case CopyAssign(_, _, _) => if !Throws(s, op) { CopyAssignValue(s, op); }
    case MoveAssign(v, source) => MoveAssignValue(s, v, source);
    case _ =>
  }

  ghost function Run(s: State, ops: seq<Op>): State
    decreases ops
  {
    if ops == [] then s else Run(Step(s, ops[0]), ops[1..])
  }

  ghost predicate Legal(s: State, ops: seq<Op>)
    decreases ops
  {
    ops != [] ==> Enabled(s, ops[0]) && Legal(Step(s, ops[0]), ops[1..])
  }

  lemma {:induction false} RunKeepsInv(s: State, ops: seq<Op>)
    requires Inv(s) && Legal(s, ops)
    ensures Inv(Run(s, ops))
    decreases ops
  {
    if ops != [] {
      StepKeepsInv(s, ops[0]);
      RunKeepsInv(Step(s, ops[0]), ops[1..]);
    }
  }

  /** Over any legal run an owning variable that no operation targets keeps its
      value, whatever is made, copied, moved and destroyed around it. */
  lemma {:induction false} RunKeepsValue(s: State, ops: seq<Op>, v: Var)
    requires Inv(s) && Legal(s, ops)
    requires v in s.vars && s.vars[v].policy.Owned?
    requires forall op :: op in ops ==> v !in Targets(op)
    ensures ValueOf(Run(s, ops), v) == ValueOf(s, v)
    decreases ops
  {
    if ops != [] {
      var t := Step(s, ops[0]);
      assert v !in Targets(ops[0]);
      StepKeepsInv(s, ops[0]);
      StepEffect(s, ops[0]);
      StepKeepsObjects(s, ops[0]);
      assert Sound(s.vars[v], s.heap.Live()) && Sound(t.vars[v], t.heap.Live());
      RunKeepsValue(t, ops[1..], v);
    }
  }

  /** Safety over every run of any number of wrappers: no handle is freed twice, no
      lent pointer is freed, nothing dead is read, and once no wrapper is left
      every handle allocated has been freed exactly as often. */
  lemma OwnershipSafety(ops: seq<Op>)
    requires Legal(START, ops)
    ensures var s := Run(START, ops);
            && Inv(s)
            && s.heap.frees <= s.heap.allocs
            && (s.vars == map[] ==> s.heap.Live() == {} && s.heap.allocs == s.heap.frees)
  {
    assert START.heap.allocs == START.heap.frees + multiset(START.heap.Live());
    RunKeepsInv(START, ops);
    var s := Run(START, ops);
    if s.vars == map[] {
      assert forall v, h :: !Owns(s, v, h);
      assert forall h :: h in s.heap.Live() ==> Housed(s, h);
      assert s.heap.Live() == {};
    }
  }

  /** Move assignment of a wrapper to itself is the operation left out of a legal
      run: it keeps the correspondence exactly when there is nothing to free. */
  lemma SelfMoveExact(s: State, v: Var)
    requires Inv(s) && v in s.vars
    ensures Inv(Step(s, MoveAssign(v, v))) <==> s.vars[v].policy.Unowned? || s.vars[v].ptr.Null?
  {
    var t, w := Step(s, MoveAssign(v, v)), s.vars[v];
    assert Sound(w, s.heap.Live());
    if w.policy.Unowned? || w.ptr.Null? {
      assert t.vars == s.vars && t.heap == s.heap;
    } else {
      assert t.vars[v] == w && !Sound(w, t.heap.Live());
    }
  }

  /** And the destructor that follows a self-move then frees the handle again. */
  lemma SelfMoveThenDestroyFaults(s: State, v: Var)
    requires Inv(s) && v in s.vars && s.vars[v].policy.Owned? && s.vars[v].ptr.At?
    ensures Step(Step(s, MoveAssign(v, v)), Destroy(v)).heap.fault
  {
  }
}
