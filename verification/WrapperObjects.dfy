/** `wrapper` of `btck.hpp` as objects updated in place, statement by statement,
    and programs over any number of them, which do what Ownership says. */
module WrapperObjects {
  import opened Common
  import opened Ownership

  class HandleLibrary {
    var heap: Heap

    constructor ()
      ensures heap == START.heap
    {
      heap := START.heap;
    }
  }

  class Wrapper {
    const policy: Policy
    var ptr: Ptr

    /** `wrapper(internal_t, ptr)` */
    constructor Adopt(policy: Policy, ptr: Ptr)
      ensures this.policy == policy && this.ptr == ptr
    {
      this.policy := policy;
      this.ptr := ptr;
    }

    /** The copy constructor and the converting constructor; null when `copy` throws. */
    static method CopyFrom(lib: HandleLibrary, policy: Policy, other: Wrapper, made: Option<nat>) returns (w: Wrapper?)
      modifies lib
      ensures var (heap, p) := CopyOf(old(lib.heap), policy, other.ptr, made);
              && lib.heap == heap
              && (if p.None? then w == null else w != null && fresh(w) && w.policy == policy && w.ptr == p.value)
      ensures w != null && old(Dereferenceable(lib.heap, other.ptr)) ==>
                lib.heap.ValueAt(w.ptr) == old(lib.heap.ValueAt(other.ptr))
    {
      var (heap, p) := CopyOf(lib.heap, policy, other.ptr, made);
      lib.heap := heap;
      w := null;
      if p.Some? {
        w := new Wrapper.Adopt(policy, p.value);
      }
    }

    /** `wrapper(wrapper&& other)` */
    constructor MoveFrom(other: Wrapper)
      modifies other
      ensures policy == other.policy && ptr == old(other.ptr) && other.ptr == Null
    {
      policy := other.policy;
      ptr := other.ptr;
      new;
      other.ptr := Null;
    }

    /** `~wrapper()` */
    method Destroy(lib: HandleLibrary)
      modifies lib
      ensures lib.heap == Free(old(lib.heap), policy, ptr)
    {
      lib.heap := Free(lib.heap, policy, ptr);
    }

    /** Copy assignment: a temporary copy swaps pointers with this wrapper and is
        destroyed with the old one; `other` may be this wrapper. */
    method AssignCopy(lib: HandleLibrary, other: Wrapper, made: Option<nat>) returns (threw: bool)
      requires policy == other.policy
      modifies this, lib
      ensures var (heap, p) := CopyOf(old(lib.heap), policy, old(other.ptr), made);
              if p.None? then threw && lib.heap == heap && ptr == old(ptr)
              else !threw && lib.heap == Free(heap, policy, old(ptr)) && ptr == p.value
      ensures other != this ==> other.ptr == old(other.ptr)
      ensures !threw
              && old(Dereferenceable(lib.heap, other.ptr) && Unused(lib.heap, made))
              && old(ptr.At? ==> ptr.handle in lib.heap.Live()) ==>
                lib.heap.ValueAt(ptr) == old(lib.heap.ValueAt(other.ptr))
    {
      var temporary := CopyFrom(lib, policy, other, made);
      if temporary == null {
        return true;
      }
      ptr, temporary.ptr := temporary.ptr, ptr;
      temporary.Destroy(lib);
      return false;
    }

    /** Move assignment; `other` may be this wrapper. */
    method AssignMove(lib: HandleLibrary, other: Wrapper)
      requires policy == other.policy
      modifies this, lib, other
      ensures lib.heap == Free(old(lib.heap), policy, old(ptr))
      ensures ptr == old(other.ptr)
      ensures other != this ==> other.ptr == Null
    {
      Destroy(lib);
      var taken := other.ptr;
      other.ptr := Null;
      ptr := taken;
    }
  }

  /** A C++ program: wrapper variables that come and go over one C library. */
  class Program {
    const lib: HandleLibrary
    var vars: map<Var, Wrapper>

    constructor ()
      ensures Valid() && State() == START && fresh(lib)
    {
      lib := new HandleLibrary();
      vars := map[];
    }

    /** Different variables are different objects. */
    ghost predicate Valid()
      reads this
    {
      forall v, w :: v in vars && w in vars && v != w ==> vars[v] != vars[w]
    }

    ghost function State(): Ownership.State
      reads this, lib, vars.Values
    {
      Ownership.State(map v | v in vars :: Wrapped(vars[v].policy, vars[v].ptr), lib.heap)
    }

    /** A variable that is declared with the object `w`. */
    method Declare(v: Var, w: Wrapper)
      requires Valid() && v !in vars && w !in vars.Values
      modifies this`vars
      ensures Valid() && vars == old(vars)[v := w] && vars.Values <= old(vars.Values) + {w}
      ensures State() == old(State()).(vars := old(State()).vars[v := Wrapped(w.policy, w.ptr)])
    {
      vars := vars[v := w];
    }

    method Construct(v: Var, made: Option<nat>, content: Object) returns (threw: bool)
      requires Valid() && v !in vars
      modifies this`vars, lib
      ensures Valid() && fresh(vars.Values - old(vars.Values))
      ensures State() == Step(old(State()), New(v, made, content)) && threw == made.None?
    {
      if made.None? {
        return true;
      }
      ghost var s := State();
      lib.heap := lib.heap.Alloc(made.value, content);
      assert State() == s.(heap := lib.heap);
      var w := new Wrapper.Adopt(Owned, At(made.value, []));
      Declare(v, w);
      assert State() == Step(s, New(v, made, content));
      return false;
    }

    method Lend(v: Var, ptr: Ptr)
      requires Valid() && v !in vars
      modifies this`vars
      ensures Valid() && fresh(vars.Values - old(vars.Values))
      ensures State() == Step(old(State()), Borrow(v, ptr))
    {
      var w := new Wrapper.Adopt(Unowned, ptr);
      Declare(v, w);
    }

    method CopyConstruct(v: Var, policy: Policy, source: Var, made: Option<nat>) returns (threw: bool)
      requires Valid() && v !in vars && source in vars
      modifies this`vars, lib
      ensures Valid() && fresh(vars.Values - old(vars.Values))
      ensures State() == Step(old(State()), Copy(v, policy, source, made))
      ensures threw == Throws(old(State()), Copy(v, policy, source, made))
    {
      var w := Wrapper.CopyFrom(lib, policy, vars[source], made);
      assert State() == old(State()).(heap := lib.heap);
      if w == null {
        return true;
      }
      Declare(v, w);
      return false;
    }

    method MoveConstruct(v: Var, source: Var)
      requires Valid() && v !in vars && source in vars
      modifies this`vars, vars[source]
      ensures Valid() && fresh(vars.Values - old(vars.Values))
      ensures State() == Step(old(State()), Move(v, source))
    {
      ghost var s := State();
      var w := new Wrapper.MoveFrom(vars[source]);
      assert State() == s.(vars := s.vars[source := s.vars[source].(ptr := Null)]);
      Declare(v, w);
    }

    method Assign(v: Var, source: Var, made: Option<nat>) returns (threw: bool)
      requires Valid() && v in vars && source in vars && vars[v].policy == vars[source].policy
      modifies lib, vars[v]
      ensures Valid()
      ensures State() == Step(old(State()), CopyAssign(v, source, made))
      ensures threw == Throws(old(State()), CopyAssign(v, source, made))
    {
      threw := vars[v].AssignCopy(lib, vars[source], made);
    }

    /** Self-assignment included. */
    method AssignMoved(v: Var, source: Var)
      requires Valid() && v in vars && source in vars && vars[v].policy == vars[source].policy
      modifies lib, vars[v], vars[source]
      ensures Valid()
      ensures State() == Step(old(State()), MoveAssign(v, source))
    {
      vars[v].AssignMove(lib, vars[source]);
    }

    method Leave(v: Var)
      requires Valid() && v in vars
      modifies this`vars, lib
      ensures Valid() && vars == old(vars) - {v}
      ensures State() == Step(old(State()), Destroy(v))
    {
      vars[v].Destroy(lib);
      vars := vars - {v};
    }

    /** Every operation on the objects is the step of the same name. */
    method Perform(op: Op) returns (threw: bool)
      requires Valid() && Enabled(State(), op)
      modifies this`vars, lib, vars.Values
      ensures Valid() && fresh(vars.Values - old(vars.Values))
      ensures State() == Step(old(State()), op) && threw == Throws(old(State()), op)
    {
      threw := false;
      match op {
        case New(v, made, content) => threw := Construct(v, made, content);
        case Borrow(v, ptr) => Lend(v, ptr);
        case Copy(v, policy, source, made) => threw := CopyConstruct(v, policy, source, made);
        case Move(v, source) => MoveConstruct(v, source);
        case CopyAssign(v, source, made) => threw := Assign(v, source, made);
        case MoveAssign(v, source) => AssignMoved(v, source);
        case Destroy(v) => Leave(v);
      }
    }

    /** So a legal program ends in the state its run leads to, and is safe. */
    method Execute(ops: seq<Op>)
      requires Valid() && State() == START && Legal(START, ops)
      modifies this`vars, lib, vars.Values
      ensures Valid() && State() == Run(START, ops) && Inv(State())
      ensures vars == map[] ==> lib.heap.Live() == {} && lib.heap.allocs == lib.heap.frees
    {
      var i := 0;
      while i < |ops|
        invariant 0 <= i <= |ops|
        invariant Valid() && fresh(vars.Values - old(vars.Values))
        invariant Legal(State(), ops[i..]) && Run(START, ops) == Run(State(), ops[i..])
      {
        assert ops[i..][0] == ops[i] && ops[i..][1..] == ops[i + 1..];
        var _ := Perform(ops[i]);
        i := i + 1;
      }
      OwnershipSafety(ops);
    }
  }
}
