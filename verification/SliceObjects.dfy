/** The slice objects of `_slice.c` with their reference counts. */
module SliceObjects {
  import opened Common
  import opened SliceIndices
  import opened SliceViews

  /** `struct Self` of a slice.  A root slice has its own accessor `item`; a
      derived one leaves `item` unset, which stands for NULL. */
  datatype Self = Self(obj: PyObject, length: int, start: int, step: int, item: bool)

  /** What an element access amounts to: the root accessor called on an object. */
  datatype Access = Access(obj: PyObject, idx: int)

  class PyObject {
    var refcnt: int
    /** None for an object that is not a slice. */
    const self: Option<Self>
    /** The number of slices between this object and the one at the bottom. */
    ghost const depth: nat

    constructor (self: Option<Self>)
      ensures this.self == self && refcnt == 1
      ensures depth == match self case None => 0 case Some(s) => s.obj.depth + 1
    {
      this.self := self;
      refcnt := 1;
      depth := match self case None => 0 case Some(s) => s.obj.depth + 1;
    }
  }

  /** A slice whose chain of parents ends in a root slice. */
  ghost predicate IsSlice(o: PyObject)
    decreases o.depth
  {
    && o.self.Some?
    && var s := o.self.value;
       && s.obj.depth < o.depth
       && 0 <= s.length
       && (!s.item ==> IsSlice(s.obj))
  }

  ghost function ViewOf(o: PyObject): View
    requires IsSlice(o)
    decreases o.depth
  {
    var s := o.self.value;
    if s.item then Root(s.length) else Derived(ViewOf(s.obj), s.start, s.step, s.length)
  }

  /** The object the root accessor of the chain is called on. */
  ghost function Viewed(o: PyObject): PyObject
    requires IsSlice(o)
    decreases o.depth
  {
    var s := o.self.value;
    if s.item then s.obj else Viewed(s.obj)
  }

  ghost predicate SoundSlice(o: PyObject) {
    IsSlice(o) && WellFormed(ViewOf(o))
  }

  /** `item`: passes the index down the chain; None is the IndexError. */
  method Item(o: PyObject, idx: int) returns (r: Option<Access>)
    requires SoundSlice(o)
    ensures match Resolve(ViewOf(o), idx)
            case None => r.None?
            case Some(i) => r == Some(Access(Viewed(o), i))
    decreases o.depth
  {
    var s := o.self.value;
    if idx < 0 || idx >= s.length {
      return None;
    }
    if s.item {
      return Some(Access(s.obj, idx));
    }
    assert WellFormed(ViewOf(s.obj));
    assert IsSsize(idx * s.step) && IsSsize(s.start + idx * s.step);
    r := Item(s.obj, s.start + idx * s.step);
  }

  /** `subscript` with an integer. */
  method SubscriptIndex(o: PyObject, idx: int) returns (r: Option<Access>)
    requires SoundSlice(o) && IsSsize(idx)
    ensures match Subscript(ViewOf(o), idx)
            case None => r.None?
            case Some(i) => r == Some(Access(Viewed(o), i))
  {
    var i := idx;
    if i < 0 {
      i := i + o.self.value.length;
      assert IsSsize(i);
    }
    r := Item(o, i);
  }

  /** The live slices that view `o`. */
  ghost function Viewers(live: set<PyObject>, o: PyObject): set<PyObject> {
    set v | v in live && Views(v, o)
  }

  predicate Views(v: PyObject, o: PyObject) {
    v.self.Some? && v.self.value.obj == o
  }

  lemma AddViewer(live: set<PyObject>, v: PyObject)
    requires v !in live
    ensures forall o :: o in live ==> |Viewers(live + {v}, o)| == |Viewers(live, o)| + if Views(v, o) then 1 else 0
  {
    forall o | o in live
      ensures |Viewers(live + {v}, o)| == |Viewers(live, o)| + if Views(v, o) then 1 else 0
    {
      assert Viewers(live + {v}, o) == Viewers(live, o) + if Views(v, o) then {v} else {};
    }
  }

  lemma RemoveViewer(live: set<PyObject>, v: PyObject)
    requires v in live
    ensures forall o :: o in live ==> |Viewers(live - {v}, o)| == |Viewers(live, o)| - if Views(v, o) then 1 else 0
  {
    forall o | o in live
      ensures |Viewers(live - {v}, o)| == |Viewers(live, o)| - if Views(v, o) then 1 else 0
    {
      assert live == (live - {v}) + {v};
      assert Viewers(live, o) == Viewers(live - {v}, o) + if Views(v, o) then {v} else {};
    }
  }

  /** Whether `o` is `x` or lies below it in the chain of views. */
  ghost predicate Holds(x: PyObject, o: PyObject)
    decreases x.depth
  {
    || x == o
    || (x.self.Some? && x.self.value.obj.depth < x.depth && Holds(x.self.value.obj, o))
  }

  /** Every live slice is sound and keeps the object it views alive. */
  ghost predicate Linked(live: set<PyObject>) {
    forall o :: o in live ==> LinkedOne(live, o)
  }

  ghost predicate LinkedOne(live: set<PyObject>, o: PyObject) {
    o.self.Some? ==> SoundSlice(o) && o.self.value.obj in live
  }

  lemma LinkedAdd(live: set<PyObject>, o: PyObject)
    requires Linked(live) && LinkedOne(live, o) && o !in live
    ensures Linked(live + {o}) && Viewers(live + {o}, o) == {}
  {
  }

  lemma LinkedRemove(live: set<PyObject>, o: PyObject)
    requires Linked(live) && Viewers(live, o) == {}
    ensures Linked(live - {o})
  {
  }

  lemma SoundNew(o: PyObject, v: View)
    requires o.self.Some? && o.self.value.obj.depth < o.depth && 0 <= o.self.value.length
    requires !o.self.value.item ==> SoundSlice(o.self.value.obj)
    requires v == NewView(o.self.value) && WellFormed(v)
    ensures SoundSlice(o) && ViewOf(o) == v
  {
  }

  ghost function NewView(s: Self): View
    requires 0 <= s.length && (!s.item ==> IsSlice(s.obj))
  {
    if s.item then Root(s.length) else Derived(ViewOf(s.obj), s.start, s.step, s.length)
  }

  /** The interpreter: the objects that exist and the references held outside of slices. */
  class Runtime {
    ghost var live: set<PyObject>
    ghost var external: multiset<PyObject>

    constructor ()
      ensures Valid() && live == {} && external == multiset{}
    {
      live, external := {}, multiset{};
    }

    /** Every count is right, except that `owed` still counts a reference that is about to be dropped. */
    ghost predicate Counted(owed: PyObject?)
      reads this, live
    {
      && (owed != null ==> owed in live)
      && (forall o :: o in external ==> o in live)
      && (forall o :: o in live ==>
            && o.refcnt == external[o] + |Viewers(live, o)| + (if o == owed then 1 else 0)
            && o.refcnt > 0)
      && Linked(live)
    }

    ghost predicate Valid()
      reads this, live
    {
      Counted(null)
    }

    /** A new object, or a new slice of an object someone holds: `PyObject_New`
        followed by `Py_NewRef` on the object viewed.  `granted` is the allocator's answer. */
    method New(self: Option<Self>, granted: bool) returns (o: PyObject?)
      requires Valid()
      requires self.Some? ==>
                 && self.value.obj in live && 0 <= self.value.length
                 && (!self.value.item ==> SoundSlice(self.value.obj))
                 && WellFormed(NewView(self.value))
      modifies this, live
      ensures Valid()
      ensures (o == null) == !granted
      ensures o == null ==> live == old(live) && external == old(external)
      ensures o != null ==>
                && fresh(o) && o.self == self
                && live == old(live) + {o} && external == old(external) + multiset{o}
    {
      if !granted {
        return null;
      }
      ghost var before := live;
      o := new PyObject(self);
      if self.Some? {
        self.value.obj.refcnt := self.value.obj.refcnt + 1;
      }
      live, external := live + {o}, external + multiset{o};
      if self.Some? {
        SoundNew(o, NewView(self.value));
      }
      LinkedAdd(before, o);
      AddViewer(before, o);
    }

    /** `Slice_New` */
    method SliceNew(obj: PyObject, length: nat, granted: bool) returns (o: PyObject?)
      requires Valid() && obj in live && length <= SSIZE_MAX
      modifies this, live
      ensures Valid()
      ensures (o == null) == !granted
      ensures o == null ==> live == old(live) && external == old(external)
      ensures o != null ==>
                && fresh(o) && SoundSlice(o) && ViewOf(o) == Root(length) && Viewed(o) == obj
                && live == old(live) + {o} && external == old(external) + multiset{o}
    {
      o := New(Some(Self(obj, length, 0, 0, true)), granted);
    }

    /** `subscript` with a slice; null is the ValueError of a zero step or a
        refused allocation. */
    method SubscriptSlice(v: PyObject, arg: SliceArg, granted: bool) returns (o: PyObject?)
      requires Valid() && v in live && SoundSlice(v)
      modifies this, live
      ensures Valid()
      ensures (o == null) == (arg.step == Some(0) || !granted)
      ensures o == null ==> live == old(live) && external == old(external)
      ensures o != null ==>
                && fresh(o) && SoundSlice(o)
                && ViewOf(o) == Slice(ViewOf(v), Unpack(arg).value) && Viewed(o) == Viewed(v)
                && live == old(live) + {o} && external == old(external) + multiset{o}
    {
      var unpacked := Unpack(arg);
      if unpacked.None? {
        return null;
      }
      var Unpacked(start, stop, step) := unpacked.value;
      var length := v.self.value.length;
      start := Adjust(length, start, step);
      stop := Adjust(length, stop, step);
      SliceKeepsWellFormed(ViewOf(v), unpacked.value);
      o := New(Some(Self(v, Count(start, stop, step), start, step, false)), granted);
    }

    /** `Py_INCREF` by the program. */
    method IncRef(o: PyObject)
      requires Valid() && o in live
      modifies this, o
      ensures Valid() && live == old(live) && external == old(external) + multiset{o}
    {
      o.refcnt := o.refcnt + 1;
      external := external + multiset{o};
    }

    /** `Py_DECREF` by the program: gives up one reference it holds. */
    method DecRef(o: PyObject)
      requires Valid() && o in external
      modifies this, live
      ensures Valid() && live <= old(live) && external == old(external) - multiset{o}
    {
      external := external - multiset{o};
      Drop(o);
    }

    /** `Py_DECREF` and, when the count reaches zero, `dealloc`: the slice gives
        up its reference to the object it views and is freed. */
    method Drop(o: PyObject)
      requires Counted(o)
      modifies this`live, live
      ensures Valid() && live <= old(live)
      decreases o.depth
    {
      o.refcnt := o.refcnt - 1;
      if o.refcnt == 0 {
        ghost var before := live;
        assert Viewers(before, o) == {};
        live := live - {o};
        RemoveViewer(before, o);
        LinkedRemove(before, o);
        assert LinkedOne(before, o);
        if o.self.Some? {
          Drop(o.self.value.obj);
        }
      }
    }
  }

  /** Exact collection: at every moment the objects that exist are those some
      external reference holds, directly or through a chain of slices. */
  lemma LiveIffHeld(rt: Runtime, o: PyObject)
    requires rt.Valid()
    ensures o in rt.live <==> exists x :: x in rt.external && Holds(x, o)
  {
    if o in rt.live {
      var x := Holder(rt, o);
    } else {
      forall x | x in rt.external && Holds(x, o)
        ensures false
      {
        HeldIsLive(rt, x, o);
      }
    }
  }

  lemma {:induction false} HeldIsLive(rt: Runtime, x: PyObject, o: PyObject)
    requires rt.Valid() && x in rt.live && Holds(x, o)
    ensures o in rt.live
    decreases x.depth
  {
    if x != o {
      HeldIsLive(rt, x.self.value.obj, o);
    }
  }

  ghost function Above(live: set<PyObject>, o: PyObject): set<PyObject> {
    set v | v in live && v.depth > o.depth
  }

  lemma {:induction false} Holder(rt: Runtime, o: PyObject) returns (x: PyObject)
    requires rt.Valid() && o in rt.live
    ensures x in rt.external && Holds(x, o)
    decreases |Above(rt.live, o)|
  {
    if o in rt.external {
      x := o;
    } else {
      var viewers := Viewers(rt.live, o);
      assert |viewers| > 0;
      var v :| v in viewers;
      assert v in Above(rt.live, o) && v !in Above(rt.live, v);
      assert Above(rt.live, v) < Above(rt.live, o);
      SmallerSet(Above(rt.live, v), Above(rt.live, o));
      x := Holder(rt, v);
      HoldsBelow(x, v);
    }
  }

  lemma SmallerSet(a: set<PyObject>, b: set<PyObject>)
    requires a < b
    ensures |a| < |b|
  {
    assert b == a + (b - a);
  }

  /** What holds a slice holds what the slice views. */
  lemma {:induction false} HoldsBelow(x: PyObject, v: PyObject)
    requires Holds(x, v) && v.self.Some? && v.self.value.obj.depth < v.depth
    ensures Holds(x, v.self.value.obj)
    decreases x.depth
  {
    if x != v {
      HoldsBelow(x.self.value.obj, v);
    } else {
      assert Holds(v.self.value.obj, v.self.value.obj);
    }
  }
}
