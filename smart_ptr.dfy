// A reference-counted owning pointer. Pointers that share an object share one
// heap counter; the object and the counter are deleted by the release that
// brings the counter to 0.

module SmartPointers {

  /** A non-null machine address; null is address 0. */
  type Address = a: int | a > 0 witness 1

  /** An object allocated with new T(...): its address, its contents and
      whether it has been deleted. */
  class Cell<T> {
    const addr: Address
    var value: T
    var deleted: bool

    constructor (addr: Address, value: T)
      ensures this.addr == addr && this.value == value && !deleted
    {
      this.addr := addr;
      this.value := value;
      deleted := false;
    }
  }

  /** The shared counter new size_t(1). The ghost owners are the pointers that
      currently hold it, and target is the object they all point to. */
  class Counter<T> {
    var count: nat
    var deleted: bool
    ghost var owners: set<SmartPtr<T>>
    ghost const target: Cell?<T>

    /** The count is exactly the number of pointers holding this counter. */
    ghost predicate Valid()
      reads this, owners
    {
      && !deleted
      && count == |owners|
      && count > 0
      && forall p :: p in owners ==> p.refCount == this && p.ptr == target
    }

    constructor (target: Cell?<T>)
      ensures this.target == target && count == 1 && !deleted && owners == {}
    {
      this.target := target;
      count := 1;
      deleted := false;
      owners := {};
    }
  }

  /** Exchanging one member for a non-member keeps the size of a set. */
  lemma ReplaceMember<U>(s: set<U>, x: U, y: U)
    requires x in s && y !in s
    ensures |s - {x} + {y}| == |s|
  {
    assert |s - {x}| == |s| - 1;
  }

  /** Ghost bookkeeping of swap: the counter changes hands from one pointer to
      another without any count changing. */
  ghost method HandOver<T>(c: Counter<T>, from: SmartPtr<T>, to: SmartPtr<T>)
    requires from in c.owners && to !in c.owners
    modifies c
    ensures c.owners == old(c.owners) - {from} + {to}
    ensures c.count == old(c.count) && c.deleted == old(c.deleted)
    ensures |c.owners| == |old(c.owners)|
  {
    ReplaceMember(c.owners, from, to);
    c.owners := c.owners - {from} + {to};
  }

  function Addr<T>(p: Cell?<T>): nat
    reads p
  {
    if p == null then 0 else p.addr
  }

  class SmartPtr<T> {
    var ptr: Cell?<T>
    var refCount: Counter?<T>

    /** The pointers sharing this one's counter, this one included. */
    ghost function Sharers(): set<SmartPtr<T>>
      reads this, refCount
    {
      if refCount == null then {} else refCount.owners
    }

    /** Either empty (no counter, null target), or one of the owners of a
        valid counter. */
    ghost predicate Valid()
      reads this, refCount, Sharers()
    {
      && (refCount == null ==> ptr == null)
      && (refCount != null ==> this in refCount.owners && refCount.Valid())
    }

    /** SmartPtr(): null, no counter. */
    constructor Empty()
      ensures Valid() && ptr == null && refCount == null
    {
      ptr := null;
      refCount := null;
    }

    /** SmartPtr(p): a fresh counter at 1, even when p is null. */
    constructor FromRaw(p: Cell?<T>)
      ensures Valid() && ptr == p && refCount != null && fresh(refCount)
      ensures refCount.count == 1 && refCount.owners == {this}
    {
      ptr := p;
      var c := new Counter(p);
      refCount := c;
      new;
      c.owners := {this};
    }

    /** SmartPtr(other): shares other's object and counter, adding 1 to it. */
    constructor Copy(other: SmartPtr<T>)
      requires other.Valid()
      modifies other.refCount
      ensures Valid() && other.Valid()
      ensures ptr == other.ptr && refCount == other.refCount
      ensures other.refCount != null ==>
                other.refCount.count == old(other.refCount.count) + 1
                && other.refCount.owners == old(other.refCount.owners) + {this}
    {
      ptr := other.ptr;
      refCount := other.refCount;
      new;
      if refCount != null {
        refCount.count := refCount.count + 1;
        refCount.owners := refCount.owners + {this};
      }
    }

    /** release(): gives up this pointer's share. The counter loses 1, and the
        object and counter are deleted exactly when it reaches 0. The fields
        themselves are left as they are. */
    method Release()
      requires Valid()
      modifies refCount, ptr
      ensures ptr == old(ptr) && refCount == old(refCount)
      ensures refCount == null ==> ptr == null
      ensures refCount != null ==>
                && refCount.count == old(refCount.count) - 1
                && refCount.owners == old(refCount.owners) - {this}
                && (refCount.deleted <==> refCount.count == 0)
                && (refCount.count > 0 ==> refCount.Valid())
      ensures ptr != null ==>
                && ptr.value == old(ptr.value)
                && (ptr.deleted <==> old(ptr.deleted) || refCount.count == 0)
    {
      if refCount != null {
        refCount.count := refCount.count - 1;
        refCount.owners := refCount.owners - {this};
        if refCount.count == 0 {
          if ptr != null {
            ptr.deleted := true;
          }
          refCount.deleted := true;
        }
      }
    }

    /** ~SmartPtr(). */
    method Destroy()
      requires Valid()
      modifies refCount, ptr
      ensures refCount == null ==> ptr == null
      ensures refCount != null ==>
                && refCount.count == old(refCount.count) - 1
                && refCount.owners == old(refCount.owners) - {this}
                && (refCount.deleted <==> refCount.count == 0)
                && (refCount.count > 0 ==> refCount.Valid())
      ensures ptr != null ==>
                && ptr.value == old(ptr.value)
                && (ptr.deleted <==> old(ptr.deleted) || refCount.count == 0)
    {
      Release();
    }

    /** operator=: unless other is this very pointer, releases the old share,
        then shares other's object and counter and adds 1 to it. */
    method Assign(other: SmartPtr<T>)
      requires Valid() && other.Valid()
      modifies this, refCount, ptr, other.refCount
      ensures this == other ==> ptr == old(ptr) && refCount == old(refCount)
                                 && (refCount != null ==> refCount.count == old(refCount.count)
                                                          && refCount.owners == old(refCount.owners)
                                                          && !refCount.deleted)
                                 && (ptr != null ==> ptr.deleted == old(ptr.deleted))
      ensures old(ptr) != null ==> old(ptr).value == old(ptr.value)
      ensures Valid() && other.Valid()
      ensures ptr == other.ptr && refCount == other.refCount
      ensures this != other && refCount != null ==>
                && refCount.owners == old(other.refCount.owners) + {this}
                && refCount.count == old(other.refCount.count) + (if old(refCount) == refCount then 0 else 1)
      ensures this != other && old(refCount) != null && old(refCount) != refCount ==>
                && old(refCount).count == old(refCount.count) - 1
                && old(refCount).owners == old(refCount.owners) - {this}
                && (old(refCount).deleted <==> old(refCount).count == 0)
                && (old(refCount).count > 0 ==> old(refCount).Valid())
      ensures this != other && old(ptr) != null && old(refCount) != null && old(refCount) != refCount ==>
                (old(ptr).deleted <==> old(ptr.deleted) || old(refCount).count == 0)
      ensures this != other && old(ptr) != null && old(refCount) == refCount ==>
                old(ptr).deleted == old(ptr.deleted)
    {
      if this != other {
        Reassign(other);
      }
    }

    /** operator= between two different pointers: release, then share. */
    method Reassign(other: SmartPtr<T>)
      requires Valid() && other.Valid() && this != other
      modifies this, refCount, ptr, other.refCount
      ensures old(ptr) != null ==> old(ptr).value == old(ptr.value)
      ensures Valid() && other.Valid()
      ensures ptr == other.ptr && refCount == other.refCount
      ensures refCount != null ==>
                && refCount.owners == old(other.refCount.owners) + {this}
                && refCount.count == old(other.refCount.count) + (if old(refCount) == refCount then 0 else 1)
      ensures old(refCount) != null && old(refCount) != refCount ==>
                && old(refCount).count == old(refCount.count) - 1
                && old(refCount).owners == old(refCount.owners) - {this}
                && (old(refCount).deleted <==> old(refCount).count == 0)
                && (old(refCount).count > 0 ==> old(refCount).Valid())
      ensures old(ptr) != null && old(refCount) != null && old(refCount) != refCount ==>
                (old(ptr).deleted <==> old(ptr.deleted) || old(refCount).count == 0)
      ensures old(ptr) != null && old(refCount) == refCount ==>
                old(ptr).deleted == old(ptr.deleted)
    {
      ghost var shared := other.refCount;
      assert shared != null ==> (this in shared.owners <==> shared == refCount);
      assert shared != null ==> other in shared.owners;
      Release();
      assert shared != null ==> other in shared.owners && |shared.owners| > 0;
      Share(other);
    }

    /** The second half of operator=: take other's fields and add 1 to the
        shared counter. */
    method Share(other: SmartPtr<T>)
      requires other.Valid() && this != other && this !in other.Sharers()
      modifies this, other.refCount
      ensures Valid() && other.Valid()
      ensures ptr == other.ptr && refCount == other.refCount
      ensures refCount != null ==>
                && refCount.owners == old(other.refCount.owners) + {this}
                && refCount.count == old(other.refCount.count) + 1
    {
      ptr := other.ptr;
      refCount := other.refCount;
      if refCount != null {
        refCount.count := refCount.count + 1;
        refCount.owners := refCount.owners + {this};
      }
    }

    /** reset(p): releases the old share, then owns p on a fresh counter at 1,
        or holds nothing when p is null. */
    method Reset(p: Cell?<T>)
      requires Valid()
      modifies this, refCount, ptr
      ensures Valid() && ptr == p
      ensures p == null ==> refCount == null
      ensures p != null ==> refCount != null && fresh(refCount)
                            && refCount.count == 1 && refCount.owners == {this}
      ensures old(refCount) != null ==>
                && old(refCount).count == old(refCount.count) - 1
                && old(refCount).owners == old(refCount.owners) - {this}
                && (old(refCount).deleted <==> old(refCount).count == 0)
                && (old(refCount).count > 0 ==> old(refCount).Valid())
      ensures old(ptr) != null && old(refCount) != null ==>
                (old(ptr).deleted <==> old(ptr.deleted) || old(refCount).count == 0)
      ensures old(ptr) != null ==> old(ptr).value == old(ptr.value)
    {
      Release();
      if p != null {
        var c := new Counter(p);
        c.owners := {this};
        ptr := p;
        refCount := c;
      } else {
        ptr := null;
        refCount := null;
      }
    }

    /** swap(other): exchanges both fields; no count changes. */
    method Swap(other: SmartPtr<T>)
      requires Valid() && other.Valid()
      modifies this, other, refCount, other.refCount
      ensures ptr == old(other.ptr) && refCount == old(other.refCount)
      ensures other.ptr == old(ptr) && other.refCount == old(refCount)
      ensures refCount != null ==> refCount.count == old(other.refCount.count)
      ensures other.refCount != null ==> other.refCount.count == old(refCount.count)
      ensures old(refCount) == old(other.refCount) && old(refCount) != null ==>
                old(refCount).owners == old(refCount.owners)
      ensures old(refCount) != old(other.refCount) && old(refCount) != null ==>
                old(refCount).owners == old(refCount.owners) - {this} + {other}
      ensures old(refCount) != old(other.refCount) && old(other.refCount) != null ==>
                old(other.refCount).owners == old(other.refCount.owners) - {other} + {this}
      ensures old(refCount) != null ==> old(refCount).deleted == old(refCount.deleted)
      ensures old(other.refCount) != null ==> old(other.refCount).deleted == old(other.refCount.deleted)
      ensures Valid() && other.Valid()
    {
      if refCount == other.refCount {
        ptr, other.ptr := other.ptr, ptr;
      } else {
        SwapApart(other);
      }
    }

    /** Swap of two pointers on different counters (or one on none): each
        counter changes hands. */
    method SwapApart(other: SmartPtr<T>)
      requires Valid() && other.Valid() && refCount != other.refCount
      modifies this, other, refCount, other.refCount
      ensures ptr == old(other.ptr) && refCount == old(other.refCount)
      ensures other.ptr == old(ptr) && other.refCount == old(refCount)
      ensures refCount != null ==> refCount.count == old(other.refCount.count)
      ensures other.refCount != null ==> other.refCount.count == old(refCount.count)
      ensures old(refCount) != null ==> old(refCount).owners == old(refCount.owners) - {this} + {other}
      ensures old(other.refCount) != null ==>
                old(other.refCount).owners == old(other.refCount.owners) - {other} + {this}
      ensures old(refCount) != null ==> old(refCount).deleted == old(refCount.deleted)
      ensures old(other.refCount) != null ==> old(other.refCount).deleted == old(other.refCount.deleted)
      ensures Valid() && other.Valid()
    {
      var mine, theirs := refCount, other.refCount;
      if mine != null {
        assert other !in mine.owners;
        HandOver(mine, this, other);
      }
      if theirs != null {
        assert this !in theirs.owners;
        HandOver(theirs, other, this);
      }
      ptr, other.ptr := other.ptr, ptr;
      refCount, other.refCount := theirs, mine;
      assert theirs != null ==> theirs.Valid() by {
        if theirs != null {
          forall q | q in theirs.owners ensures q.refCount == theirs && q.ptr == theirs.target {
            if q != this { assert q in old(theirs.owners) && q != other; }
          }
        }
      }
      assert mine != null ==> mine.Valid() by {
        if mine != null {
          forall q | q in mine.owners ensures q.refCount == mine && q.ptr == mine.target {
            if q != other { assert q in old(mine.owners) && q != this; }
          }
        }
      }
    }

    /** use_count(): the number of pointers sharing the object. */
    function UseCount(): (r: nat)
      reads this, refCount, Sharers()
      ensures Valid() ==> r == |Sharers()|
      ensures Valid() ==> (r == 0 <==> refCount == null)
    {
      if refCount != null then refCount.count else 0
    }

    /** get(). */
    function Get(): (r: Cell?<T>)
      reads this, refCount, Sharers()
      ensures Valid() ==> r == if refCount == null then null else refCount.target
    {
      ptr
    }

    // The comparisons look at the stored addresses only.

    function Lt(other: SmartPtr<T>): (r: bool)
      reads this, other, ptr, other.ptr
      ensures r ==> ptr != other.ptr
    {
      Addr(ptr) < Addr(other.ptr)
    }

    function Gt(other: SmartPtr<T>): (r: bool)
      reads this, other, ptr, other.ptr
      ensures r <==> other.Lt(this)
    {
      Addr(ptr) > Addr(other.ptr)
    }

    /** Equal exactly when neither is below the other; a pointer and its copy
        are always equal. */
    function Eq(other: SmartPtr<T>): (r: bool)
      reads this, other, ptr, other.ptr
      ensures r <==> !Lt(other) && !Gt(other)
      ensures ptr == other.ptr ==> r
    {
      Addr(ptr) == Addr(other.ptr)
    }

    function Ne(other: SmartPtr<T>): (r: bool)
      reads this, other, ptr, other.ptr
      ensures r <==> !Eq(other)
    {
      Addr(ptr) != Addr(other.ptr)
    }

    function Le(other: SmartPtr<T>): (r: bool)
      reads this, other, ptr, other.ptr
      ensures r <==> Lt(other) || Eq(other)
    {
      Addr(ptr) <= Addr(other.ptr)
    }

    function Ge(other: SmartPtr<T>): (r: bool)
      reads this, other, ptr, other.ptr
      ensures r <==> Gt(other) || Eq(other)
    {
      Addr(ptr) >= Addr(other.ptr)
    }
  }

  /** make_smart_ptr<T>(args): a new object at the allocator's address, owned
      by a fresh pointer with count 1. */
  method MakeSmartPtr<T>(addr: Address, value: T) returns (p: SmartPtr<T>)
    ensures fresh(p) && p.Valid()
    ensures p.ptr != null && fresh(p.ptr) && p.ptr.value == value && !p.ptr.deleted
    ensures p.UseCount() == 1
  {
    var c := new Cell(addr, value);
    p := new SmartPtr.FromRaw(c);
  }

  // ---------------------------------------------------------------------------
  // The usage scenarios: each returns what the scenario observes.

  /** One owner; the object is deleted when it goes out of scope. */
  method BasicCreation(addr: Address) returns (count: nat, value: int, destroyed: bool)
    ensures count == 1 && value == 42 && destroyed
  {
    var obj := new Cell(addr, 42);
    var p1 := new SmartPtr.FromRaw(obj);
    count := p1.UseCount();
    value := p1.Get().value;
    p1.Destroy();
    destroyed := obj.deleted;
  }

  /** A copy shares object and counter. */
  method CopySemantics(addr: Address) returns (count1: nat, count2: nat, same: bool, destroyed: bool)
    ensures count1 == 2 && count2 == 2 && same && destroyed
  {
    var obj := new Cell(addr, 10);
    var p1 := new SmartPtr.FromRaw(obj);
    var p2 := new SmartPtr.Copy(p1);
    count1, count2 := p1.UseCount(), p2.UseCount();
    same := p1.Get() == p2.Get();
    p2.Destroy();
    p1.Destroy();
    destroyed := obj.deleted;
  }

  /** Assigning over the only owner of object 2 deletes it at once; the shared
      object 1 goes when both owners have gone. */
  method AssignmentOperator(addr1: Address, addr2: Address)
    returns (count1: nat, count2: nat, same: bool, firstGone: bool, sharedKept: bool, sharedGone: bool)
    ensures count1 == 2 && count2 == 2 && same && firstGone && sharedKept && sharedGone
  {
    var obj1 := new Cell(addr1, 1);
    var obj2 := new Cell(addr2, 2);
    var p1 := new SmartPtr.FromRaw(obj1);
    var p2 := new SmartPtr.FromRaw(obj2);
    p2.Assign(p1);
    count1, count2 := p1.UseCount(), p2.UseCount();
    same := p1.Get() == p2.Get();
    firstGone := obj2.deleted;
    p2.Destroy();
    sharedKept := !obj1.deleted;
    p1.Destroy();
    sharedGone := obj1.deleted;
  }

  /** reset(q) replaces the object on a fresh counter; reset() empties. */
  method ResetScenario(addr1: Address, addr2: Address)
    returns (before: nat, after: nat, value: int, emptied: bool, oldGone: bool, newGone: bool)
    ensures before == 1 && after == 1 && value == 200 && emptied && oldGone && newGone
  {
    var obj1 := new Cell(addr1, 100);
    var p := new SmartPtr.FromRaw(obj1);
    before := p.UseCount();
    var obj2 := new Cell(addr2, 200);
    p.Reset(obj2);
    oldGone := obj1.deleted;
    after := p.UseCount();
    value := p.Get().value;
    p.Reset(null);
    emptied := p.Get() == null && p.UseCount() == 0;
    newGone := obj2.deleted;
    p.Destroy();
  }

  /** swap exchanges the objects. */
  method SwapScenario(addr1: Address, addr2: Address) returns (value1: int, value2: int)
    ensures value1 == 2 && value2 == 1
  {
    var obj1 := new Cell(addr1, 1);
    var obj2 := new Cell(addr2, 2);
    var p1 := new SmartPtr.FromRaw(obj1);
    var p2 := new SmartPtr.FromRaw(obj2);
    p1.Swap(p2);
    value1, value2 := p1.Get().value, p2.Get().value;
    p2.Destroy();
    p1.Destroy();
  }

  /** A third pointer sharing the first object is unaffected by swapping the
      other two: it still shares the first object, now with the second
      pointer, at count 2. */
  method SwapWithThirdSharer(addr1: Address, addr2: Address) returns (count: nat, same: bool, value: int)
    ensures count == 2 && same && value == 1
  {
    var obj1 := new Cell(addr1, 1);
    var obj2 := new Cell(addr2, 2);
    var p1 := new SmartPtr.FromRaw(obj1);
    var q := new SmartPtr.Copy(p1);
    var p2 := new SmartPtr.FromRaw(obj2);
    p1.Swap(p2);
    count, same, value := q.UseCount(), q.Eq(p2), q.Get().value;
  }

  /** Copies in an inner scope raise the count to 3; it is back to 1 when they go. */
  method UseCountAcrossCopies(addr: Address) returns (inner: nat, outer: nat, kept: bool)
    ensures inner == 3 && outer == 1 && kept
  {
    var obj := new Cell(addr, 99);
    var a := new SmartPtr.FromRaw(obj);
    var b := new SmartPtr.Copy(a);
    var c := new SmartPtr.Copy(b);
    inner := a.UseCount();
    c.Destroy();
    b.Destroy();
    outer := a.UseCount();
    kept := !obj.deleted;
    a.Destroy();
  }

  /** Copies compare equal; pointers to two live objects compare unequal and
      ordered one way or the other. */
  method ComparisonOperators(addr1: Address, addr2: Address) returns (equal: bool, unequal: bool, ordered: bool)
    requires addr1 != addr2
    ensures equal && unequal && ordered
  {
    var obj1 := new Cell(addr1, 10);
    var a := new SmartPtr.FromRaw(obj1);
    var b := new SmartPtr.Copy(a);
    var obj2 := new Cell(addr2, 20);
    var c := new SmartPtr.FromRaw(obj2);
    equal := a.Eq(b);
    unequal := a.Ne(c);
    ordered := a.Lt(c) || a.Gt(c);
  }

  /** make_smart_ptr gives a sole owner of the new value. */
  method MakeSmartPtrScenario(addr: Address) returns (value: int, count: nat)
    ensures value == 777 && count == 1
  {
    var p := MakeSmartPtr(addr, 777);
    value := p.Get().value;
    count := p.UseCount();
    p.Destroy();
  }
}
