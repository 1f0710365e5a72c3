/** Strong and weak handles on control blocks, one thread at a time: every handle
    operation keeps each block's counters equal to the number of handles pointing at it. */
module Handles {

  datatype Tag = Strong | Weak

  /** The counters of a block and how often its callbacks ran. */
  datatype Counts = Counts(strong: nat, weak: nat, destructs: nat, deallocs: nat) {
    function Of(tag: Tag): nat {
      if tag == Strong then strong else weak
    }

    function Increased(tag: Tag): Counts {
      if tag == Strong then this.(strong := strong + 1) else this.(weak := weak + 1)
    }

    /** One count given back; the callers never give back what they do not hold. */
    function WeakDecreased(): Counts {
      if weak == 0 then this
      else this.(weak := weak - 1, deallocs := deallocs + if weak == 1 then 1 else 0)
    }

    function Decreased(tag: Tag): Counts {
      if tag == Weak then WeakDecreased()
      else if strong == 0 then this
      else if strong > 1 then this.(strong := strong - 1)
      else this.(strong := 0, destructs := destructs + 1).WeakDecreased()
    }

    /** The counters count s strong and w weak handles, and each callback ran once its
        counter had fallen to zero. */
    predicate Count(s: nat, w: nat) {
      && strong == s && weak == w + (if s > 0 then 1 else 0)
      && destructs == (if strong == 0 then 1 else 0) && deallocs == (if weak == 0 then 1 else 0)
    }
  }

  /** atomic_cb, its operations run to completion. */
  class ControlBlock {
    var value: Counts

    constructor ()
      ensures value == Counts(1, 1, 0, 0)
    {
      value := Counts(1, 1, 0, 0);
    }

    method Increase(tag: Tag)
      modifies this
      ensures value == old(value).Increased(tag)
    {
      if tag == Strong {
        value := value.(strong := value.strong + 1);
      } else {
        value := value.(weak := value.weak + 1);
      }
    }

    method TryIncrease() returns (ok: bool)
      modifies this
      ensures ok <==> old(value).strong > 0
      ensures value == if ok then old(value).Increased(Strong) else old(value)
    {
      ok := value.strong > 0;
      if ok {
        value := value.(strong := value.strong + 1);
      }
    }

    method DecreaseWeak()
      requires value.weak > 0
      modifies this
      ensures value == old(value).WeakDecreased()
    {
      var previous := value.weak;
      value := value.(weak := previous - 1);
      if previous == 1 {
        value := value.(deallocs := value.deallocs + 1);
      }
    }

    method Decrease(tag: Tag)
      requires value.Of(tag) > 0 && value.weak > 0
      modifies this
      ensures value == old(value).Decreased(tag)
    {
      if tag == Strong {
        var previous := value.strong;
        value := value.(strong := previous - 1);
        if previous == 1 {
          value := value.(destructs := value.destructs + 1);
          DecreaseWeak();
        }
      } else {
        DecreaseWeak();
      }
    }
  }

  // ----- The world as a value -----

  /** Where each handle points, and what each block holds. */
  type Links = map<Handle, ControlBlock?>
  type Values = map<ControlBlock, Counts>

  ghost function LinksOf(hs: set<Handle>): Links
    reads hs
  {
    map h | h in hs :: h.block
  }

  ghost function ValuesOf(bs: set<ControlBlock>): Values
    reads bs
  {
    map b | b in bs :: b.value
  }

  /** The handles of one kind that point at a block. */
  ghost function Pointing(links: Links, tag: Tag, b: ControlBlock): set<Handle> {
    set h | h in links && h.tag == tag && links[h] == b
  }

  ghost predicate Counted(links: Links, b: ControlBlock, c: Counts) {
    c.Count(|Pointing(links, Strong, b)|, |Pointing(links, Weak, b)|)
  }

  /** All handles point at known blocks, whose counters count them. */
  ghost predicate Balance(links: Links, values: Values) {
    && (forall h :: h in links && links[h] != null ==> links[h] in values)
    && (forall b :: b in values ==> Counted(links, b, values[b]))
  }

  ghost predicate Balanced(hs: set<Handle>, bs: set<ControlBlock>)
    reads hs, bs
  {
    Balance(LinksOf(hs), ValuesOf(bs))
  }

  /** A set that x leaves, enters, or both. */
  ghost function Change<T>(before: set<T>, x: T, leaves: bool, enters: bool): set<T> {
    if leaves == enters then before else if leaves then before - {x} else before + {x}
  }

  /** Releasing and acquiring counts. */
  function Reassign(c: Counts, tag: Tag, leaves: bool, enters: bool): Counts {
    var released := if leaves then c.Decreased(tag) else c;
    if enters then released.Increased(tag) else released
  }

  lemma ChangeSize<T>(before: set<T>, x: T, leaves: bool, enters: bool)
    requires leaves <==> x in before
    ensures |Change(before, x, leaves, enters)| == |before| - (if leaves then 1 else 0) + (if enters then 1 else 0)
  {}

  /** A handle that leaves, enters, or both: the counters follow, except when the last count
      of a kind is released and taken again. */
  lemma ReassignCounts(c: Counts, tag: Tag, strongs: set<Handle>, weaks: set<Handle>, h: Handle, leaves: bool, enters: bool)
    requires c.Count(|strongs|, |weaks|)
    requires leaves <==> h in (if tag == Strong then strongs else weaks)
    requires enters ==> c.Of(tag) > 0
    ensures leaves ==> c.Of(tag) > 0 && c.weak > 0
    ensures Reassign(c, tag, leaves, enters).Count(
              if tag == Strong then |Change(strongs, h, leaves, enters)| else |strongs|,
              if tag == Weak then |Change(weaks, h, leaves, enters)| else |weaks|)
            <==> !(leaves && enters && c.Of(tag) == 1)
  {
    ChangeSize(if tag == Strong then strongs else weaks, h, leaves, enters);
  }

  lemma PointingChange(links: Links, h: Handle, to: ControlBlock?, b: ControlBlock)
    requires h in links
    ensures forall t :: t != h.tag ==> Pointing(links[h := to], t, b) == Pointing(links, t, b)
    ensures Pointing(links[h := to], h.tag, b) == Change(Pointing(links, h.tag, b), h, links[h] == b, to == b)
  {}

  /** One block when handle h moves to `to`. */
  lemma CountedAfter(links: Links, h: Handle, to: ControlBlock?, b: ControlBlock, c: Counts)
    requires h in links && Counted(links, b, c) && (to == b ==> c.Of(h.tag) > 0)
    ensures links[h] == b ==> c.Of(h.tag) > 0 && c.weak > 0
    ensures Counted(links[h := to], b, Reassign(c, h.tag, links[h] == b, to == b))
       <==> !(links[h] == to == b && c.Of(h.tag) == 1)
  {
    PointingChange(links, h, to, b);
    ReassignCounts(c, h.tag, Pointing(links, Strong, b), Pointing(links, Weak, b), h, links[h] == b, to == b);
  }

  /** A handle and the block it points at. */
  lemma PointsAtBlock(links: Links, values: Values, h: Handle)
    requires Balance(links, values) && h in links && links[h] != null
    ensures links[h] in values && values[links[h]].Of(h.tag) > 0 && values[links[h]].weak > 0
  {
    assert h in Pointing(links, h.tag, links[h]);
    assert Counted(links, links[h], values[links[h]]);
  }

  ghost predicate SoleSelfAssignment(links: Links, values: Values, h: Handle, to: ControlBlock?) {
    h in links && links[h] == to && to in values && values[to].Of(h.tag) == 1
  }

  /** What a pointer assignment does to the world. */
  ghost function Reassigned(links: Links, values: Values, h: Handle, to: ControlBlock?): Values
    requires h in links
  {
    map b | b in values :: Reassign(values[b], h.tag, links[h] == b, to == b)
  }

  /** A pointer assignment keeps the balance unless it is the self-assignment of a handle that
      holds the last count. */
  lemma ReassignedBalance(links: Links, values: Values, h: Handle, to: ControlBlock?)
    requires h in links && Balance(links, values)
    requires to != null ==> to in values && values[to].Of(h.tag) > 0
    ensures Balance(links[h := to], Reassigned(links, values, h, to)) <==> !SoleSelfAssignment(links, values, h, to)
  {
    var after := Reassigned(links, values, h, to);
    forall b | b in values
      ensures Counted(links[h := to], b, after[b]) <==> !(links[h] == to == b && values[b].Of(h.tag) == 1)
    {
      assert Counted(links, b, values[b]);
      CountedAfter(links, h, to, b, values[b]);
    }
    if SoleSelfAssignment(links, values, h, to) {
      assert !Counted(links[h := to], to, after[to]);
    }
  }

  /** A second handle of the same kind on the same block. */
  lemma SecondHandleCounts(links: Links, values: Values, h: Handle, k: Handle)
    requires Balance(links, values) && h in links && k in links && h != k && (h.tag == k.tag || h.tag == Weak)
    requires links[h] == links[k] && links[h] != null
    ensures !SoleSelfAssignment(links, values, h, links[h])
  {
    var ps := Pointing(links, h.tag, links[h]);
    assert Counted(links, links[h], values[links[h]]);
    if h.tag == k.tag {
      assert {h, k} <= ps;
      assert |ps - {h, k}| == |ps| - |{h, k}|;
    } else {
      assert k in Pointing(links, Strong, links[h]);
      assert h in ps;
    }
  }

  lemma SwapSize<T>(before: set<T>, after: set<T>, x: T, y: T)
    requires x != y && before - {x, y} == after - {x, y}
    requires (x in before <==> y in after) && (y in before <==> x in after)
    ensures |before| == |after|
  {
    assert forall z :: z != x && z != y ==> (z in before <==> z in before - {x, y}) && (z in after <==> z in after - {x, y});
    if x in before && y !in before {
      assert before - {x} == after - {y};
      assert |before - {x}| == |before| - 1 && |after - {y}| == |after| - 1;
    } else if y in before && x !in before {
      assert before - {y} == after - {x};
      assert |before - {y}| == |before| - 1 && |after - {x}| == |after| - 1;
    } else {
      assert before == after;
    }
  }

  ghost function Swapped(links: Links, h: Handle, k: Handle): Links
    requires h in links && k in links
  {
    links[h := links[k]][k := links[h]]
  }

  /** Exchanging the blocks of two handles of the same kind changes no count. */
  lemma SwapBalance(links: Links, values: Values, h: Handle, k: Handle)
    requires Balance(links, values) && h in links && k in links && h.tag == k.tag
    ensures Balance(Swapped(links, h, k), values)
  {
    var after := Swapped(links, h, k);
    forall b | b in values ensures Counted(after, b, values[b]) {
      assert Counted(links, b, values[b]);
      if h != k {
        forall t ensures |Pointing(after, t, b)| == |Pointing(links, t, b)| {
          if t == h.tag {
            SwapSize(Pointing(links, t, b), Pointing(after, t, b), h, k);
          } else {
            assert Pointing(after, t, b) == Pointing(links, t, b);
          }
        }
      } else {
        assert after == links;
      }
    }
  }

  /** A new handle on a block, counted. */
  lemma NewHandleBalance(links: Links, values: Values, h: Handle, b: ControlBlock?)
    requires Balance(links, values) && h !in links
    requires b != null ==> b in values && values[b].Of(h.tag) > 0
    ensures Balance(links[h := b], if b == null then values else values[b := values[b].Increased(h.tag)])
  {
    var fresh' := links[h := null];
    forall c | c in values ensures Counted(fresh', c, values[c]) {
      assert Counted(links, c, values[c]);
      assert forall t :: Pointing(fresh', t, c) == Pointing(links, t, c);
    }
    ReassignedBalance(fresh', values, h, b);
    assert fresh'[h := b] == links[h := b];
    assert Reassigned(fresh', values, h, b) == if b == null then values else values[b := values[b].Increased(h.tag)];
  }

  /** A new block with its first strong handle, which the block already counts. */
  lemma NewBlockBalance(links: Links, values: Values, h: Handle, b: ControlBlock)
    requires Balance(links, values) && h !in links && b !in values && h.tag == Strong
    ensures Balance(links[h := b], values[b := Counts(1, 1, 0, 0)])
  {
    var links', values' := links[h := b], values[b := Counts(1, 1, 0, 0)];
    forall c | c in values' ensures Counted(links', c, values'[c]) {
      if c == b {
        assert Pointing(links', Strong, b) == {h} && Pointing(links', Weak, b) == {};
      } else {
        assert Counted(links, c, values[c]);
        assert forall t :: Pointing(links', t, c) == Pointing(links, t, c);
      }
    }
  }

  /** Creating a counted object: its block starts with both counters at one. */
  method MakeRef(ghost hs: set<Handle>, ghost bs: set<ControlBlock>) returns (ref: Handle, block: ControlBlock)
    requires Balanced(hs, bs)
    ensures fresh(ref) && fresh(block) && ref.tag == Strong && ref.block == block
    ensures Balanced(hs + {ref}, bs + {block})
  {
    ghost var links: Links, values: Values := LinksOf(hs), ValuesOf(bs);
    block := new ControlBlock();
    ref := new Handle(Strong);
    ref.block := block;
    NewBlockBalance(links, values, ref, block);
    assert LinksOf(hs + {ref}) == links[ref := block];
    assert ValuesOf(bs + {block}) == values[block := Counts(1, 1, 0, 0)];
  }

  // ----- Handles -----

  /** counter_base: a handle of either kind. */
  class Handle {
    const tag: Tag
    var block: ControlBlock?

    /** A handle that points nowhere yet. */
    constructor (tag: Tag)
      ensures this.tag == tag && block == null
    {
      this.tag := tag;
      block := null;
    }

    /** Copy construction, and weak() on a strong handle: a new counted handle on the same block. */
    method Duplicate(kind: Tag, ghost hs: set<Handle>, ghost bs: set<ControlBlock>) returns (copy: Handle)
      requires this in hs && Balanced(hs, bs) && (kind == tag || tag == Strong)
      modifies block
      ensures fresh(copy) && copy.tag == kind && copy.block == block
      ensures Balanced(hs + {copy}, bs)
    {
      ghost var links: Links, values: Values := LinksOf(hs), ValuesOf(bs);
      if block != null {
        PointsAtBlock(links, values, this);
      }
      copy := AddRef(kind, hs, bs);
      NewHandleBalance(links, values, copy, block);
    }

    /** counter_base(block, add_ref = true) */
    method AddRef(kind: Tag, ghost hs: set<Handle>, ghost bs: set<ControlBlock>) returns (copy: Handle)
      requires block != null ==> block in bs
      modifies block
      ensures fresh(copy) && copy.tag == kind && copy.block == block
      ensures LinksOf(hs + {copy}) == old(LinksOf(hs))[copy := block]
      ensures ValuesOf(bs) == if block == null then old(ValuesOf(bs))
                              else old(ValuesOf(bs))[block := old(block.value).Increased(kind)]
    {
      copy := new Handle(kind);
      copy.block := block;
      if block != null {
        block.Increase(kind);
      }
    }

    /** operator=(ControlBlock*): release the old block, then acquire the new one. With nullptr
        this is reset and the destructor. */
    method Replace(target: ControlBlock?, ghost hs: set<Handle>, ghost bs: set<ControlBlock>)
      requires this in hs && (block != null ==> block.value.Of(tag) > 0 && block.value.weak > 0)
      modifies this, block, target
      ensures LinksOf(hs) == old(LinksOf(hs))[this := target]
      ensures ValuesOf(bs) == Reassigned(old(LinksOf(hs)), old(ValuesOf(bs)), this, target)
    {
      var previous := block;
      block := target;
      if previous != null {
        previous.Decrease(tag);
      }
      if block != null {
        block.Increase(tag);
      }
      forall b | b in bs ensures b.value == Reassign(old(b.value), tag, b == previous, b == target) {}
    }

    /** The same seen from the world of all handles and blocks. */
    method Assign(target: ControlBlock?, ghost hs: set<Handle>, ghost bs: set<ControlBlock>)
      requires this in hs && Balanced(hs, bs)
      requires target != null ==> target in bs && target.value.Of(tag) > 0
      modifies this, block, target
      ensures LinksOf(hs) == old(LinksOf(hs))[this := target]
      ensures ValuesOf(bs) == Reassigned(old(LinksOf(hs)), old(ValuesOf(bs)), this, target)
      ensures Balanced(hs, bs) <==> !SoleSelfAssignment(old(LinksOf(hs)), old(ValuesOf(bs)), this, target)
    {
      ghost var links: Links, values: Values := LinksOf(hs), ValuesOf(bs);
      if block != null {
        PointsAtBlock(links, values, this);
      }
      ReassignedBalance(links, values, this, target);
      Replace(target, hs, bs);
    }

    method Reset(ghost hs: set<Handle>, ghost bs: set<ControlBlock>)
      requires this in hs && Balanced(hs, bs)
      modifies this, block
      ensures LinksOf(hs) == old(LinksOf(hs))[this := null] && Balanced(hs, bs)
    {
      Assign(null, hs, bs);
    }

    /** Copy assignment from a handle of the same kind, or to a weak handle from a strong one. It
        keeps the balance unless a handle that holds the last count is assigned to itself. */
    method CopyFrom(right: Handle, ghost hs: set<Handle>, ghost bs: set<ControlBlock>)
      requires this in hs && right in hs && (right.tag == tag || tag == Weak) && Balanced(hs, bs)
      modifies this, block, right.block
      ensures LinksOf(hs) == old(LinksOf(hs))[this := old(right.block)]
      ensures Balanced(hs, bs) <==> !(right == this && SoleSelfAssignment(old(LinksOf(hs)), old(ValuesOf(bs)), this, old(block)))
    {
      ghost var links, values := LinksOf(hs), ValuesOf(bs);
      if right.block != null {
        PointsAtBlock(links, values, right);
        if right.block == block && right != this {
          SecondHandleCounts(links, values, this, right);
        }
      }
      Assign(right.block, hs, bs);
    }

    /** Move assignment: the old block is released, the new one changes hands uncounted. */
    method MoveFrom(right: Handle, ghost hs: set<Handle>, ghost bs: set<ControlBlock>)
      requires this in hs && right in hs && right.tag == tag && Balanced(hs, bs)
      modifies this, right, block
      ensures LinksOf(hs) == Swapped(old(LinksOf(hs))[this := null], this, right)
      ensures Balanced(hs, bs)
    {
      ghost var links: Links, values: Values := LinksOf(hs), ValuesOf(bs);
      if block != null {
        PointsAtBlock(links, values, this);
      }
      ghost var released: Links := links[this := null];
      ReassignedBalance(links, values, this, null);
      SwapBalance(released, Reassigned(links, values, this, null), this, right);
      TakeOver(right, hs, bs);
    }

    /** operator=(counter_base&&) */
    method TakeOver(right: Handle, ghost hs: set<Handle>, ghost bs: set<ControlBlock>)
      requires this in hs && right in hs && (block != null ==> block.value.Of(tag) > 0 && block.value.weak > 0)
      modifies this, right, block
      ensures LinksOf(hs) == Swapped(old(LinksOf(hs))[this := null], this, right)
      ensures ValuesOf(bs) == Reassigned(old(LinksOf(hs)), old(ValuesOf(bs)), this, null)
    {
      var previous := block;
      block := right.block;
      if previous != null {
        previous.Decrease(tag);
      }
      right.block := null;
      forall b | b in bs ensures b.value == Reassign(old(b.value), tag, b == previous, false) {}
    }

    /** swap: three moves through a temporary, or nothing when both sides are the same handle. */
    method Swap(right: Handle, ghost hs: set<Handle>, ghost bs: set<ControlBlock>)
      requires this in hs && right in hs && right.tag == tag && Balanced(hs, bs)
      modifies this, right
      ensures LinksOf(hs) == Swapped(old(LinksOf(hs)), this, right) && Balanced(hs, bs)
    {
      ghost var links: Links, values: Values := LinksOf(hs), ValuesOf(bs);
      SwapBalance(links, values, this, right);
      Exchange(right, hs, bs);
    }

    method Exchange(right: Handle, ghost hs: set<Handle>, ghost bs: set<ControlBlock>)
      requires this in hs && right in hs
      modifies this, right
      ensures LinksOf(hs) == Swapped(old(LinksOf(hs)), this, right) && ValuesOf(bs) == old(ValuesOf(bs))
    {
      if this != right {
        var cache := block;
        block := right.block;
        right.block := cache;
      }
    }

    /** weak_counter_base::lock: a new strong handle, on the block exactly if a strong handle
        still points at it. */
    method Lock(ghost hs: set<Handle>, ghost bs: set<ControlBlock>) returns (locked: Handle)
      requires this in hs && tag == Weak && Balanced(hs, bs)
      modifies block
      ensures fresh(locked) && locked.tag == Strong
      ensures locked.block == if block != null && Pointing(old(LinksOf(hs)), Strong, block) != {} then block else null
      ensures Balanced(hs + {locked}, bs)
    {
      ghost var links: Links, values: Values := LinksOf(hs), ValuesOf(bs);
      if block != null {
        PointsAtBlock(links, values, this);
        assert Counted(links, block, values[block]);
      }
      locked := TryLock(hs, bs);
      NewHandleBalance(links, values, locked, locked.block);
    }

    method TryLock(ghost hs: set<Handle>, ghost bs: set<ControlBlock>) returns (locked: Handle)
      requires block != null ==> block in bs
      modifies block
      ensures fresh(locked) && locked.tag == Strong
      ensures locked.block == if block != null && old(block.value).strong > 0 then block else null
      ensures LinksOf(hs + {locked}) == old(LinksOf(hs))[locked := locked.block]
      ensures ValuesOf(bs) == if locked.block == null then old(ValuesOf(bs))
                              else old(ValuesOf(bs))[locked.block := old(block.value).Increased(Strong)]
    {
      locked := new Handle(Strong);
      if block != null {
        var ok := block.TryIncrease();
        if ok {
          locked.block := block;
        }
      }
    }
  }
}
