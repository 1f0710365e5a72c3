/** Programs over reference handles: any sequence of constructing, copying, moving, assigning,
    swapping, resetting and locking. */
module HandleRuns {
  import opened Handles

  datatype Op =
    | Make
    | Copy(from: nat, kind: Tag)
    | CopyAssign(to: nat, from: nat)
    | MoveAssign(to: nat, from: nat)
    | Swap(left: nat, right: nat)
    | Reset(handle: nat)
    | Lock(handle: nat)

  /** The handles and blocks that a program has created so far. */
  class Program {
    var handles: seq<Handle>
    ghost var blocks: set<ControlBlock>

    ghost function All(): set<Handle>
      reads this
    {
      set h | h in handles
    }

    /** Every counter is the number of handles that point at its block. */
    ghost predicate Valid()
      reads this, All(), blocks
    {
      Balanced(All(), blocks)
    }

    constructor ()
      ensures Valid() && handles == [] && blocks == {}
    {
      handles, blocks := [], {};
    }

    /** Operations that the types allow; assignment is between distinct handles. */
    predicate Allowed(op: Op)
      reads this
    {
      match op
      case Make => true
      case Copy(i, kind) => i < |handles| && (kind == handles[i].tag || handles[i].tag == Strong)
      case CopyAssign(i, j) =>
        && i < |handles| && j < |handles| && handles[i] != handles[j]
        && (handles[i].tag == handles[j].tag || handles[i].tag == Weak)
      case MoveAssign(i, j) => i < |handles| && j < |handles| && handles[i].tag == handles[j].tag
      case Swap(i, j) => i < |handles| && j < |handles| && handles[i].tag == handles[j].tag
      case Reset(i) => i < |handles|
      case Lock(i) => i < |handles| && handles[i].tag == Weak
    }

    lemma Known(i: nat)
      requires Valid() && i < |handles|
      ensures handles[i] in All() && (handles[i].block != null ==> handles[i].block in blocks)
    {
      assert LinksOf(All())[handles[i]] == handles[i].block;
    }

    method Add(h: Handle)
      modifies this`handles
      ensures handles == old(handles) + [h] && All() == old(All()) + {h}
    {
      handles := handles + [h];
    }

    method Create()
      requires Valid()
      modifies this
      ensures Valid() && fresh(All() - old(All())) && fresh(blocks - old(blocks))
    {
      var h, b := MakeRef(All(), blocks);
      blocks := blocks + {b};
      Add(h);
    }

    /** A new handle by copying, by weak(), or by locking. */
    method Derive(op: Op)
      requires Valid() && Allowed(op) && (op.Copy? || op.Lock?)
      modifies this`handles, blocks
      ensures Valid() && fresh(All() - old(All()))
    {
      var h;
      match op {
        case Copy(i, kind) =>
          Known(i);
          h := handles[i].Duplicate(kind, All(), blocks);
        case Lock(i) =>
          Known(i);
          h := handles[i].Lock(All(), blocks);
      }
      Add(h);
    }

    method Change(op: Op)
      requires Valid() && Allowed(op) && !op.Make? && !op.Copy? && !op.Lock?
      modifies All(), blocks
      ensures Valid()
    {
      match op {
        case CopyAssign(i, j) =>
          Known(i);
          Known(j);
          handles[i].CopyFrom(handles[j], All(), blocks);
        case MoveAssign(i, j) =>
          Known(i);
          Known(j);
          handles[i].MoveFrom(handles[j], All(), blocks);
        case Swap(i, j) =>
          Known(i);
          Known(j);
          handles[i].Swap(handles[j], All(), blocks);
        case Reset(i) =>
          Known(i);
          handles[i].Reset(All(), blocks);
      }
    }

    /** Over every program, each counter of each block counts the handles that point at it. */
    method Run(ops: seq<Op>)
      requires Valid()
      modifies this, All(), blocks
      ensures Valid()
    {
      for k := 0 to |ops|
        invariant Valid() && fresh(All() - old(All())) && fresh(blocks - old(blocks))
      {
        if Allowed(ops[k]) {
          if ops[k].Make? {
            Create();
          } else if ops[k].Copy? || ops[k].Lock? {
            Derive(ops[k]);
          } else {
            Change(ops[k]);
          }
        }
      }
    }
  }
}
