/** Ownership of storage cells by persistent handles: PersistentBase, Persistent and UniquePersistent. */
module Persistents {
  import opened Options

  /** A Persistent with the default traits, one with the copyable traits, or a UniquePersistent. */
  datatype Kind = Plain | Copyable | Unique

  datatype Handle = Handle(kind: Kind, cell: Option<nat>)

  /** The handles that exist, and every storage cell ever created: the object that cell c refers to and the
      kind of handle it was created for. A cell is disposed, or leaked by a destructor that does not reset. */
  datatype State = State(handles: map<nat, Handle>, objects: seq<nat>, kinds: seq<Kind>,
                         disposed: multiset<nat>, leaked: multiset<nat>) {

    predicate Owns(h: nat, c: nat) {
      h in handles && handles[h].cell == Some(c)
    }

    /** Each cell is in exactly one place: with one handle, disposed once, or leaked once. */
    ghost predicate Valid() {
      && |kinds| == |objects|
      && (forall h: nat, c: nat :: Owns(h, c) ==>
            c < |objects| && disposed[c] + leaked[c] == 0 && (kinds[c] == Plain <==> handles[h].kind == Plain))
      && (forall g: nat, h: nat, c: nat :: Owns(g, c) && Owns(h, c) ==> g == h)
      && (forall c: nat :: c < |objects| ==>
            disposed[c] + leaked[c] == 1 || (disposed[c] + leaked[c] == 0 && exists h: nat :: Owns(h, c)))
      && (forall c: nat :: c < |objects| && leaked[c] > 0 ==> kinds[c] == Plain)
      && (forall c: nat :: c >= |objects| ==> disposed[c] + leaked[c] == 0)
    }

    /** The object that a handle refers to. */
    function Object(h: nat): Option<nat>
      requires h in handles && (handles[h].cell.Some? ==> handles[h].cell.value < |objects|)
    {
      match handles[h].cell
      case None => None
      case Some(c) => Some(objects[c])
    }
  }

  const INITIAL: State := State(map[], [], [], multiset{}, multiset{})

  // ----- the building blocks -----

  /** Reset: disposes the cell of h, if there is one. */
  function Emptied(st: State, h: nat): State
    requires h in st.handles
  {
    match st.handles[h].cell
    case None => st
    case Some(c) => st.(handles := st.handles[h := Handle(st.handles[h].kind, None)], disposed := st.disposed + multiset{c})
  }

  /** A new cell for h that refers to the object o, if there is one. */
  function Filled(st: State, h: nat, o: Option<nat>): State
    requires h in st.handles
  {
    match o
    case None => st
    case Some(target) =>
      st.(handles := st.handles[h := Handle(st.handles[h].kind, Some(|st.objects|))],
          objects := st.objects + [target], kinds := st.kinds + [st.handles[h].kind])
  }

  /** A new handle without a cell. */
  function Added(st: State, h: nat, kind: Kind): State {
    st.(handles := st.handles[h := Handle(kind, None)])
  }

  /** The cell of the handle from goes to h, which has none. */
  function Moved(st: State, h: nat, from: nat): State
    requires h in st.handles && from in st.handles
  {
    var cell := st.handles[from].cell;
    st.(handles := st.handles[from := Handle(st.handles[from].kind, None)][h := Handle(st.handles[h].kind, cell)])
  }

  function Removed(st: State, h: nat): State
    requires h in st.handles
  {
    var rest := map g | g in st.handles && g != h :: st.handles[g];
    match st.handles[h].cell
    case None => st.(handles := rest)
    case Some(c) => st.(handles := rest, leaked := st.leaked + multiset{c})
  }

  lemma {:induction false} EmptiedKeepsValid(st: State, h: nat)
    requires st.Valid() && h in st.handles
    ensures Emptied(st, h).Valid()
  {
    var st' := Emptied(st, h);
    match st.handles[h].cell
    case None =>
    case Some(c) =>
      assert st.Owns(h, c);
      forall b: nat | b < |st.objects|
        ensures st'.disposed[b] + st'.leaked[b] == 1
                || (st'.disposed[b] + st'.leaked[b] == 0 && exists g: nat :: st'.Owns(g, b))
      {
        if b != c && st.disposed[b] + st.leaked[b] == 0 {
          var g: nat :| st.Owns(g, b);
          assert st'.Owns(g, b);
        }
      }
      forall g: nat, b: nat | st'.Owns(g, b)
        ensures st.Owns(g, b) && b != c
      {
        assert g != h && st.Owns(g, b);
      }
  }

  lemma {:induction false} FilledKeepsValid(st: State, h: nat, o: Option<nat>)
    requires st.Valid() && h in st.handles && st.handles[h].cell == None
    ensures Filled(st, h, o).Valid()
  {
    var st', n := Filled(st, h, o), |st.objects|;
    if o.Some? {
      assert st'.Owns(h, n);
      forall g: nat, b: nat | st'.Owns(g, b)
        ensures (g == h && b == n) || (g != h && st.Owns(g, b) && b < n)
      {
        assert g != h ==> st.Owns(g, b);
      }
      forall b: nat | b < |st'.objects|
        ensures st'.disposed[b] + st'.leaked[b] == 1
                || (st'.disposed[b] + st'.leaked[b] == 0 && exists g: nat :: st'.Owns(g, b))
      {
        if b < n && st.disposed[b] + st.leaked[b] == 0 {
          var g: nat :| st.Owns(g, b);
          assert st'.Owns(g, b);
        }
      }
    }
  }

  lemma {:induction false} AddedKeepsValid(st: State, h: nat, kind: Kind)
    requires st.Valid() && h !in st.handles
    ensures Added(st, h, kind).Valid()
  {
    var st' := Added(st, h, kind);
    assert forall g: nat, b: nat :: st'.Owns(g, b) <==> st.Owns(g, b);
  }

  lemma {:induction false} MovedKeepsValid(st: State, h: nat, from: nat)
    requires st.Valid() && h in st.handles && from in st.handles && h != from
    requires st.handles[h].cell == None && st.handles[h].kind == st.handles[from].kind
    ensures Moved(st, h, from).Valid()
  {
    var st' := Moved(st, h, from);
    forall g: nat, b: nat | st'.Owns(g, b)
      ensures if g == h then st.Owns(from, b) else g != from && st.Owns(g, b)
    {
    }
    forall b: nat | b < |st.objects|
      ensures st'.disposed[b] + st'.leaked[b] == 1
              || (st'.disposed[b] + st'.leaked[b] == 0 && exists g: nat :: st'.Owns(g, b))
    {
      if st.disposed[b] + st.leaked[b] == 0 {
        var g: nat :| st.Owns(g, b);
        assert st'.Owns(if g == from then h else g, b);
      }
    }
  }

  lemma {:induction false} RemovedOwns(st: State, h: nat, g: nat, c: nat)
    requires h in st.handles
    ensures Removed(st, h).Owns(g, c) <==> g != h && st.Owns(g, c)
  {
  }

  lemma {:induction false} RemovedPlaces(st: State, h: nat, c: nat)
    requires st.Valid() && h in st.handles
    requires st.handles[h].cell == None || st.handles[h].kind == Plain
    ensures var st' := Removed(st, h);
            && st'.disposed == st.disposed && st'.leaked[c] == st.leaked[c] + (if st.Owns(h, c) then 1 else 0)
            && (c < |st.objects| ==>
                  st'.disposed[c] + st'.leaked[c] == 1
                  || (st'.disposed[c] + st'.leaked[c] == 0 && exists g: nat :: st'.Owns(g, c)))
  {
    if c < |st.objects| && !st.Owns(h, c) && st.disposed[c] + st.leaked[c] == 0 {
      var g: nat :| st.Owns(g, c);
      RemovedOwns(st, h, g, c);
    }
  }

  lemma {:induction false} RemovedKeepsValid(st: State, h: nat)
    requires st.Valid() && h in st.handles
    requires st.handles[h].cell == None || st.handles[h].kind == Plain
    ensures Removed(st, h).Valid()
  {
    var st' := Removed(st, h);
    forall g: nat, c: nat
      ensures st'.Owns(g, c) <==> g != h && st.Owns(g, c)
    {
      RemovedOwns(st, h, g, c);
    }
    forall c: nat
      ensures st'.disposed == st.disposed && st'.leaked[c] == st.leaked[c] + (if st.Owns(h, c) then 1 else 0)
      ensures c < |st.objects| ==>
                st'.disposed[c] + st'.leaked[c] == 1
                || (st'.disposed[c] + st'.leaked[c] == 0 && exists g: nat :: st'.Owns(g, c))
    {
      RemovedPlaces(st, h, c);
    }
  }

  // ----- the operations -----

  datatype Operation =
    | Create(h: nat, kind: Kind, target: Option<nat>)
    | CreateFrom(h: nat, kind: Kind, that: nat)
    | MoveConstruct(h: nat, from: nat)
    | Reset(h: nat)
    | ResetTo(h: nat, target: Option<nat>)
    | ResetFrom(h: nat, that: nat)
    | Copy(h: nat, that: nat)
    | MoveAssign(h: nat, from: nat)
    | Destroy(h: nat)

  /** The handles exist and have the types that the operation needs. */
  predicate Allowed(st: State, op: Operation) {
    match op
    case Create(h, _, _) => h !in st.handles
    case CreateFrom(h, _, that) => h !in st.handles && that in st.handles
    case MoveConstruct(h, from) => h !in st.handles && from in st.handles && st.handles[from].kind == Unique
    case Reset(h) => h in st.handles
    case ResetTo(h, _) => h in st.handles
    case ResetFrom(h, that) => h in st.handles && that in st.handles
    case Copy(h, that) => h in st.handles && that in st.handles && st.handles[h].kind == Copyable && st.handles[that].kind != Unique
    case MoveAssign(h, from) => h in st.handles && from in st.handles && st.handles[h].kind == Unique && st.handles[from].kind == Unique
    case Destroy(h) => h in st.handles
  }

  /** What an operation does, whichever handles coincide: a handle that is copied or reset from itself ends up
      empty, and one that is moved to itself unchanged. */
  ghost function Apply(st: State, op: Operation): State
    requires st.Valid() && Allowed(st, op)
  {
    CellsInRange(st);
    match op
    case Create(h, kind, target) => Filled(Added(st, h, kind), h, target)
    case CreateFrom(h, kind, that) => Filled(Added(st, h, kind), h, st.Object(that))
    case MoveConstruct(h, from) => Moved(Added(st, h, Unique), h, from)
    case Reset(h) => Emptied(st, h)
    case ResetTo(h, target) => Filled(Emptied(st, h), h, target)
    case ResetFrom(h, that) => if h == that then Emptied(st, h) else Filled(Emptied(st, h), h, st.Object(that))
    case Copy(h, that) => if h == that then Emptied(st, h) else Filled(Emptied(st, h), h, st.Object(that))
    case MoveAssign(h, from) => if h == from then st else Moved(Emptied(st, h), h, from)
    case Destroy(h) => if st.handles[h].kind == Plain then Removed(st, h) else Removed(Emptied(st, h), h)
  }

  lemma {:induction false} CellsInRange(st: State)
    requires st.Valid()
    ensures forall h: nat :: h in st.handles && st.handles[h].cell.Some? ==> st.handles[h].cell.value < |st.objects|
  {
    forall h: nat | h in st.handles && st.handles[h].cell.Some?
      ensures st.handles[h].cell.value < |st.objects|
    {
      assert st.Owns(h, st.handles[h].cell.value);
    }
  }

  lemma {:induction false} CreateKeepsValid(st: State, h: nat, kind: Kind, o: Option<nat>)
    requires st.Valid() && h !in st.handles
    ensures Filled(Added(st, h, kind), h, o).Valid()
  {
    AddedKeepsValid(st, h, kind);
    FilledKeepsValid(Added(st, h, kind), h, o);
  }

  lemma {:induction false} ReplaceKeepsValid(st: State, h: nat, o: Option<nat>)
    requires st.Valid() && h in st.handles
    ensures Filled(Emptied(st, h), h, o).Valid()
  {
    EmptiedKeepsValid(st, h);
    FilledKeepsValid(Emptied(st, h), h, o);
  }

  lemma {:induction false} TakeKeepsValid(st: State, h: nat, from: nat)
    requires st.Valid() && h in st.handles && from in st.handles && h != from
    requires st.handles[h].kind == st.handles[from].kind
    ensures Moved(Emptied(st, h), h, from).Valid()
  {
    EmptiedKeepsValid(st, h);
    MovedKeepsValid(Emptied(st, h), h, from);
  }

  lemma {:induction false} DestroyKeepsValid(st: State, h: nat)
    requires st.Valid() && h in st.handles
    ensures Removed(Emptied(st, h), h).Valid()
  {
    EmptiedKeepsValid(st, h);
    RemovedKeepsValid(Emptied(st, h), h);
  }

  /** Every operation keeps each cell in exactly one place. */
  lemma {:induction false} ApplyKeepsValid(st: State, op: Operation)
    requires st.Valid() && Allowed(st, op)
    ensures Apply(st, op).Valid()
  {
    CellsInRange(st);
    match op
    case Create(h, kind, target) =>
      CreateKeepsValid(st, h, kind, target);
    case CreateFrom(h, kind, that) =>
      CreateKeepsValid(st, h, kind, st.Object(that));
    case MoveConstruct(h, from) =>
      AddedKeepsValid(st, h, Unique);
      MovedKeepsValid(Added(st, h, Unique), h, from);
    case Reset(h) =>
      EmptiedKeepsValid(st, h);
    case ResetTo(h, target) =>
      ReplaceKeepsValid(st, h, target);
    case ResetFrom(h, that) =>
      if h == that { EmptiedKeepsValid(st, h); } else { ReplaceKeepsValid(st, h, st.Object(that)); }
    case Copy(h, that) =>
      if h == that { EmptiedKeepsValid(st, h); } else { ReplaceKeepsValid(st, h, st.Object(that)); }
    case MoveAssign(h, from) =>
      if h != from { TakeKeepsValid(st, h, from); }
    case Destroy(h) =>
      if st.handles[h].kind == Plain { RemovedKeepsValid(st, h); } else { DestroyKeepsValid(st, h); }
  }

  ghost predicate Run(st: State, ops: seq<Operation>, st': State)
    decreases |ops|
  {
    if ops == [] then st' == st
    else st.Valid() && Allowed(st, ops[0]) && Run(Apply(st, ops[0]), ops[1..], st')
  }

  lemma {:induction false} RunKeepsValid(st: State, ops: seq<Operation>, st': State)
    requires st.Valid() && Run(st, ops, st')
    ensures st'.Valid()
    decreases |ops|
  {
    if ops != [] {
      ApplyKeepsValid(st, ops[0]);
      RunKeepsValid(Apply(st, ops[0]), ops[1..], st');
    }
  }

  /** Over every run, no cell has two owners or is disposed twice, or both owned and disposed; and once every
      UniquePersistent and copyable handle is gone, each cell created for one has been disposed exactly once. */
  lemma {:induction false} EveryRunDisposesOnce(ops: seq<Operation>, st: State, c: nat)
    requires Run(INITIAL, ops, st)
    ensures st.disposed[c] <= 1
    ensures forall g: nat, h: nat :: st.Owns(g, c) && st.Owns(h, c) ==> g == h
    ensures forall h: nat :: st.Owns(h, c) ==> st.disposed[c] == 0
    ensures (forall h: nat :: h in st.handles ==> st.handles[h].kind == Plain) && c < |st.kinds| && st.kinds[c] != Plain ==>
              st.disposed[c] == 1
  {
    RunKeepsValid(INITIAL, ops, st);
    if (forall h: nat :: h in st.handles ==> st.handles[h].kind == Plain) && c < |st.kinds| && st.kinds[c] != Plain {
      forall h: nat
        ensures !st.Owns(h, c)
      {
      }
    }
  }

  /** Copying, and resetting from another handle, carries the object over exactly when the handle is not its
      own source or has nothing to lose. */
  lemma {:induction false} CopyCarriesObject(st: State, h: nat, that: nat, op: Operation)
    requires st.Valid() && Allowed(st, op) && (op == Copy(h, that) || op == ResetFrom(h, that))
    ensures var st' := Apply(st, op);
            && st'.Valid() && h in st'.handles && that in st'.handles
            && (CellsInRange(st); CellsInRange(st');
                st'.Object(h) == st.Object(that) <==> h != that || st.handles[that].cell == None)
            && (h != that ==> st'.handles[that] == st.handles[that])
  {
    ApplyKeepsValid(st, op);
    CellsInRange(st);
    var st' := Apply(st, op);
    CellsInRange(st');
    if h != that {
      FilledRefers(Emptied(st, h), h, st.Object(that));
    }
  }

  lemma {:induction false} FilledRefers(st: State, h: nat, o: Option<nat>)
    requires h in st.handles && st.handles[h].cell == None
    ensures h in Filled(st, h, o).handles
    ensures var handle := Filled(st, h, o).handles[h];
            if o == None then handle.cell == None
            else handle.cell == Some(|st.objects|) && Filled(st, h, o).objects == st.objects + [o.value]
  {
  }

  /** What a handle refers to in a valid state. */
  ghost function Referent(st: State, h: nat): Option<nat>
    requires st.Valid() && h in st.handles
  {
    CellsInRange(st);
    st.Object(h)
  }

  lemma {:induction false} FilledReferent(st: State, h: nat, o: Option<nat>)
    requires st.Valid() && h in st.handles && st.handles[h].cell == None
    ensures Filled(st, h, o).Valid() && h in Filled(st, h, o).handles
    ensures Referent(Filled(st, h, o), h) == o
    ensures Filled(st, h, o).handles[h].kind == st.handles[h].kind
  {
    FilledKeepsValid(st, h, o);
    FilledRefers(st, h, o);
  }

  /** Reset leaves the handle empty and disposes the cell that it held, and nothing else. */
  lemma {:induction false} ResetEmpties(st: State, h: nat)
    requires st.Valid() && Allowed(st, Reset(h))
    ensures var st' := Apply(st, Reset(h));
            && st'.Valid() && h in st'.handles && Referent(st', h) == None
            && st'.objects == st.objects && st'.leaked == st.leaked
            && st'.disposed == st.disposed + (match st.handles[h].cell case None => multiset{} case Some(c) => multiset{c})
  {
    ApplyKeepsValid(st, Reset(h));
  }

  /** After a reset to a local handle the handle refers to what the local handle does, be it empty. */
  lemma {:induction false} ResetToRefers(st: State, h: nat, target: Option<nat>)
    requires st.Valid() && Allowed(st, ResetTo(h, target))
    ensures var st' := Apply(st, ResetTo(h, target));
            && st'.Valid() && h in st'.handles && Referent(st', h) == target
            && st'.handles[h].kind == st.handles[h].kind
  {
    EmptiedKeepsValid(st, h);
    FilledReferent(Emptied(st, h), h, target);
  }

  /** A new handle refers to what it was constructed from, a local handle or a persistent one, which keeps its
      cell. */
  lemma {:induction false} CreateRefers(st: State, h: nat, kind: Kind, target: Option<nat>)
    requires st.Valid() && Allowed(st, Create(h, kind, target))
    ensures var st' := Apply(st, Create(h, kind, target));
            && st'.Valid() && h in st'.handles && Referent(st', h) == target && st'.handles[h].kind == kind
  {
    AddedKeepsValid(st, h, kind);
    FilledReferent(Added(st, h, kind), h, target);
  }

  lemma {:induction false} CreateFromRefers(st: State, h: nat, kind: Kind, that: nat)
    requires st.Valid() && Allowed(st, CreateFrom(h, kind, that))
    ensures var st' := Apply(st, CreateFrom(h, kind, that));
            && st'.Valid() && h in st'.handles && that in st'.handles
            && Referent(st', h) == Referent(st, that) && st'.handles[h].kind == kind
            && st'.handles[that] == st.handles[that]
  {
    AddedKeepsValid(st, h, kind);
    FilledReferent(Added(st, h, kind), h, Referent(st, that));
  }

  /** Move construction hands over the very cell. */
  lemma {:induction false} MoveConstructTakes(st: State, h: nat, from: nat)
    requires st.Valid() && Allowed(st, MoveConstruct(h, from))
    ensures var st' := Apply(st, MoveConstruct(h, from));
            && st'.Valid() && h in st'.handles && from in st'.handles
            && st'.handles[h] == Handle(Unique, st.handles[from].cell) && st'.handles[from].cell == None
            && st'.objects == st.objects && st'.disposed == st.disposed && st'.leaked == st.leaked
  {
    ApplyKeepsValid(st, MoveConstruct(h, from));
  }

  /** Destruction removes the handle alone. A handle that resets disposes its cell, a plain one leaks it. */
  lemma {:induction false} DestroyRemoves(st: State, h: nat)
    requires st.Valid() && Allowed(st, Destroy(h))
    ensures var st' := Apply(st, Destroy(h));
            var cells := match st.handles[h].cell case None => multiset{} case Some(c) => multiset{c};
            && st'.Valid() && st'.handles == (map g | g in st.handles && g != h :: st.handles[g])
            && st'.disposed == st.disposed + (if st.handles[h].kind == Plain then multiset{} else cells)
            && st'.leaked == st.leaked + (if st.handles[h].kind == Plain then cells else multiset{})
  {
    ApplyKeepsValid(st, Destroy(h));
  }

  /** Moving carries the object over even to the handle itself. */
  lemma {:induction false} MoveCarriesObject(st: State, h: nat, from: nat)
    requires st.Valid() && Allowed(st, MoveAssign(h, from))
    ensures var st' := Apply(st, MoveAssign(h, from));
            && st'.Valid() && h in st'.handles && from in st'.handles
            && st'.handles[h].cell == st.handles[from].cell && st'.objects == st.objects
            && (h != from ==> st'.handles[from].cell == None)
  {
    ApplyKeepsValid(st, MoveAssign(h, from));
  }

  /** Taking the cell out of from first, and emptying h after that, comes to the move assignment. */
  lemma {:induction false} MoveInSteps(st: State, h: nat, from: nat)
    requires h in st.handles && from in st.handles
    ensures var taken := st.(handles := st.handles[from := Handle(st.handles[from].kind, None)]);
            var emptied := Emptied(taken, h);
            emptied.(handles := emptied.handles[h := Handle(emptied.handles[h].kind, st.handles[from].cell)])
            == if h == from then st else Moved(Emptied(st, h), h, from)
  {
    var taken := st.(handles := st.handles[from := Handle(st.handles[from].kind, None)]);
    if h == from {
      assert st.handles[h := st.handles[h]] == st.handles;
      assert Emptied(taken, h) == taken;
    } else {
      assert taken.handles[h] == st.handles[h];
    }
  }

  /** Looking at the source after the destination was emptied comes to the copy, self-assignment included. */
  lemma {:induction false} CopyInSteps(st: State, h: nat, that: nat)
    requires st.Valid() && h in st.handles && that in st.handles
    ensures var emptied, cell := Emptied(st, h), Emptied(st, h).handles[that].cell;
            && (cell.Some? ==> cell.value < |emptied.objects|)
            && (CellsInRange(st);
                Filled(emptied, h, if cell.Some? then Some(emptied.objects[cell.value]) else None)
                == if h == that then emptied else Filled(emptied, h, st.Object(that)))
  {
    CellsInRange(st);
    if h != that {
      assert Emptied(st, h).handles[that] == st.handles[that];
    }
  }

  /** The handles and cells as the program updates them, step by step. A handle is known by its address. */
  class Isolate {
    var handles: map<nat, Handle>
    var objects: seq<nat>
    ghost var kinds: seq<Kind>
    ghost var disposed: multiset<nat>
    ghost var leaked: multiset<nat>

    ghost function View(): State
      reads this
    {
      State(handles, objects, kinds, disposed, leaked)
    }

    method SetCell(h: nat, cell: Option<nat>)
      requires h in handles
      modifies this`handles
      ensures handles == old(handles)[h := Handle(old(handles)[h].kind, cell)]
    {
      handles := handles[h := Handle(handles[h].kind, cell)];
    }

    /** A new cell for the handle h that refers to the object target. */
    method NewCell(h: nat, target: nat)
      requires h in handles
      modifies this
      ensures View() == Filled(old(View()), h, Some(target))
    {
      var cell := |objects|;
      objects := objects + [target];
      kinds := kinds + [handles[h].kind];
      SetCell(h, Some(cell));
    }

    method ResetHandle(h: nat)
      requires h in handles
      modifies this
      ensures View() == Emptied(old(View()), h)
    {
      if handles[h].cell.Some? {
        disposed := disposed + multiset{handles[h].cell.value};
        SetCell(h, None);
      }
    }

    /** Persistent::Copy: the source is looked at only after the destination has been reset. */
    method CopyHandle(h: nat, that: nat)
      requires View().Valid() && Allowed(View(), Copy(h, that))
      modifies this
      ensures View() == Apply(old(View()), Copy(h, that))
    {
      CopyInSteps(View(), h, that);
      ResetHandle(h);
      if handles[that].cell == None {
        return;
      }
      NewCell(h, objects[handles[that].cell.value]);
    }

    /** A handle constructed from a local handle, which refers to target unless it is empty. */
    method CreateHandle(h: nat, kind: Kind, target: Option<nat>)
      requires View().Valid() && Allowed(View(), Create(h, kind, target))
      modifies this
      ensures View() == Apply(old(View()), Create(h, kind, target))
    {
      handles := handles[h := Handle(kind, None)];
      if target.Some? {
        NewCell(h, target.value);
      }
    }

    /** A handle constructed from another persistent handle. */
    method CreateHandleFrom(h: nat, kind: Kind, that: nat)
      requires View().Valid() && Allowed(View(), CreateFrom(h, kind, that))
      modifies this
      ensures View() == Apply(old(View()), CreateFrom(h, kind, that))
    {
      CellsInRange(View());
      handles := handles[h := Handle(kind, None)];
      if handles[that].cell.Some? {
        NewCell(h, objects[handles[that].cell.value]);
      }
    }

    method MoveConstructHandle(h: nat, from: nat)
      requires View().Valid() && Allowed(View(), MoveConstruct(h, from))
      modifies this
      ensures View() == Apply(old(View()), MoveConstruct(h, from))
    {
      var cell := handles[from].cell;
      ghost var added := handles[h := Handle(Unique, None)];
      handles := handles[h := Handle(Unique, cell)];
      SetCell(from, None);
      assert handles == added[from := Handle(added[from].kind, None)][h := Handle(Unique, cell)];
    }

    method ResetHandleTo(h: nat, target: Option<nat>)
      requires View().Valid() && Allowed(View(), ResetTo(h, target))
      modifies this
      ensures View() == Apply(old(View()), ResetTo(h, target))
    {
      ResetHandle(h);
      if target == None {
        return;
      }
      NewCell(h, target.value);
    }

    /** The other handle is looked at only after this one has been reset. */
    method ResetHandleFrom(h: nat, that: nat)
      requires View().Valid() && Allowed(View(), ResetFrom(h, that))
      modifies this
      ensures View() == Apply(old(View()), ResetFrom(h, that))
    {
      CopyInSteps(View(), h, that);
      ResetHandle(h);
      if handles[that].cell == None {
        return;
      }
      NewCell(h, objects[handles[that].cell.value]);
    }

    /** Assignment from a UniquePersistent passed by value: the parameter takes the cell first. */
    method MoveAssignHandle(h: nat, from: nat)
      requires View().Valid() && Allowed(View(), MoveAssign(h, from))
      modifies this
      ensures View() == Apply(old(View()), MoveAssign(h, from))
    {
      var rhs := handles[from].cell;
      MoveInSteps(View(), h, from);
      SetCell(from, None);
      ResetHandle(h);
      SetCell(h, rhs);
    }

    method DestroyHandle(h: nat)
      requires View().Valid() && Allowed(View(), Destroy(h))
      modifies this
      ensures View() == Apply(old(View()), Destroy(h))
    {
      if handles[h].kind != Plain {
        ResetHandle(h);
      }
      if handles[h].cell.Some? {
        leaked := leaked + multiset{handles[h].cell.value};
      }
      handles := map g | g in handles && g != h :: handles[g];
    }
  }
}
