/** The blocks that back handle scopes: the block operations of HandleScopeImplementer. A block is known by
    the order of its allocation; addresses are counted in slots. */
module HandleBlocks {
  import opened Options

  const HANDLE_BLOCK_SIZE: nat := 1024 - 2

  /** Where every block is. Blocks leave the implementer to the caller, who may push them on the stack of
      blocks or return them. The block b was allocated at the address starts[b]. */
  datatype State = State(blocks: seq<nat>, spare: Option<nat>, held: multiset<nat>, freed: multiset<nat>, starts: seq<nat>) {

    function Limit(b: nat): nat
      requires b < |starts|
    {
      starts[b] + HANDLE_BLOCK_SIZE
    }

    ghost predicate IsLive(b: nat) {
      b in blocks || spare == Some(b) || b in held
    }

    /** In how many places the block is. */
    ghost function Places(b: nat): nat {
      multiset(blocks)[b] + (if spare == Some(b) then 1 else 0) + held[b] + freed[b]
    }

    /** Every block that was ever allocated is in exactly one place. */
    ghost predicate Conserved() {
      forall b: nat :: Places(b) == if b < |starts| then 1 else 0
    }

    predicate Apart(b: nat, c: nat)
      requires b < |starts| && c < |starts|
    {
      Limit(b) <= starts[c] || Limit(c) <= starts[b]
    }

    /** Live blocks do not overlap, and none is at the null address. */
    ghost predicate Disjoint() {
      && (forall b: nat :: IsLive(b) ==> b < |starts| && starts[b] > 0)
      && (forall b: nat, c: nat :: IsLive(b) && IsLive(c) && b != c ==> b < |starts| && c < |starts| && Apart(b, c))
    }

    ghost predicate Valid() {
      Conserved() && Disjoint()
    }
  }

  ghost function Single(o: Option<nat>): multiset<nat> {
    match o
    case None => multiset{}
    case Some(b) => multiset{b}
  }

  // ----- the operations -----

  datatype Operation =
    | GetSpareOrNewBlock(address: nat)
    | AddBlock(b: nat)
    | ReturnBlock(b: nat)
    | DeleteExtensions(prevLimit: nat)
    | Free

  /** The allocator hands out room that no live block occupies. */
  ghost predicate Fits(st: State, address: nat) {
    && address > 0
    && forall b: nat :: st.IsLive(b) && b < |st.starts| ==>
         (st.Limit(b) <= address || address + HANDLE_BLOCK_SIZE <= st.starts[b])
  }

  /** What the callers owe. */
  ghost predicate Allowed(st: State, op: Operation) {
    match op
    case GetSpareOrNewBlock(address) => st.spare == None ==> Fits(st, address)
    case AddBlock(b) => b in st.held
    case ReturnBlock(b) => b in st.held
    case DeleteExtensions(_) => true
    case Free => st.blocks == []
  }

  function WithSpare(st: State, b: nat): State {
    match st.spare
    case None => st.(spare := Some(b))
    case Some(c) => st.(spare := Some(b), freed := st.freed + multiset{c})
  }

  function Pop(st: State): State
    requires st.blocks != []
  {
    var last := |st.blocks| - 1;
    WithSpare(st.(blocks := st.blocks[..last]), st.blocks[last])
  }

  /** Every block on the stack has an address. */
  predicate Addressed(blocks: seq<nat>, starts: seq<nat>) {
    forall i :: 0 <= i < |blocks| ==> blocks[i] < |starts|
  }

  /** How many blocks the release build leaves: it stops at the one whose limit is the given one. */
  function Cut(blocks: seq<nat>, starts: seq<nat>, prevLimit: nat): (n: nat)
    requires Addressed(blocks, starts)
    ensures n <= |blocks|
  {
    if blocks == [] then 0
    else
      var last := |blocks| - 1;
      if starts[blocks[last]] + HANDLE_BLOCK_SIZE == prevLimit then |blocks|
      else Cut(blocks[..last], starts, prevLimit)
  }

  /** How many the debug build leaves: it stops at the one that contains the address, both ends included. */
  function CutDebug(blocks: seq<nat>, starts: seq<nat>, prevLimit: nat): (n: nat)
    requires Addressed(blocks, starts)
    ensures n <= |blocks|
  {
    if blocks == [] then 0
    else
      var last := |blocks| - 1;
      if starts[blocks[last]] <= prevLimit <= starts[blocks[last]] + HANDLE_BLOCK_SIZE then |blocks|
      else CutDebug(blocks[..last], starts, prevLimit)
  }

  lemma {:induction false} CutBelow(blocks: seq<nat>, starts: seq<nat>, prevLimit: nat)
    requires Addressed(blocks, starts) && blocks != []
    requires starts[blocks[|blocks| - 1]] + HANDLE_BLOCK_SIZE != prevLimit
    ensures Addressed(blocks[..|blocks| - 1], starts)
    ensures Cut(blocks, starts, prevLimit) == Cut(blocks[..|blocks| - 1], starts, prevLimit) < |blocks|
  {
  }

  /** Pops blocks until n are left. */
  function PopTo(st: State, n: nat): State
    requires n <= |st.blocks|
    decreases |st.blocks|
  {
    if |st.blocks| == n then st else PopTo(Pop(st), n)
  }

  /** Moving a block between places, or freeing it, keeps the invariant. */
  lemma {:induction false} MoveKeepsValid(st: State, st': State)
    requires st.Valid() && st'.starts == st.starts
    requires forall b: nat :: st'.Places(b) == st.Places(b)
    requires forall b: nat :: st'.IsLive(b) ==> st.IsLive(b)
    ensures st'.Valid()
  {
    forall b: nat, c: nat | st'.IsLive(b) && st'.IsLive(c) && b != c
      ensures b < |st'.starts| && c < |st'.starts| && st'.Apart(b, c)
    {
      assert st.Apart(b, c);
    }
  }

  lemma {:induction false} SplitLast(s: seq<nat>, b: nat)
    requires s != []
    ensures multiset(s)[b] == multiset(s[..|s| - 1])[b] + (if b == s[|s| - 1] then 1 else 0)
    ensures b in s <==> b in s[..|s| - 1] || b == s[|s| - 1]
  {
    assert s == s[..|s| - 1] + [s[|s| - 1]];
  }

  lemma {:induction false} WithSpareMoves(st: State, b: nat, x: nat)
    ensures WithSpare(st, b).Places(x) == st.Places(x) + (if x == b then 1 else 0)
    ensures WithSpare(st, b).IsLive(x) ==> st.IsLive(x) || x == b
    ensures WithSpare(st, b).starts == st.starts
  {
  }

  lemma {:induction false} PopKeepsValid(st: State)
    requires st.Valid() && st.blocks != []
    ensures Pop(st).Valid() && Pop(st).starts == st.starts && Pop(st).held == st.held
  {
    var last := |st.blocks| - 1;
    var lower := st.(blocks := st.blocks[..last]);
    forall x: nat
      ensures Pop(st).Places(x) == st.Places(x)
      ensures Pop(st).IsLive(x) ==> st.IsLive(x)
    {
      SplitLast(st.blocks, x);
      WithSpareMoves(lower, st.blocks[last], x);
    }
    MoveKeepsValid(st, Pop(st));
  }

  lemma {:induction false} ValidIsAddressed(st: State)
    requires st.Valid()
    ensures Addressed(st.blocks, st.starts)
    ensures forall i :: 0 <= i < |st.blocks| ==> st.starts[st.blocks[i]] > 0
  {
    forall i | 0 <= i < |st.blocks|
      ensures st.blocks[i] < |st.starts| && st.starts[st.blocks[i]] > 0
    {
      assert st.IsLive(st.blocks[i]);
    }
  }

  ghost function Apply(st: State, op: Operation): State
    requires st.Valid() && Allowed(st, op)
  {
    match op
    case GetSpareOrNewBlock(address) =>
      (match st.spare
       case Some(b) => st.(spare := None, held := st.held + multiset{b})
       case None => st.(held := st.held + multiset{|st.starts|}, starts := st.starts + [address]))
    case AddBlock(b) => st.(blocks := st.blocks + [b], held := st.held - multiset{b})
    case ReturnBlock(b) => WithSpare(st.(held := st.held - multiset{b}), b)
    case DeleteExtensions(prevLimit) => ValidIsAddressed(st); PopTo(st, Cut(st.blocks, st.starts, prevLimit))
    case Free =>
      (match st.spare
       case None => st
       case Some(b) => st.(spare := None, freed := st.freed + multiset{b}))
  }

  lemma {:induction false} NewBlockKeepsValid(st: State, address: nat)
    requires st.Valid() && Fits(st, address)
    ensures st.(held := st.held + multiset{|st.starts|}, starts := st.starts + [address]).Valid()
  {
    var n := |st.starts|;
    var st' := st.(held := st.held + multiset{n}, starts := st.starts + [address]);
    forall b: nat
      ensures st'.Places(b) == if b < |st'.starts| then 1 else 0
      ensures st'.IsLive(b) ==> b == n || st.IsLive(b)
    {
      assert st.Places(b) == if b < n then 1 else 0;
    }
    forall b: nat, c: nat | st'.IsLive(b) && st'.IsLive(c) && b != c
      ensures b < |st'.starts| && c < |st'.starts| && st'.Apart(b, c)
    {
      if b != n && c != n {
        assert st.Apart(b, c);
      }
    }
  }

  lemma {:induction false} AddKeepsValid(st: State, b: nat)
    requires st.Valid() && b in st.held
    ensures st.(blocks := st.blocks + [b], held := st.held - multiset{b}).Valid()
  {
    var st' := st.(blocks := st.blocks + [b], held := st.held - multiset{b});
    forall x: nat
      ensures st'.Places(x) == st.Places(x)
      ensures st'.IsLive(x) ==> st.IsLive(x)
    {
      SplitLast(st'.blocks, x);
      assert st'.blocks[..|st.blocks|] == st.blocks;
    }
    MoveKeepsValid(st, st');
  }

  lemma {:induction false} ReturnKeepsValid(st: State, b: nat)
    requires st.Valid() && b in st.held
    ensures WithSpare(st.(held := st.held - multiset{b}), b).Valid()
  {
    var without := st.(held := st.held - multiset{b});
    forall x: nat
      ensures WithSpare(without, b).Places(x) == st.Places(x)
      ensures WithSpare(without, b).IsLive(x) ==> st.IsLive(x)
    {
      WithSpareMoves(without, b, x);
    }
    MoveKeepsValid(st, WithSpare(without, b));
  }

  lemma {:induction false} DropSpareKeepsValid(st: State, b: nat)
    requires st.Valid() && st.spare == Some(b)
    ensures st.(spare := None, held := st.held + multiset{b}).Valid()
    ensures st.(spare := None, freed := st.freed + multiset{b}).Valid()
  {
    MoveKeepsValid(st, st.(spare := None, held := st.held + multiset{b}));
    MoveKeepsValid(st, st.(spare := None, freed := st.freed + multiset{b}));
  }

  lemma {:induction false} PopToKeepsValid(st: State, n: nat)
    requires st.Valid() && n <= |st.blocks|
    ensures PopTo(st, n).Valid()
    decreases |st.blocks|
  {
    if n < |st.blocks| {
      PopKeepsValid(st);
      PopToKeepsValid(Pop(st), n);
    }
  }

  /** Every operation keeps every block in exactly one place. */
  lemma {:induction false} ApplyKeepsValid(st: State, op: Operation)
    requires st.Valid() && Allowed(st, op)
    ensures Apply(st, op).Valid()
  {
    match op
    case GetSpareOrNewBlock(address) =>
      if st.spare == None { NewBlockKeepsValid(st, address); } else { DropSpareKeepsValid(st, st.spare.value); }
    case AddBlock(b) =>
      AddKeepsValid(st, b);
    case ReturnBlock(b) =>
      ReturnKeepsValid(st, b);
    case DeleteExtensions(prevLimit) =>
      ValidIsAddressed(st);
      PopToKeepsValid(st, Cut(st.blocks, st.starts, prevLimit));
    case Free =>
      if st.spare != None { DropSpareKeepsValid(st, st.spare.value); }
  }

  /** A run of operations each of which is allowed when its turn comes. */
  ghost predicate Run(st: State, ops: seq<Operation>, st': State)
    decreases |ops|
  {
    if ops == [] then st' == st
    else st.Valid() && Allowed(st, ops[0]) && Run(Apply(st, ops[0]), ops[1..], st')
  }

  const INITIAL: State := State([], None, multiset{}, multiset{}, [])

  lemma {:induction false} RunKeepsValid(st: State, ops: seq<Operation>, st': State)
    requires st.Valid() && Run(st, ops, st')
    ensures st'.Valid()
    decreases |ops|
  {
    if ops != [] {
      ApplyKeepsValid(st, ops[0]);
      RunKeepsValid(Apply(st, ops[0]), ops[1..], st');
    }
  }

  /** Over every run from the start, each block is in exactly one place. */
  lemma {:induction false} EveryRunConserves(ops: seq<Operation>, st: State, b: nat)
    requires Run(INITIAL, ops, st)
    ensures st.Valid()
    ensures multiset(st.blocks)[b] + Single(st.spare)[b] + st.held[b] + st.freed[b] == if b < |st.starts| then 1 else 0
  {
    RunKeepsValid(INITIAL, ops, st);
    assert st.Places(b) == if b < |st.starts| then 1 else 0;
  }

  /** Once the callers hold no block, Free leaves every block freed exactly once. */
  lemma {:induction false} FreeFreesAll(st: State, b: nat)
    requires st.Valid() && st.blocks == [] && st.held == multiset{}
    ensures Apply(st, Free).freed[b] == if b < |st.starts| then 1 else 0
  {
    ApplyKeepsValid(st, Free);
    assert Apply(st, Free).Places(b) == if b < |st.starts| then 1 else 0;
  }

  // ----- where DeleteExtensions stops -----

  /** The caller gets the spare block if there is one, and a new one otherwise. */
  lemma {:induction false} TakenBlock(st: State, address: nat)
    requires st.Valid() && Allowed(st, GetSpareOrNewBlock(address))
    ensures var st', block := Apply(st, GetSpareOrNewBlock(address)), if st.spare.Some? then st.spare.value else |st.starts|;
            && st'.Valid() && st'.spare == None && st'.held == st.held + multiset{block}
            && st'.starts == (if st.spare.Some? then st.starts else st.starts + [address])
            && st'.blocks == st.blocks && st'.freed == st.freed
  {
    ApplyKeepsValid(st, GetSpareOrNewBlock(address));
  }

  /** The block that is returned becomes the spare one, and the old spare is freed. */
  lemma {:induction false} ReturnedBlock(st: State, b: nat)
    requires st.Valid() && Allowed(st, ReturnBlock(b))
    ensures var st' := Apply(st, ReturnBlock(b));
            && st'.Valid() && st'.spare == Some(b) && st'.freed == st.freed + Single(st.spare)
            && st'.held == st.held - multiset{b} && st'.blocks == st.blocks && st'.starts == st.starts
  {
    ApplyKeepsValid(st, ReturnBlock(b));
  }

  /** The block is pushed on the stack. */
  lemma {:induction false} AddedBlock(st: State, b: nat)
    requires st.Valid() && Allowed(st, AddBlock(b))
    ensures var st' := Apply(st, AddBlock(b));
            && st'.Valid() && st'.blocks == st.blocks + [b] && st'.held == st.held - multiset{b}
            && st'.spare == st.spare && st'.freed == st.freed && st'.starts == st.starts
  {
    ApplyKeepsValid(st, AddBlock(b));
  }

  /** In the debug build a limit inside the last block, as a sealed scope has it, stops there. */
  lemma {:induction false} DebugStopsInside(blocks: seq<nat>, starts: seq<nat>, prevLimit: nat)
    requires Addressed(blocks, starts) && blocks != []
    ensures var start := starts[blocks[|blocks| - 1]];
            CutDebug(blocks, starts, prevLimit) == |blocks| <==> start <= prevLimit <= start + HANDLE_BLOCK_SIZE
  {
    assert Addressed(blocks[..|blocks| - 1], starts);
  }

  lemma {:induction false} TwicePresent(s: seq<nat>, i: nat, j: nat)
    requires i < j < |s| && s[i] == s[j]
    ensures multiset(s)[s[i]] >= 2
  {
    assert s == s[..j] + [s[j]] + s[j + 1..];
    assert s[..j][i] == s[i];
    assert s[i] in multiset(s[..j]);
  }

  /** The blocks on the stack are distinct and do not overlap. */
  lemma {:induction false} DistinctBlocks(st: State, i: nat, j: nat)
    requires st.Valid() && i < j < |st.blocks|
    ensures st.blocks[i] < |st.starts| && st.blocks[j] < |st.starts|
    ensures st.blocks[i] != st.blocks[j] && st.Apart(st.blocks[i], st.blocks[j])
  {
    assert st.IsLive(st.blocks[i]) && st.IsLive(st.blocks[j]);
    assert st.Places(st.blocks[i]) == 1;
    if st.blocks[i] == st.blocks[j] {
      TwicePresent(st.blocks, i, j);
    }
  }

  lemma {:induction false} PopToLeaves(st: State, n: nat)
    requires n <= |st.blocks|
    ensures PopTo(st, n).blocks == st.blocks[..n]
    ensures PopTo(st, n).held == st.held && PopTo(st, n).starts == st.starts
    decreases |st.blocks|
  {
    if n < |st.blocks| {
      PopToLeaves(Pop(st), n);
      assert st.blocks[..|st.blocks| - 1][..n] == st.blocks[..n];
    } else {
      assert st.blocks[..n] == st.blocks;
    }
  }

  lemma {:induction false} SplitAbove(blocks: seq<nat>, n: nat, x: nat)
    requires n + 1 < |blocks|
    ensures multiset(blocks[n + 1..])[x] ==
            multiset(blocks[..|blocks| - 1][n + 1..])[x] + (if x == blocks[|blocks| - 1] then 1 else 0)
  {
    var above := blocks[n + 1..];
    assert above[..|above| - 1] == blocks[..|blocks| - 1][n + 1..];
    SplitLast(above, x);
  }

  lemma {:induction false} PopFrees(st: State, x: nat)
    requires st.blocks != []
    ensures Pop(st).freed[x] == st.freed[x] + Single(st.spare)[x]
    ensures Single(Pop(st).spare)[x] == if x == st.blocks[|st.blocks| - 1] then 1 else 0
  {
  }

  lemma {:induction false} PopToStep(st: State, n: nat)
    requires n <= |st.blocks|
    ensures n < |st.blocks| ==> PopTo(st, n) == PopTo(Pop(st), n)
    ensures n == |st.blocks| ==> PopTo(st, n) == st
  {
  }

  lemma {:induction false} PopToSpare(st: State, n: nat)
    requires n < |st.blocks|
    ensures PopTo(st, n).spare == Some(st.blocks[n])
    decreases |st.blocks|
  {
    PopToStep(st, n);
    if n + 1 < |st.blocks| {
      PopToSpare(Pop(st), n);
    } else {
      PopToStep(Pop(st), n);
    }
  }

  /** The lowest of the popped blocks becomes the spare one; the others and the old spare are freed. */
  lemma {:induction false} PopToFrees(st: State, n: nat, x: nat)
    requires n < |st.blocks|
    ensures PopTo(st, n).spare == Some(st.blocks[n])
    ensures PopTo(st, n).freed[x] == st.freed[x] + Single(st.spare)[x] + multiset(st.blocks[n + 1..])[x]
    decreases |st.blocks|
  {
    PopToSpare(st, n);
    PopToStep(st, n);
    PopFrees(st, x);
    if n + 1 < |st.blocks| {
      PopToFrees(Pop(st), n, x);
      SplitAbove(st.blocks, n, x);
    } else {
      PopToStep(Pop(st), n);
      assert st.blocks[n + 1..] == [];
    }
  }

  /** Popping a block that is not the one looked for leaves the outcome of the loop as it is. */
  lemma {:induction false} CutStep(st: State, prevLimit: nat, n: nat)
    requires Addressed(st.blocks, st.starts) && st.blocks != [] && n == Cut(st.blocks, st.starts, prevLimit)
    requires st.starts[st.blocks[|st.blocks| - 1]] + HANDLE_BLOCK_SIZE != prevLimit
    ensures Addressed(Pop(st).blocks, st.starts) && n == Cut(Pop(st).blocks, st.starts, prevLimit)
    ensures Pop(st).starts == st.starts && PopTo(Pop(st), n) == PopTo(st, n)
  {
    CutBelow(st.blocks, st.starts, prevLimit);
    PopToStep(st, n);
  }

  lemma {:induction false} CutEnds(st: State, prevLimit: nat, n: nat)
    requires Addressed(st.blocks, st.starts) && n == Cut(st.blocks, st.starts, prevLimit)
    requires st.blocks != [] ==> st.starts[st.blocks[|st.blocks| - 1]] + HANDLE_BLOCK_SIZE == prevLimit
    ensures PopTo(st, n) == st
  {
    PopToStep(st, n);
  }

  /** Deleting the extensions of the scope whose limit is that of block k leaves the blocks up to it. */
  lemma {:induction false} CutLeavesPrefix(blocks: seq<nat>, starts: seq<nat>, k: nat, prevLimit: nat)
    requires Addressed(blocks, starts) && k < |blocks|
    requires prevLimit == starts[blocks[k]] + HANDLE_BLOCK_SIZE
    requires forall j :: k < j < |blocks| ==> starts[blocks[j]] != starts[blocks[k]]
    ensures Cut(blocks, starts, prevLimit) == k + 1
    decreases |blocks|
  {
    var last := |blocks| - 1;
    if k < last {
      CutLeavesPrefix(blocks[..last], starts, k, prevLimit);
    }
  }

  lemma {:induction false} DeletedLeavesPrefix(st: State, k: nat, prevLimit: nat)
    requires st.Valid() && k < |st.blocks|
    requires Addressed(st.blocks, st.starts) && prevLimit == st.Limit(st.blocks[k])
    ensures Apply(st, DeleteExtensions(prevLimit)).blocks == st.blocks[..k + 1]
  {
    forall j | k < j < |st.blocks|
      ensures st.starts[st.blocks[j]] != st.starts[st.blocks[k]]
    {
      DistinctBlocks(st, k, j);
    }
    CutLeavesPrefix(st.blocks, st.starts, k, prevLimit);
    assert Apply(st, DeleteExtensions(prevLimit)) == PopTo(st, k + 1);
    PopToLeaves(st, k + 1);
  }

  /** Deleting down to the null limit leaves nothing, in either build. */
  /** If no block has that limit nothing is left. */
  lemma {:induction false} CutToNone(blocks: seq<nat>, starts: seq<nat>, prevLimit: nat)
    requires Addressed(blocks, starts)
    requires forall i :: 0 <= i < |blocks| ==> starts[blocks[i]] + HANDLE_BLOCK_SIZE != prevLimit
    ensures Cut(blocks, starts, prevLimit) == 0
    decreases |blocks|
  {
    if blocks != [] {
      CutToNone(blocks[..|blocks| - 1], starts, prevLimit);
    }
  }

  lemma {:induction false} CutToNull(blocks: seq<nat>, starts: seq<nat>)
    requires Addressed(blocks, starts) && forall i :: 0 <= i < |blocks| ==> starts[blocks[i]] > 0
    ensures Cut(blocks, starts, 0) == 0 && CutDebug(blocks, starts, 0) == 0
    decreases |blocks|
  {
    if blocks != [] {
      CutToNull(blocks[..|blocks| - 1], starts);
    }
  }

  /** A later block starts right where block k ends. */
  ghost predicate Adjoined(blocks: seq<nat>, starts: seq<nat>, k: nat)
    requires Addressed(blocks, starts) && k < |blocks|
  {
    exists j :: k < j < |blocks| && starts[blocks[j]] == starts[blocks[k]] + HANDLE_BLOCK_SIZE
  }

  /** When the later blocks do not overlap block k, the range test of the debug build stops at the same block
      as the equality test of the release build exactly when none of them is adjoined. */
  lemma {:induction false} DebugCutAgrees(blocks: seq<nat>, starts: seq<nat>, k: nat, prevLimit: nat)
    requires Addressed(blocks, starts) && k < |blocks|
    requires prevLimit == starts[blocks[k]] + HANDLE_BLOCK_SIZE
    requires forall j :: k < j < |blocks| ==>
               starts[blocks[j]] + HANDLE_BLOCK_SIZE <= starts[blocks[k]] || prevLimit <= starts[blocks[j]]
    ensures CutDebug(blocks, starts, prevLimit) == Cut(blocks, starts, prevLimit) <==> !Adjoined(blocks, starts, k)
    decreases |blocks|
  {
    var last := |blocks| - 1;
    if k < last {
      var lower := blocks[..last];
      CutLeavesPrefix(blocks, starts, k, prevLimit);
      if starts[blocks[last]] != prevLimit {
        DebugCutAgrees(lower, starts, k, prevLimit);
        CutLeavesPrefix(lower, starts, k, prevLimit);
        assert Adjoined(blocks, starts, k) <==> Adjoined(lower, starts, k) by {
          assert forall j :: 0 <= j < last ==> lower[j] == blocks[j];
        }
      }
    }
  }

  lemma {:induction false} DebugAgrees(st: State, k: nat, prevLimit: nat)
    requires st.Valid() && k < |st.blocks|
    requires Addressed(st.blocks, st.starts) && prevLimit == st.Limit(st.blocks[k])
    ensures CutDebug(st.blocks, st.starts, prevLimit) == Cut(st.blocks, st.starts, prevLimit)
            <==> !Adjoined(st.blocks, st.starts, k)
  {
    forall j | k < j < |st.blocks|
      ensures st.Limit(st.blocks[j]) <= st.starts[st.blocks[k]] || prevLimit <= st.starts[st.blocks[j]]
    {
      DistinctBlocks(st, k, j);
    }
    DebugCutAgrees(st.blocks, st.starts, k, prevLimit);
  }

  const FIRST: nat := 1000
  const SECOND: nat := FIRST + HANDLE_BLOCK_SIZE

  const ONE_HELD: State := State([], None, multiset{0}, multiset{}, [FIRST])
  const ONE_PUSHED: State := State([0], None, multiset{}, multiset{}, [FIRST])
  const TWO_TAKEN: State := State([0], None, multiset{1}, multiset{}, [FIRST, SECOND])

  /** Two blocks that were allocated one behind the other and pushed on the stack. */
  const ADJOINED: State := State([0, 1], None, multiset{}, multiset{}, [FIRST, SECOND])

  lemma {:induction false} RunStep(st: State, op: Operation, ops: seq<Operation>, last: State)
    requires st.Valid() && Allowed(st, op) && Run(Apply(st, op), ops, last)
    ensures Run(st, [op] + ops, last)
  {
    assert ([op] + ops)[1..] == ops;
  }

  lemma {:induction false} FirstBlocks()
    ensures ONE_HELD.Valid() && ONE_PUSHED.Valid() && TWO_TAKEN.Valid()
    ensures Fits(ONE_PUSHED, SECOND)
  {
    NewBlockKeepsValid(INITIAL, FIRST);
    assert ONE_HELD == INITIAL.(held := INITIAL.held + multiset{0}, starts := INITIAL.starts + [FIRST]);
    AddKeepsValid(ONE_HELD, 0);
    assert ONE_PUSHED == ONE_HELD.(blocks := ONE_HELD.blocks + [0], held := ONE_HELD.held - multiset{0});
    NewBlockKeepsValid(ONE_PUSHED, SECOND);
    assert TWO_TAKEN == ONE_PUSHED.(held := ONE_PUSHED.held + multiset{1}, starts := ONE_PUSHED.starts + [SECOND]);
  }

  /** The state of the two blocks is reached from the initial one. */
  lemma {:induction false} AdjoinedIsReached() returns (ops: seq<Operation>)
    ensures Run(INITIAL, ops, ADJOINED)
  {
    assert INITIAL.Valid();
    FirstBlocks();
    assert Apply(TWO_TAKEN, AddBlock(1)) == ADJOINED;
    RunStep(TWO_TAKEN, AddBlock(1), [], ADJOINED);
    ops := [AddBlock(1)] + [];
    assert Apply(ONE_PUSHED, GetSpareOrNewBlock(SECOND)) == TWO_TAKEN;
    RunStep(ONE_PUSHED, GetSpareOrNewBlock(SECOND), ops, ADJOINED);
    ops := [GetSpareOrNewBlock(SECOND)] + ops;
    assert Apply(ONE_HELD, AddBlock(0)) == ONE_PUSHED;
    RunStep(ONE_HELD, AddBlock(0), ops, ADJOINED);
    ops := [AddBlock(0)] + ops;
    assert Apply(INITIAL, GetSpareOrNewBlock(FIRST)) == ONE_HELD;
    RunStep(INITIAL, GetSpareOrNewBlock(FIRST), ops, ADJOINED);
    ops := [GetSpareOrNewBlock(FIRST)] + ops;
  }

  /** A reachable state in which the two builds stop at different blocks. */
  lemma {:induction false} AdjoinedBlocksDiffer() returns (ops: seq<Operation>)
    ensures Run(INITIAL, ops, ADJOINED)
    ensures Cut(ADJOINED.blocks, ADJOINED.starts, ADJOINED.Limit(0)) == 1
    ensures CutDebug(ADJOINED.blocks, ADJOINED.starts, ADJOINED.Limit(0)) == 2
  {
    ops := AdjoinedIsReached();
    CutLeavesPrefix(ADJOINED.blocks, ADJOINED.starts, 0, ADJOINED.Limit(0));
  }

  /** The implementer itself: the stack of blocks and the spare one. The other places and the addresses of
      the blocks are only observed. */
  class HandleScopeImplementer {
    var blocks: seq<nat>
    var spare: Option<nat>
    ghost var held: multiset<nat>
    ghost var freed: multiset<nat>
    var starts: seq<nat>

    ghost function View(): State
      reads this
    {
      State(blocks, spare, held, freed, starts)
    }

    constructor ()
      ensures View() == INITIAL
    {
      blocks, spare, starts := [], None, [];
      held, freed := multiset{}, multiset{};
    }

    method TakeSpareOrNewBlock(address: nat) returns (block: nat)
      requires View().Valid() && Allowed(View(), GetSpareOrNewBlock(address))
      modifies this
      ensures View() == Apply(old(View()), GetSpareOrNewBlock(address))
      ensures block in held
    {
      match spare {
        case Some(b) =>
          block := b;
        case None =>
          block := |starts|;
          starts := starts + [address];
      }
      spare := None;
      held := held + multiset{block};
    }

    method Return(block: nat)
      requires View().Valid() && Allowed(View(), ReturnBlock(block))
      modifies this
      ensures View() == Apply(old(View()), ReturnBlock(block))
    {
      if spare.Some? {
        freed := freed + multiset{spare.value};
      }
      spare := Some(block);
      held := held - multiset{block};
    }

    /** The body of the loop of DeleteExtensions. */
    method PopBlock()
      requires blocks != []
      modifies this
      ensures View() == Pop(old(View()))
    {
      var last := |blocks| - 1;
      var block := blocks[last];
      blocks := blocks[..last];
      if spare.Some? {
        freed := freed + multiset{spare.value};
      }
      spare := Some(block);
    }

    method CutTo(prevLimit: nat)
      requires Addressed(blocks, starts)
      modifies this
      ensures View() == PopTo(old(View()), old(Cut(blocks, starts, prevLimit)))
    {
      ghost var n, initial := Cut(blocks, starts, prevLimit), View();
      while blocks != []
        invariant Addressed(blocks, starts) && n == Cut(blocks, starts, prevLimit)
        invariant PopTo(View(), n) == PopTo(initial, n)
        decreases |blocks|
      {
        var block := blocks[|blocks| - 1];
        if starts[block] + HANDLE_BLOCK_SIZE == prevLimit {
          break;
        }
        CutStep(View(), prevLimit, n);
        PopBlock();
      }
      CutEnds(View(), prevLimit, n);
    }

    method DeleteTo(prevLimit: nat)
      requires View().Valid()
      modifies this
      ensures View() == Apply(old(View()), DeleteExtensions(prevLimit))
    {
      ValidIsAddressed(View());
      CutTo(prevLimit);
    }

    method FreeAll()
      requires View().Valid() && Allowed(View(), Free)
      modifies this
      ensures View() == Apply(old(View()), Free)
    {
      if spare.Some? {
        freed := freed + multiset{spare.value};
        spare := None;
      }
    }
  }
}
