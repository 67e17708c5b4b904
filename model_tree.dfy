/** The model's module tree: a finite map from dotted module path (as its list
    of components; the root is the empty path) to the record of that module. */
module ModuleTree {
  import opened Wrappers
  import opened Names
  import opened BufferPool
  import opened Tensors

  type Path = seq<string>

  /** The module kinds the rewriter and the hook tell apart (`isinstance`). */
  datatype Kind =
    | Linear(outFeatures: nat, inFeatures: nat)
    | Embedding(numEmbeddings: nat, embeddingDim: nat)
    | Composite

  /** A weight installed by the decode hook: a view of a pool buffer reshaped
      to `rows` x `cols`. */
  datatype Weight = Weight(view: View, rows: nat, cols: nat)

  /** One module: its class name and kind, its registered parameters and
      buffers (the state-dict entries it owns), and the plain attributes the
      rewriter and the hook set on it: `split_positions`, the number of forward
      pre-hooks, `weight_injection_modules` (as paths), `shared_mem_size`, and
      the decoded `weight`. */
  datatype Node = Node(
    className: string,
    kind: Kind,
    params: map<string, Tensor>,
    buffers: map<string, Tensor>,
    splitPositions: Option<seq<int>>,
    hooks: nat,
    injection: Option<seq<Path>>,
    sharedMemSize: Option<int>,
    weight: Option<Weight>)

  type Tree = map<Path, Node>

  /** Every module a `weight_injection_modules` list names is in the tree. */
  predicate InjectionsPresent(t: Tree) {
    forall p, i :: p in t && t[p].injection.Some? && 0 <= i < |t[p].injection.value| ==> t[p].injection.value[i] in t
  }

  /** The tree has a root and holds the parent of every module it holds. */
  predicate WellFormed(t: Tree) {
    && [] in t
    && (forall p :: p in t && p != [] ==> DropLast(p) in t)
  }

  /** Torch refuses dots in module names, so every path component is dot-free. */
  predicate DotFreeNames(t: Tree) {
    forall p, i :: p in t && 0 <= i < |p| ==> DotFree(p[i])
  }

  /** Names of the state-dict entries a module owns. */
  function Entries(n: Node): set<string> {
    n.params.Keys + n.buffers.Keys
  }

  /** The last component of a split name. */
  function Leaf(parts: seq<string>): string
    requires |parts| >= 1
  {
    parts[|parts| - 1]
  }

  /** `tensor_name in model.state_dict()`. */
  predicate InStateDict(t: Tree, name: string) {
    var parts := Split(name);
    DropLast(parts) in t && Leaf(parts) in Entries(t[DropLast(parts)])
  }

  /** A state-dict name is exactly a module path joined with one of that
      module's entry names. */
  lemma StateDictNames(t: Tree, name: string)
    requires DotFreeNames(t)
    ensures InStateDict(t, name) <==>
      exists p, k :: p in t && k in Entries(t[p]) && DotFree(k) && name == Join(p + [k])
  {
    var parts := Split(name);
    if InStateDict(t, name) {
      JoinSplit(name);
      assert parts == DropLast(parts) + [Leaf(parts)];
    }
    if exists p, k :: p in t && k in Entries(t[p]) && DotFree(k) && name == Join(p + [k]) {
      var p, k :| p in t && k in Entries(t[p]) && DotFree(k) && name == Join(p + [k]);
      SplitJoin(p + [k]);
      assert DropLast(p + [k]) == p;
    }
  }

  /** The step-by-step walk over `getattr`: `None` as soon as a component is
      not a sub-module of the module reached so far. */
  function Resolve(t: Tree, base: Path, parts: seq<string>): (r: Option<Path>)
    requires base in t
    ensures r.Some? ==> r.value in t
    decreases |parts|
  {
    if parts == [] then Some(base)
    else if base + [parts[0]] in t then Resolve(t, base + [parts[0]], parts[1..])
    else None
  }

  lemma {:induction false} AncestorsPresent(t: Tree, p: Path, k: nat)
    requires WellFormed(t) && p in t && k <= |p|
    ensures p[..k] in t
    decreases |p| - k
  {
    if k < |p| {
      AncestorsPresent(t, DropLast(p), k);
      assert DropLast(p)[..k] == p[..k];
    } else {
      assert p[..k] == p;
    }
  }

  /** In a well-formed tree the walk succeeds exactly when the full path is a
      module, and then reaches that module. */
  lemma {:induction false} ResolveExact(t: Tree, base: Path, parts: seq<string>)
    requires WellFormed(t) && base in t
    ensures Resolve(t, base, parts) == if base + parts in t then Some(base + parts) else None
    decreases |parts|
  {
    if parts == [] {
      assert base + parts == base;
    } else {
      var next := base + [parts[0]];
      assert next + parts[1..] == base + parts;
      if base + parts in t {
        AncestorsPresent(t, base + parts, |next|);
        assert (base + parts)[..|next|] == next;
      }
      if next in t {
        ResolveExact(t, next, parts[1..]);
      }
    }
  }
}
