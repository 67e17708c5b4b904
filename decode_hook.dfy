/** The forward pre-hook `decode_hook`: it takes an output buffer of the
    decoded size from the pool, launches the decode kernel, and installs the
    decoded weight on the module or, for a group module, splits it among the
    sub-layers of its injection list. The kernel itself is opaque: it fills
    the view it is given, and only its launch arguments are modelled. */
module DecodeHook {
  import opened Wrappers
  import opened Basics
  import opened BufferPool
  import opened Tensors
  import opened Launch
  import opened TensorSplit
  import opened ModuleTree
  import opened Rewriter

  const SIGN_MANTISSA := "sign_mantissa"
  const LUTS := "luts"
  const GAPS := "gaps"
  const SHARED_MEM_SIZE := "shared_mem_size"
  const WEIGHT_INJECTION_MODULES := "weight_injection_modules"
  const OUT_FEATURES := "out_features"

  /** The scalar arguments of one kernel launch and the output view. */
  datatype Kernel = Kernel(
    nLuts: nat, nBytes: nat, nElements: nat,
    blocks: nat, threads: nat, sharedMem: int,
    output: View)

  /** Everything one hook call leaves behind: the pool, the tree, the launch
      (when the kernel was reached) and the exception (when one was raised). */
  datatype Decoded = Decoded(pool: Pool, tree: Tree, kernel: Option<Kernel>, fault: Option<Fault>)

  /** `getattr(module, k)` for a tensor attribute: a parameter or a buffer. */
  function Attr(n: Node, k: string): (r: Option<Tensor>)
    ensures r.Some? <==> k in Entries(n)
  {
    if k in n.params then Some(n.params[k])
    else if k in n.buffers then Some(n.buffers[k])
    else None
  }

  /** `p.weight = v.view(rows, cols)`: the view needs exactly `rows * cols`
      elements, and torch refuses a plain tensor over a registered `weight`
      parameter. */
  function SetWeight(t: Tree, p: Path, v: View, rows: nat, cols: nat): (r: Outcome)
    requires p in t
    ensures r.0.Keys == t.Keys
    ensures r.1.None? <==> v.length == rows * cols && WEIGHT !in t[p].params
    ensures r.1.None? ==> r.0 == t[p := t[p].(weight := Some(Weight(v, rows, cols)))]
    ensures r.1.Some? ==> r.0 == t
  {
    if v.length != rows * cols then (t, Some(ViewError))
    else if WEIGHT in t[p].params then (t, Some(TypeError(p, WEIGHT)))
    else (t[p := t[p].(weight := Some(Weight(v, rows, cols)))], None)
  }

  /** The chunks of `torch.tensor_split(out, positions)` as views of the same
      buffer: chunk `k` spans `ChunkStart .. ChunkEnd` of the output. */
  function ChunkViews(out: View, positions: seq<int>): (r: seq<View>)
    ensures |r| == |positions| + 1
  {
    seq(|positions| + 1, k requires 0 <= k <= |positions| =>
      View(out.buffer, out.offset + ChunkStart(positions, out.length, k),
           ChunkEnd(positions, out.length, k) - ChunkStart(positions, out.length, k)))
  }

  /** The loop over `zip(weight_injection_modules, weights)`: sub-layer `j`
      gets chunk `j` viewed as `(out_features, in_features)`; a sub-layer
      without `out_features` or a misfit chunk raises, and earlier
      assignments stay. */
  function InstallChunks(t: Tree, subs: seq<Path>, views: seq<View>): (r: Outcome)
    requires forall j :: 0 <= j < |subs| ==> subs[j] in t
    ensures r.0.Keys == t.Keys
    decreases |subs|
  {
    if subs == [] || views == [] then (t, None)
    else match t[subs[0]].kind
      case Linear(o, i) =>
        var s := SetWeight(t, subs[0], views[0], o, i);
        if s.1.Some? then s else InstallChunks(s.0, subs[1..], views[1..])
      case _ => (t, Some(AttributeError(subs[0], OUT_FEATURES)))
  }

  /** The dispatch on the module's kind. */
  function Install(t: Tree, mod: Path, out: View): (r: Outcome)
    requires mod in t && InjectionsPresent(t)
    ensures r.0.Keys == t.Keys
  {
    var n := t[mod];
    match n.kind
    case Linear(o, i) => SetWeight(t, mod, out, o, i)
    case Embedding(e, d) => SetWeight(t, mod, out, e, d)
    case Composite =>
      if n.splitPositions.None? then (t, Some(AttributeError(mod, SPLIT_POSITIONS)))
      else if n.injection.None? then (t, Some(AttributeError(mod, WEIGHT_INJECTION_MODULES)))
      else InstallChunks(t, n.injection.value, ChunkViews(out, n.splitPositions.value))
  }

  /** One call of the hook on module `mod`, in the order the source reads the
      module's attributes. */
  function Hook(p: Pool, t: Tree, mod: Path, threads: seq<int>, bytesPerThread: int): (r: Decoded)
    requires mod in t && InjectionsPresent(t)
    requires bytesPerThread > 0 && (|threads| > 0 ==> threads[0] > 0)
    ensures r.tree.Keys == t.Keys
  {
    var n := t[mod];
    match (Attr(n, SIGN_MANTISSA), Attr(n, ENCODED_EXPONENT), Attr(n, LUTS))
    case (None, _, _) => Decoded(p, t, None, Some(AttributeError(mod, SIGN_MANTISSA)))
    case (Some(_), None, _) => Decoded(p, t, None, Some(AttributeError(mod, ENCODED_EXPONENT)))
    case (Some(_), Some(_), None) => Decoded(p, t, None, Some(AttributeError(mod, LUTS)))
    case (Some(sm), Some(ee), Some(luts)) =>
      if |luts.shape| == 0 then Decoded(p, t, None, Some(IndexError))
      else
        var (p1, out) := Get(p, ee.device, Numel(sm));
        if |threads| == 0 then Decoded(p1, t, None, Some(IndexError))
        else if Attr(n, OUTPUT_POSITIONS).None? then Decoded(p1, t, None, Some(AttributeError(mod, OUTPUT_POSITIONS)))
        else if Attr(n, GAPS).None? then Decoded(p1, t, None, Some(AttributeError(mod, GAPS)))
        else if n.sharedMemSize.None? then Decoded(p1, t, None, Some(AttributeError(mod, SHARED_MEM_SIZE)))
        else
          var k := Kernel(luts.shape[0], Numel(ee), Numel(sm),
                          BlocksPerGrid(Numel(ee), threads[0], bytesPerThread), threads[0],
                          n.sharedMemSize.value, out);
          var s := Install(t, mod, out);
          Decoded(p1, s.0, Some(k), s.1)
  }

  /** The kernel is launched over exactly the decoded size: the output view
      has `n_elements` elements and comes from the pool's buffer for the
      device of `encoded_exponent`, and the grid is the least number of
      blocks whose threads cover every encoded byte. */
  lemma HookLaunch(p: Pool, t: Tree, mod: Path, threads: seq<int>, bytesPerThread: int)
    requires mod in t && InjectionsPresent(t)
    requires bytesPerThread > 0 && (|threads| > 0 ==> threads[0] > 0)
    requires Hook(p, t, mod, threads, bytesPerThread).kernel.Some?
    ensures var r := Hook(p, t, mod, threads, bytesPerThread);
      var k, n := r.kernel.value, t[mod];
      && Attr(n, SIGN_MANTISSA).Some? && Attr(n, ENCODED_EXPONENT).Some?
      && k.nElements == Numel(Attr(n, SIGN_MANTISSA).value)
      && k.nBytes == Numel(Attr(n, ENCODED_EXPONENT).value)
      && k.output.length == k.nElements && k.output.offset == 0
      && var d := Attr(n, ENCODED_EXPONENT).value.device;
      && d in r.pool.tensors && k.output.buffer == r.pool.tensors[d]
      && r.pool == Get(p, d, k.nElements).0
      && |threads| > 0 && k.threads == threads[0]
      && k.blocks * (k.threads * bytesPerThread) >= k.nBytes
      && (k.blocks == 0 || (k.blocks - 1) * (k.threads * bytesPerThread) < k.nBytes)
      && n.sharedMemSize == Some(k.sharedMem)
  {
    var n := t[mod];
    var sm, ee := Attr(n, SIGN_MANTISSA).value, Attr(n, ENCODED_EXPONENT).value;
    GetReturnsExactPrefix(p, ee.device, Numel(sm));
    BlocksPerGridIsCeiling(Numel(ee), threads[0], bytesPerThread);
  }

  /** A missing attribute raises before the pool is touched, and nothing is
      installed. */
  lemma HookMissingAttribute(p: Pool, t: Tree, mod: Path, threads: seq<int>, bytesPerThread: int)
    requires mod in t && InjectionsPresent(t)
    requires bytesPerThread > 0 && (|threads| > 0 ==> threads[0] > 0)
    requires SIGN_MANTISSA !in Entries(t[mod]) || ENCODED_EXPONENT !in Entries(t[mod]) || LUTS !in Entries(t[mod])
    ensures var r := Hook(p, t, mod, threads, bytesPerThread);
      r.pool == p && r.tree == t && r.kernel.None? && r.fault.Some? && r.fault.value.AttributeError?
  {
  }

  /** Linear and Embedding layers get the whole output viewed as their weight
      matrix, exactly when the element count fits and the native weight was
      stripped; nothing else changes. */
  lemma InstallWhole(t: Tree, mod: Path, out: View)
    requires mod in t && InjectionsPresent(t) && !t[mod].kind.Composite?
    ensures var r, k := Install(t, mod, out), t[mod].kind;
      var (rows, cols) := if k.Linear? then (k.outFeatures, k.inFeatures) else (k.numEmbeddings, k.embeddingDim);
      && (r.1.None? <==> out.length == rows * cols && WEIGHT !in t[mod].params)
      && (r.1.None? ==> r.0[mod].weight == Some(Weight(out, rows, cols)))
      && (forall q :: q in t && q != mod ==> r.0[q] == t[q])
  {
  }

  /** `zip` truncates: after a successful loop, sub-layer `j` holds chunk `j`
      for every `j` below both lengths, and every other module (including
      sub-layers past the shorter list) is unchanged. */
  lemma {:induction false} InstallChunksEffect(t: Tree, subs: seq<Path>, views: seq<View>)
    requires forall j :: 0 <= j < |subs| ==> subs[j] in t
    requires Distinct(subs)
    requires InstallChunks(t, subs, views).1.None?
    ensures var r := InstallChunks(t, subs, views).0;
      && (forall j :: 0 <= j < |subs| && j < |views| ==>
            t[subs[j]].kind.Linear?
            && r[subs[j]].weight == Some(Weight(views[j], t[subs[j]].kind.outFeatures, t[subs[j]].kind.inFeatures)))
      && (forall q :: q in t && (forall j :: 0 <= j < |subs| && j < |views| ==> subs[j] != q) ==> r[q] == t[q])
    decreases |subs|
  {
    if subs != [] && views != [] {
      var s := SetWeight(t, subs[0], views[0], t[subs[0]].kind.outFeatures, t[subs[0]].kind.inFeatures);
      var r := InstallChunks(t, subs, views).0;
      assert Distinct(subs[1..]);
      InstallChunksEffect(s.0, subs[1..], views[1..]);
      assert r == InstallChunks(s.0, subs[1..], views[1..]).0;
      forall j | 0 <= j < |subs| && j < |views|
        ensures t[subs[j]].kind.Linear?
        ensures r[subs[j]].weight == Some(Weight(views[j], t[subs[j]].kind.outFeatures, t[subs[j]].kind.inFeatures))
      {
        if j > 0 {
          assert subs[1..][j - 1] == subs[j] && views[1..][j - 1] == views[j];
          assert subs[j] != subs[0];
        } else {
          assert forall i :: 0 <= i < |subs[1..]| && i < |views[1..]| ==> subs[1..][i] != subs[0];
        }
      }
      forall q | q in t && (forall j :: 0 <= j < |subs| && j < |views| ==> subs[j] != q)
        ensures r[q] == t[q]
      {
        assert subs[0] != q;
        forall i | 0 <= i < |subs[1..]| && i < |views[1..]|
          ensures subs[1..][i] != q
        {
          assert subs[1..][i] == subs[i + 1];
        }
      }
    }
  }

  /** Chunk view `k` spans exactly what `tensor_split` returns as chunk `k`
      of the output's contents. */
  lemma ChunkViewsAreChunks<T>(out: View, positions: seq<int>, contents: seq<T>, k: nat)
    requires |contents| == out.length && k <= |positions|
    ensures var v := ChunkViews(out, positions)[k];
      && v.buffer == out.buffer
      && out.offset <= v.offset
      && Chunks(contents, positions)[k] == contents[v.offset - out.offset .. v.offset - out.offset + v.length]
  {
  }

  /** For split positions that partition the output, the chunk views tile it:
      the first starts at the output's offset, each next one starts where the
      previous one ends, and the last ends with the output. */
  lemma ChunkViewsTile(out: View, positions: seq<int>)
    requires Partitions(positions, out.length)
    ensures var v := ChunkViews(out, positions);
      && v[0].offset == out.offset
      && (forall k :: 0 <= k < |positions| ==> v[k + 1].offset == v[k].offset + v[k].length)
      && v[|positions|].offset + v[|positions|].length == out.offset + out.length
  {
    var v, n := ChunkViews(out, positions), out.length;
    ChunksAreContiguous(positions, n);
    forall k | 0 <= k < |positions|
      ensures v[k + 1].offset == v[k].offset + v[k].length
    {
      assert ChunkStart(positions, n, k + 1) == ChunkEnd(positions, n, k);
    }
  }

  /** `p.weight = v.view(rows, cols)` on the model. */
  method AssignWeight(model: Model, p: Path, v: View, rows: nat, cols: nat) returns (fault: Option<Fault>)
    requires model.Valid() && p in model.nodes
    modifies model
    ensures model.Valid()
    ensures (model.nodes, fault) == SetWeight(old(model.nodes), p, v, rows, cols)
  {
    if v.length != rows * cols {
      return Some(ViewError);
    }
    if WEIGHT in model.nodes[p].params {
      return Some(TypeError(p, WEIGHT));
    }
    model.nodes := model.nodes[p := model.nodes[p].(weight := Some(Weight(v, rows, cols)))];
    fault := None;
  }

  /** The loop over `zip(module.weight_injection_modules, weights)`. */
  method AssignChunks(model: Model, subs: seq<Path>, views: seq<View>) returns (fault: Option<Fault>)
    requires model.Valid() && forall j :: 0 <= j < |subs| ==> subs[j] in model.nodes
    modifies model
    ensures model.Valid()
    ensures (model.nodes, fault) == InstallChunks(old(model.nodes), subs, views)
  {
    var j := 0;
    while j < |subs| && j < |views|
      invariant 0 <= j <= |subs| && j <= |views|
      invariant model.Valid() && model.nodes.Keys == old(model.nodes).Keys
      invariant InstallChunks(old(model.nodes), subs, views) == InstallChunks(model.nodes, subs[j..], views[j..])
    {
      assert subs[j..][0] == subs[j] && subs[j..][1..] == subs[j + 1..];
      assert views[j..][0] == views[j] && views[j..][1..] == views[j + 1..];
      var sub := subs[j];
      if !model.nodes[sub].kind.Linear? {
        return Some(AttributeError(sub, OUT_FEATURES));
      }
      var f := AssignWeight(model, sub, views[j], model.nodes[sub].kind.outFeatures, model.nodes[sub].kind.inFeatures);
      if f.Some? {
        return f;
      }
      j := j + 1;
    }
    fault := None;
  }

  /** The hook as the program runs it: on the class-level pool and the model
      whose module it is registered on. */
  method RunHook(pool: TensorManager, model: Model, mod: Path, threads: seq<int>, bytesPerThread: int)
      returns (kernel: Option<Kernel>, fault: Option<Fault>)
    requires pool.Valid() && model.Valid() && mod in model.nodes && InjectionsPresent(model.nodes)
    requires bytesPerThread > 0 && (|threads| > 0 ==> threads[0] > 0)
    modifies pool, model
    ensures pool.Valid() && model.Valid()
    ensures Decoded(pool.State(), model.nodes, kernel, fault)
      == Hook(old(pool.State()), old(model.nodes), mod, threads, bytesPerThread)
  {
    var n := model.nodes[mod];
    var sm, ee, luts := Attr(n, SIGN_MANTISSA), Attr(n, ENCODED_EXPONENT), Attr(n, LUTS);
    if sm.None? {
      return None, Some(AttributeError(mod, SIGN_MANTISSA));
    }
    if ee.None? {
      return None, Some(AttributeError(mod, ENCODED_EXPONENT));
    }
    if luts.None? {
      return None, Some(AttributeError(mod, LUTS));
    }
    if |luts.value.shape| == 0 {
      return None, Some(IndexError);
    }
    var out := pool.GetTensor(ee.value.device, Numel(sm.value));
    if |threads| == 0 {
      return None, Some(IndexError);
    }
    if Attr(n, OUTPUT_POSITIONS).None? {
      return None, Some(AttributeError(mod, OUTPUT_POSITIONS));
    }
    if Attr(n, GAPS).None? {
      return None, Some(AttributeError(mod, GAPS));
    }
    if n.sharedMemSize.None? {
      return None, Some(AttributeError(mod, SHARED_MEM_SIZE));
    }
    kernel := Some(Kernel(luts.value.shape[0], Numel(ee.value), Numel(sm.value),
                          BlocksPerGrid(Numel(ee.value), threads[0], bytesPerThread), threads[0],
                          n.sharedMemSize.value, out));
    match n.kind {
      case Linear(o, i) =>
        fault := AssignWeight(model, mod, out, o, i);
      case Embedding(e, d) =>
        fault := AssignWeight(model, mod, out, e, d);
      case Composite =>
        if n.splitPositions.None? {
          return kernel, Some(AttributeError(mod, SPLIT_POSITIONS));
        }
        if n.injection.None? {
          return kernel, Some(AttributeError(mod, WEIGHT_INJECTION_MODULES));
        }
        fault := AssignChunks(model, n.injection.value, ChunkViews(out, n.splitPositions.value));
    }
  }
}
