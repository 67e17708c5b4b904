/** `load_and_replace_tensors`: attaches each checkpoint tensor to the module
    tree, strips the native weights of the layers that will be decoded, and
    registers the decode hook. */
module Rewriter {
  import opened Wrappers
  import opened Names
  import opened Tensors
  import opened Launch
  import opened ModuleTree

  /** One entry of `pattern_dict`: a regular expression over dotted module
      paths, and the relative attribute paths of the sub-layers that share
      one decoded tensor. The sequence keeps the dictionary's order. */
  type Pattern = (string, seq<string>)

  /** `dfloat11_config`. */
  datatype Config = Config(threadsPerBlock: seq<int>, bytesPerThread: int, patterns: seq<Pattern>)

  /** `re.fullmatch(pattern, path) is not None`, supplied by the caller. */
  type Matcher = (string, string) -> bool

  /** The exceptions the rewriter can raise; each one ends the whole load. */
  datatype Fault =
    | AttributeError(owner: Path, name: string)  // getattr or the read before delattr
    | KeyError(owner: Path, name: string)        // register_buffer refuses the name
    | IndexError                                 // threads_per_block[0] of an empty tuple
    | ViewError                                  // view(torch.uint32) of a misfit size
    | EmptyMaximum                               // numpy max over no gaps
    | TypeError(owner: Path, name: string)       // a plain tensor assigned over a registered parameter

  /** What attaching one tensor did: the two non-fatal diagnostics
      (`ShapeMismatch`, `PathMissing`) leave the tree unchanged. */
  datatype Report = Copied | ShapeMismatch | PathMissing | Attached | Failed(fault: Fault)

  /** A tree together with the exception raised while producing it, if any;
      changes made before the exception stay in the tree. */
  type Outcome = (Tree, Option<Fault>)

  /** One checkpoint file: its name and its tensors in the order loaded. */
  datatype ShardFile = ShardFile(fileName: string, tensors: seq<(string, Tensor)>)

  const SPLIT_POSITIONS := "split_positions"
  const ENCODED_EXPONENT := "encoded_exponent"
  const OUTPUT_POSITIONS := "output_positions"
  const WEIGHT := "weight"
  const SUFFIX := ".safetensors"

  /** The copy into an existing parameter or buffer: only when the shapes agree. */
  function CopyInto(t: Tree, mod: Path, leaf: string, v: Tensor): (r: (Tree, Report))
    requires mod in t && leaf in Entries(t[mod])
    ensures r.0.Keys == t.Keys
  {
    var node := t[mod];
    if leaf in node.params then
      var dst := node.params[leaf];
      if dst.shape == v.shape then (t[mod := node.(params := node.params[leaf := dst.(data := v.data)])], Copied)
      else (t, ShapeMismatch)
    else
      var dst := node.buffers[leaf];
      if dst.shape == v.shape then (t[mod := node.(buffers := node.buffers[leaf := dst.(data := v.data)])], Copied)
      else (t, ShapeMismatch)
  }

  /** `tmp = m.weight; delattr(m, 'weight')`: fails when there is no weight. */
  function StripWeight(t: Tree, p: Path): (r: Outcome)
    requires p in t
    ensures r.0.Keys == t.Keys
  {
    if WEIGHT in t[p].params then (t[p := t[p].(params := t[p].params - {WEIGHT})], None)
    else (t, Some(AttributeError(p, WEIGHT)))
  }

  function Injected(n: Node): seq<Path> {
    if n.injection.Some? then n.injection.value else []
  }

  /** The loop over `attr_names`: resolve each sub-layer, strip its weight and
      append it to `weight_injection_modules`. */
  function InjectTargets(t: Tree, mod: Path, attrs: seq<string>): (r: Outcome)
    requires mod in t
    ensures r.0.Keys == t.Keys
    decreases |attrs|
  {
    if attrs == [] then (t, None)
    else match Resolve(t, mod, Split(attrs[0]))
      case None => (t, Some(AttributeError(mod, attrs[0])))
      case Some(target) =>
        var s := StripWeight(t, target);
        if s.1.Some? then s
        else
          var t1 := s.0[mod := s.0[mod].(injection := Some(Injected(s.0[mod]) + [target]))];
          InjectTargets(t1, mod, attrs[1..])
  }

  /** What one matching pattern does: a Linear or Embedding layer loses its own
      weight; any other module gets a fresh `weight_injection_modules` list and
      its listed sub-layers lose theirs. */
  function StripOne(t: Tree, mod: Path, attrs: seq<string>): (r: Outcome)
    requires mod in t
    ensures r.0.Keys == t.Keys
  {
    match t[mod].kind
    case Embedding(_, _) => StripWeight(t, mod)
    case Linear(_, _) => StripWeight(t, mod)
    case Composite => InjectTargets(t[mod := t[mod].(injection := Some([]))], mod, attrs)
  }

  /** The loop over `pattern_dict`, with each pattern tested against the
      module's own dotted path. Every matching pattern is applied (the loop
      does not stop at the first match). */
  function StripPatterns(t: Tree, mod: Path, pats: seq<Pattern>, matches: Matcher): (r: Outcome)
    requires mod in t
    ensures r.0.Keys == t.Keys
    decreases |pats|
  {
    if pats == [] then (t, None)
    else if matches(pats[0].0, Join(mod)) then
      var s := StripOne(t, mod, pats[0].1);
      if s.1.Some? then s else StripPatterns(s.0, mod, pats[1..], matches)
    else StripPatterns(t, mod, pats[1..], matches)
  }

  /** The shared-memory size attached with `output_positions`. */
  function PositionsSize(cfg: Config, v: Tensor): (r: Result)
  {
    if |cfg.threadsPerBlock| == 0 then Fail(IndexError)
    else match AsWords(v)
      case None => Fail(ViewError)
      case Some(w) =>
        match SharedMemSize(cfg.threadsPerBlock[0], w)
        case None => Fail(EmptyMaximum)
        case Some(size) => Size(size)
  }

  datatype Result = Size(size: int) | Fail(fault: Fault)

  /** The `else:` branch of the path walk, once the module is found. */
  function AttachLeaf(t: Tree, mod: Path, leaf: string, v: Tensor, cfg: Config, matches: Matcher): (r: (Tree, Report))
    requires mod in t
    ensures r.0.Keys == t.Keys
  {
    if leaf == SPLIT_POSITIONS then
      (t[mod := t[mod].(splitPositions := Some(v.data))], Attached)
    else if leaf == "" || mod + [leaf] in t then
      (t, Failed(KeyError(mod, leaf)))
    else
      var t1 := t[mod := t[mod].(buffers := t[mod].buffers[leaf := v])];
      if leaf == ENCODED_EXPONENT then
        var t2 := t1[mod := t1[mod].(hooks := t1[mod].hooks + 1)];
        var s := StripPatterns(t2, mod, cfg.patterns, matches);
        (s.0, if s.1.Some? then Failed(s.1.value) else Attached)
      else if leaf == OUTPUT_POSITIONS then
        match PositionsSize(cfg, v)
        case Fail(f) => (t1, Failed(f))
        case Size(size) => (t1[mod := t1[mod].(sharedMemSize := Some(size))], Attached)
      else
        (t1, Attached)
  }

  /** One iteration of the loop over a file's tensors. */
  function Attach(t: Tree, name: string, v: Tensor, cfg: Config, matches: Matcher): (r: (Tree, Report))
    requires WellFormed(t)
    ensures r.0.Keys == t.Keys && WellFormed(r.0)
  {
    var parts := Split(name);
    var modPath := DropLast(parts);
    if InStateDict(t, name) then CopyInto(t, modPath, Leaf(parts), v)
    else match Resolve(t, [], modPath)
      case None => (t, PathMissing)
      case Some(mod) => AttachLeaf(t, mod, Leaf(parts), v, cfg, matches)
  }

  /** All tensors of one file, in order, stopping at the first exception. */
  function LoadTensors(t: Tree, ts: seq<(string, Tensor)>, cfg: Config, matches: Matcher): (r: Outcome)
    requires WellFormed(t)
    ensures r.0.Keys == t.Keys && WellFormed(r.0)
    decreases |ts|
  {
    if ts == [] then (t, None)
    else
      var a := Attach(t, ts[0].0, ts[0].1, cfg, matches);
      if a.1.Failed? then (a.0, Some(a.1.fault)) else LoadTensors(a.0, ts[1..], cfg, matches)
  }

  /** All `.safetensors` files of the directory listing, in listing order. */
  function LoadFiles(t: Tree, files: seq<ShardFile>, cfg: Config, matches: Matcher): (r: Outcome)
    requires WellFormed(t)
    ensures r.0.Keys == t.Keys && WellFormed(r.0)
    decreases |files|
  {
    if files == [] then (t, None)
    else if EndsWith(files[0].fileName, SUFFIX) then
      var s := LoadTensors(t, files[0].tensors, cfg, matches);
      if s.1.Some? then s else LoadFiles(s.0, files[1..], cfg, matches)
    else LoadFiles(t, files[1..], cfg, matches)
  }

  /** The model whose module tree the rewriter mutates in place. */
  class Model {
    var nodes: Tree

    predicate Valid()
      reads this
    {
      WellFormed(nodes)
    }

    constructor (t: Tree)
      requires WellFormed(t)
      ensures Valid() && nodes == t
    {
      nodes := t;
    }

    /** The walk `module = getattr(module, part)` with its `for ... else`:
        the module reached, or `None` at the first missing component. */
    method FindModule(base: Path, parts: seq<string>) returns (r: Option<Path>)
      requires base in nodes
      ensures r == Resolve(nodes, base, parts)
      ensures r.Some? ==> r.value == base + parts && r.value in nodes
    {
      var cur := base;
      var i := 0;
      while i < |parts|
        invariant 0 <= i <= |parts|
        invariant cur in nodes && cur == base + parts[..i]
        invariant Resolve(nodes, base, parts) == Resolve(nodes, cur, parts[i..])
      {
        if cur + [parts[i]] !in nodes {
          return None;
        }
        assert parts[i..][1..] == parts[i + 1..];
        assert parts[..i + 1] == parts[..i] + [parts[i]];
        cur := cur + [parts[i]];
        i := i + 1;
      }
      assert parts[..i] == parts;
      r := Some(cur);
    }

    /** The loop over `attr_names` of one matching pattern. */
    method InjectInto(mod: Path, attrs: seq<string>) returns (fault: Option<Fault>)
      requires Valid() && mod in nodes
      modifies this
      ensures Valid()
      ensures (nodes, fault) == InjectTargets(old(nodes), mod, attrs)
    {
      var i := 0;
      while i < |attrs|
        invariant 0 <= i <= |attrs|
        invariant nodes.Keys == old(nodes).Keys && mod in nodes
        invariant InjectTargets(old(nodes), mod, attrs) == InjectTargets(nodes, mod, attrs[i..])
      {
        assert attrs[i..][0] == attrs[i] && attrs[i..][1..] == attrs[i + 1..];
        var target := FindModule(mod, Split(attrs[i]));
        if target.None? {
          return Some(AttributeError(mod, attrs[i]));
        }
        var p := target.value;
        if WEIGHT !in nodes[p].params {
          return Some(AttributeError(p, WEIGHT));
        }
        nodes := nodes[p := nodes[p].(params := nodes[p].params - {WEIGHT})];
        nodes := nodes[mod := nodes[mod].(injection := Some(Injected(nodes[mod]) + [p]))];
        i := i + 1;
      }
      fault := None;
    }

    /** The loop over `pattern_dict` for a module that just received its
        `encoded_exponent`. */
    method ApplyPatterns(mod: Path, pats: seq<Pattern>, matches: Matcher) returns (fault: Option<Fault>)
      requires Valid() && mod in nodes
      modifies this
      ensures Valid()
      ensures (nodes, fault) == StripPatterns(old(nodes), mod, pats, matches)
    {
      var i := 0;
      var path := Join(mod);
      while i < |pats|
        invariant 0 <= i <= |pats|
        invariant nodes.Keys == old(nodes).Keys && mod in nodes
        invariant StripPatterns(old(nodes), mod, pats, matches) == StripPatterns(nodes, mod, pats[i..], matches)
      {
        assert pats[i..][0] == pats[i] && pats[i..][1..] == pats[i + 1..];
        var (pattern, attrs) := pats[i];
        if matches(pattern, path) {
          match nodes[mod].kind {
            case Embedding(_, _) =>
              if WEIGHT !in nodes[mod].params {
                return Some(AttributeError(mod, WEIGHT));
              }
              nodes := nodes[mod := nodes[mod].(params := nodes[mod].params - {WEIGHT})];
            case Linear(_, _) =>
              if WEIGHT !in nodes[mod].params {
                return Some(AttributeError(mod, WEIGHT));
              }
              nodes := nodes[mod := nodes[mod].(params := nodes[mod].params - {WEIGHT})];
            case Composite =>
              nodes := nodes[mod := nodes[mod].(injection := Some([]))];
              var f := InjectInto(mod, attrs);
              if f.Some? {
                return f;
              }
          }
        }
        i := i + 1;
      }
      fault := None;
    }

    /** One iteration of the loop over a file's tensors. */
    method AttachTensor(name: string, v: Tensor, cfg: Config, matches: Matcher) returns (report: Report)
      requires Valid()
      modifies this
      ensures Valid()
      ensures (nodes, report) == Attach(old(nodes), name, v, cfg, matches)
    {
      var parts := Split(name);
      var leaf := Leaf(parts);
      if InStateDict(nodes, name) {
        var node := nodes[DropLast(parts)];
        if leaf in node.params {
          var dst := node.params[leaf];
          if dst.shape != v.shape {
            return ShapeMismatch;
          }
          nodes := nodes[DropLast(parts) := node.(params := node.params[leaf := dst.(data := v.data)])];
        } else {
          var dst := node.buffers[leaf];
          if dst.shape != v.shape {
            return ShapeMismatch;
          }
          nodes := nodes[DropLast(parts) := node.(buffers := node.buffers[leaf := dst.(data := v.data)])];
        }
        return Copied;
      }
      var found := FindModule([], DropLast(parts));
      if found.None? {
        return PathMissing;
      }
      var mod := found.value;
      if leaf == SPLIT_POSITIONS {
        nodes := nodes[mod := nodes[mod].(splitPositions := Some(v.data))];
        return Attached;
      }
      if leaf == "" || mod + [leaf] in nodes {
        return Failed(KeyError(mod, leaf));
      }
      nodes := nodes[mod := nodes[mod].(buffers := nodes[mod].buffers[leaf := v])];
      report := Attached;
      if leaf == ENCODED_EXPONENT {
        nodes := nodes[mod := nodes[mod].(hooks := nodes[mod].hooks + 1)];
        var f := ApplyPatterns(mod, cfg.patterns, matches);
        if f.Some? {
          report := Failed(f.value);
        }
      } else if leaf == OUTPUT_POSITIONS {
        var size := PositionsSize(cfg, v);
        if size.Fail? {
          report := Failed(size.fault);
        } else {
          nodes := nodes[mod := nodes[mod].(sharedMemSize := Some(size.size))];
        }
      }
    }

    /** The tensors of one file, stopping at the first exception. */
    method LoadShard(ts: seq<(string, Tensor)>, cfg: Config, matches: Matcher) returns (fault: Option<Fault>)
      requires Valid()
      modifies this
      ensures Valid()
      ensures (nodes, fault) == LoadTensors(old(nodes), ts, cfg, matches)
    {
      var j := 0;
      while j < |ts|
        invariant 0 <= j <= |ts| && Valid()
        invariant LoadTensors(old(nodes), ts, cfg, matches) == LoadTensors(nodes, ts[j..], cfg, matches)
      {
        assert ts[j..][0] == ts[j] && ts[j..][1..] == ts[j + 1..];
        var report := AttachTensor(ts[j].0, ts[j].1, cfg, matches);
        if report.Failed? {
          return Some(report.fault);
        }
        j := j + 1;
      }
      fault := None;
    }

    /** `load_and_replace_tensors(model, directory, config)` over a given
        directory listing. */
    method LoadAndReplace(files: seq<ShardFile>, cfg: Config, matches: Matcher) returns (fault: Option<Fault>)
      requires Valid()
      modifies this
      ensures Valid()
      ensures (nodes, fault) == LoadFiles(old(nodes), files, cfg, matches)
    {
      var i := 0;
      while i < |files|
        invariant 0 <= i <= |files| && Valid()
        invariant LoadFiles(old(nodes), files, cfg, matches) == LoadFiles(nodes, files[i..], cfg, matches)
      {
        assert files[i..][0] == files[i] && files[i..][1..] == files[i + 1..];
        if EndsWith(files[i].fileName, SUFFIX) {
          var f := LoadShard(files[i].tensors, cfg, matches);
          if f.Some? {
            return f;
          }
        }
        i := i + 1;
      }
      fault := None;
    }
  }
}
