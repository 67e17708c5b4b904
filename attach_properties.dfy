/** What attaching one checkpoint tensor does to the module tree, and how the
    per-file and per-directory loops compose, proved about the rewriter's
    specification functions. */
module AttachProperties {
  import opened Wrappers
  import opened Names
  import opened Tensors
  import opened Launch
  import opened ModuleTree
  import opened Rewriter
  import opened RewriterProperties

  /** The module path a tensor name designates (all but its last component). */
  function ModuleOf(name: string): Path {
    DropLast(Split(name))
  }

  /** The attribute name a tensor name designates (its last component). */
  function LeafOf(name: string): string {
    Leaf(Split(name))
  }

  /** The parameter or buffer called `k`; parameters win, as in the copy. */
  function EntryOf(n: Node, k: string): Tensor
    requires k in Entries(n)
  {
    if k in n.params then n.params[k] else n.buffers[k]
  }

  /** The tensor is not yet in the state dict, its module exists, and the name
      is one `register_buffer` accepts: the branch that registers a buffer. */
  predicate Registers(t: Tree, name: string) {
    && !InStateDict(t, name)
    && ModuleOf(name) in t
    && LeafOf(name) != SPLIT_POSITIONS
    && LeafOf(name) != ""
    && ModuleOf(name) + [LeafOf(name)] !in t
  }

  /** The module-path walk for a new tensor finds exactly its module, when present. */
  lemma ResolveModule(t: Tree, name: string)
    requires WellFormed(t)
    ensures Resolve(t, [], ModuleOf(name)) == if ModuleOf(name) in t then Some(ModuleOf(name)) else None
  {
    ResolveExact(t, [], ModuleOf(name));
    assert [] + ModuleOf(name) == ModuleOf(name);
  }

  /** A name that is neither in the state dict nor below an existing module is
      reported and skipped: nothing changes. */
  lemma AttachPathMissing(t: Tree, name: string, v: Tensor, cfg: Config, matches: Matcher)
    requires WellFormed(t)
    ensures Attach(t, name, v, cfg, matches).1 == PathMissing <==> !InStateDict(t, name) && ModuleOf(name) !in t
    ensures Attach(t, name, v, cfg, matches).1 == PathMissing ==> Attach(t, name, v, cfg, matches).0 == t
  {
    ResolveModule(t, name);
  }

  /** A name already in the state dict is copied into the existing tensor when
      the shapes agree and reported as a mismatch otherwise; the copy keeps the
      shape, replaces the values, and touches nothing else (no hook, no
      stripping). */
  lemma AttachExisting(t: Tree, name: string, v: Tensor, cfg: Config, matches: Matcher)
    requires WellFormed(t) && InStateDict(t, name)
    ensures var r, mod, k := Attach(t, name, v, cfg, matches), ModuleOf(name), LeafOf(name);
      var before := EntryOf(t[mod], k);
      && r.1 == (if before.shape == v.shape then Copied else ShapeMismatch)
      && InStateDict(r.0, name)
      && EntryOf(r.0[mod], k) == (if before.shape == v.shape then before.(data := v.data) else before)
      && r.0[mod].hooks == t[mod].hooks
      && r.0[mod].params.Keys == t[mod].params.Keys
      && r.0[mod].buffers.Keys == t[mod].buffers.Keys
      && (forall p :: p in t && p != mod ==> r.0[p] == t[p])
  {
  }

  /** `r` differs from `t` only on `mod` and, by removed weights, on the
      modules below it. */
  predicate FramedBy(t: Tree, r: Tree, mod: Path) {
    && r.Keys == t.Keys
    && (forall p :: p in t && p != mod && !IsStrictPrefix(mod, p) ==> r[p] == t[p])
    && (forall p :: p in t && p != mod ==> WeightOnlyRemoved(t[p], r[p]) && r[p].injection == t[p].injection)
  }

  lemma UpdateFramed(t: Tree, mod: Path, n: Node)
    requires mod in t
    ensures FramedBy(t, t[mod := n], mod)
  {
  }

  lemma UpdateThenRewiredFramed(t: Tree, mod: Path, n: Node, r: Tree)
    requires mod in t && Rewired(t[mod := n], r, mod)
    ensures FramedBy(t, r, mod)
  {
  }

  /** Every leaf step other than a new `encoded_exponent` replaces at most
      the node of the module reached, keeping its hooks. */
  lemma AttachLeafPlain(t: Tree, mod: Path, leaf: string, v: Tensor, cfg: Config, matches: Matcher)
    requires mod in t && (leaf != ENCODED_EXPONENT || mod + [leaf] in t)
    ensures var r := AttachLeaf(t, mod, leaf, v, cfg, matches).0;
      r == t[mod := r[mod]] && r[mod].hooks == t[mod].hooks
  {
  }

  /** A new `encoded_exponent`: the module gets the buffer and one hook, then
      the pattern loop rewires it and the sub-layers below it. */
  lemma AttachLeafEncoded(t: Tree, mod: Path, v: Tensor, cfg: Config, matches: Matcher)
    requires mod in t && mod + [ENCODED_EXPONENT] !in t
    ensures var n := t[mod].(buffers := t[mod].buffers[ENCODED_EXPONENT := v], hooks := t[mod].hooks + 1);
      Rewired(t[mod := n], AttachLeaf(t, mod, ENCODED_EXPONENT, v, cfg, matches).0, mod)
  {
    var t1 := t[mod := t[mod].(buffers := t[mod].buffers[ENCODED_EXPONENT := v])];
    var n := t1[mod].(hooks := t1[mod].hooks + 1);
    assert t1[mod := n] == t[mod := n];
    StripPatternsRewired(t[mod := n], mod, cfg.patterns, matches);
  }

  /** The leaf step changes only the module reached and, through the pattern
      loop, the sub-layers below it; it adds a hook exactly for a new
      `encoded_exponent`. */
  lemma AttachLeafFrame(t: Tree, mod: Path, leaf: string, v: Tensor, cfg: Config, matches: Matcher)
    requires mod in t
    ensures var r := AttachLeaf(t, mod, leaf, v, cfg, matches).0;
      && FramedBy(t, r, mod)
      && r[mod].hooks == t[mod].hooks + (if leaf == ENCODED_EXPONENT && mod + [leaf] !in t then 1 else 0)
  {
    var r := AttachLeaf(t, mod, leaf, v, cfg, matches).0;
    if leaf == ENCODED_EXPONENT && mod + [leaf] !in t {
      AttachLeafEncoded(t, mod, v, cfg, matches);
      UpdateThenRewiredFramed(t, mod, t[mod].(buffers := t[mod].buffers[leaf := v], hooks := t[mod].hooks + 1), r);
    } else {
      AttachLeafPlain(t, mod, leaf, v, cfg, matches);
      UpdateFramed(t, mod, r[mod]);
    }
  }

  /** Only the tensor's own module and the modules below it can change, and
      the modules below it can only lose their `weight`. */
  lemma AttachFrame(t: Tree, name: string, v: Tensor, cfg: Config, matches: Matcher)
    requires WellFormed(t)
    ensures FramedBy(t, Attach(t, name, v, cfg, matches).0, ModuleOf(name))
  {
    ResolveModule(t, name);
    var mod := ModuleOf(name);
    var r := Attach(t, name, v, cfg, matches).0;
    if InStateDict(t, name) {
      UpdateFramed(t, mod, r[mod]);
      assert r == t[mod := r[mod]];
    } else if mod in t {
      AttachLeafFrame(t, mod, LeafOf(name), v, cfg, matches);
    }
  }

  /** `register_forward_pre_hook` runs exactly once per newly attached
      `encoded_exponent`, on its module, and no other attachment changes any
      module's hooks. */
  lemma AttachHooks(t: Tree, name: string, v: Tensor, cfg: Config, matches: Matcher)
    requires WellFormed(t)
    ensures forall p :: p in t ==>
      Attach(t, name, v, cfg, matches).0[p].hooks
        == t[p].hooks + (if p == ModuleOf(name) && Registers(t, name) && LeafOf(name) == ENCODED_EXPONENT then 1 else 0)
  {
    ResolveModule(t, name);
    AttachFrame(t, name, v, cfg, matches);
    var mod := ModuleOf(name);
    if !InStateDict(t, name) && mod in t {
      AttachLeafFrame(t, mod, LeafOf(name), v, cfg, matches);
    }
  }

  lemma {:induction false} InjectTargetsFaults(t: Tree, mod: Path, attrs: seq<string>)
    requires mod in t
    ensures InjectTargets(t, mod, attrs).1.Some? ==> InjectTargets(t, mod, attrs).1.value.AttributeError?
    decreases |attrs|
  {
    if attrs != [] {
      match Resolve(t, mod, Split(attrs[0]))
      case None =>
      case Some(target) =>
        var s := StripWeight(t, target);
        if s.1.None? {
          var t1 := s.0[mod := s.0[mod].(injection := Some(Injected(s.0[mod]) + [target]))];
          InjectTargetsFaults(t1, mod, attrs[1..]);
        }
    }
  }

  /** The pattern loop can only fail on a missing attribute or weight. */
  lemma {:induction false} StripPatternsFaults(t: Tree, mod: Path, pats: seq<Pattern>, matches: Matcher)
    requires mod in t
    ensures StripPatterns(t, mod, pats, matches).1.Some? ==> StripPatterns(t, mod, pats, matches).1.value.AttributeError?
    decreases |pats|
  {
    if pats != [] {
      if matches(pats[0].0, Join(mod)) {
        var s := StripOne(t, mod, pats[0].1);
        if t[mod].kind.Composite? {
          InjectTargetsFaults(t[mod := t[mod].(injection := Some([]))], mod, pats[0].1);
        }
        if s.1.None? {
          StripPatternsFaults(s.0, mod, pats[1..], matches);
        }
      } else {
        StripPatternsFaults(t, mod, pats[1..], matches);
      }
    }
  }

  /** A new tensor becomes a registered buffer holding exactly the loaded
      tensor, so it is in the state dict afterwards; only `encoded_exponent`
      (a missing attribute or weight) and `output_positions` (the
      shared-memory computation) can fail. */
  lemma AttachRegisters(t: Tree, name: string, v: Tensor, cfg: Config, matches: Matcher)
    requires WellFormed(t) && Registers(t, name)
    ensures var r, mod, k := Attach(t, name, v, cfg, matches), ModuleOf(name), LeafOf(name);
      && r.0[mod].buffers == t[mod].buffers[k := v]
      && InStateDict(r.0, name)
      && EntryOf(r.0[mod], k) == v
      && (k != ENCODED_EXPONENT && k != OUTPUT_POSITIONS ==> r.1 == Attached)
      && (k == ENCODED_EXPONENT ==> r.1 == Attached || (r.1.Failed? && r.1.fault.AttributeError?))
  {
    ResolveModule(t, name);
    var mod, k := ModuleOf(name), LeafOf(name);
    if k == ENCODED_EXPONENT {
      var t1 := t[mod := t[mod].(buffers := t[mod].buffers[k := v])];
      var t2 := t1[mod := t1[mod].(hooks := t1[mod].hooks + 1)];
      StripPatternsRewired(t2, mod, cfg.patterns, matches);
      StripPatternsFaults(t2, mod, cfg.patterns, matches);
    }
  }

  /** `output_positions`: the module's `shared_mem_size` becomes the size
      computed from the first thread count and the positions read as uint32
      words; an empty thread tuple, an unreadable tensor and fewer than two
      words each raise. */
  lemma AttachOutputPositions(t: Tree, name: string, v: Tensor, cfg: Config, matches: Matcher)
    requires WellFormed(t) && Registers(t, name) && LeafOf(name) == OUTPUT_POSITIONS
    ensures var r, mod := Attach(t, name, v, cfg, matches), ModuleOf(name);
      && (|cfg.threadsPerBlock| == 0 ==> r.1 == Failed(IndexError) && r.0[mod].sharedMemSize == t[mod].sharedMemSize)
      && (|cfg.threadsPerBlock| > 0 && AsWords(v).None? ==> r.1 == Failed(ViewError))
      && (|cfg.threadsPerBlock| > 0 && AsWords(v).Some? ==>
            && (r.1 == Attached <==> |AsWords(v).value| >= 2)
            && (r.1 == Attached ==> r.0[mod].sharedMemSize == SharedMemSize(cfg.threadsPerBlock[0], AsWords(v).value))
            && (r.1 != Attached ==> r.1 == Failed(EmptyMaximum)))
  {
    ResolveModule(t, name);
    if |cfg.threadsPerBlock| > 0 && AsWords(v).Some? {
      SharedMemSizeDefinedIff(cfg.threadsPerBlock[0], AsWords(v).value);
    }
  }

  /** `split_positions` is stored as a plain attribute holding the values: it
      does not enter the state dict, so loading it again sets it again. */
  lemma AttachSplitPositions(t: Tree, name: string, v: Tensor, cfg: Config, matches: Matcher)
    requires WellFormed(t) && !InStateDict(t, name) && ModuleOf(name) in t && LeafOf(name) == SPLIT_POSITIONS
    ensures var r, mod := Attach(t, name, v, cfg, matches), ModuleOf(name);
      && r.1 == Attached
      && r.0 == t[mod := t[mod].(splitPositions := Some(v.data))]
      && !InStateDict(r.0, name)
  {
    ResolveModule(t, name);
  }

  /** Loading the same new tensor name twice: the second time it is in the
      state dict, so it is copied (or reported as a shape mismatch) and no
      second hook is registered. */
  lemma ReattachCopies(t: Tree, name: string, v: Tensor, w: Tensor, cfg: Config, matches: Matcher)
    requires WellFormed(t) && Registers(t, name)
    ensures var u := Attach(t, name, v, cfg, matches).0;
      && Attach(u, name, w, cfg, matches).1 == (if w.shape == v.shape then Copied else ShapeMismatch)
      && (forall p :: p in u ==> Attach(u, name, w, cfg, matches).0[p].hooks == u[p].hooks)
  {
    AttachRegisters(t, name, v, cfg, matches);
    var u := Attach(t, name, v, cfg, matches).0;
    AttachExisting(u, name, w, cfg, matches);
    AttachHooks(u, name, w, cfg, matches);
  }

  /** The checkpoint files the loader reads: those named `*.safetensors`, in
      listing order. */
  function Shards(files: seq<ShardFile>): (r: seq<ShardFile>)
    ensures forall f :: f in r ==> f in files && EndsWith(f.fileName, SUFFIX)
    ensures forall f :: f in files && EndsWith(f.fileName, SUFFIX) ==> f in r
  {
    if files == [] then []
    else (if EndsWith(files[0].fileName, SUFFIX) then [files[0]] else []) + Shards(files[1..])
  }

  /** The tensors of a list of files, file after file. */
  function AllTensors(files: seq<ShardFile>): seq<(string, Tensor)> {
    if files == [] then [] else files[0].tensors + AllTensors(files[1..])
  }

  /** The per-file loop over a concatenation is the loop over the first part
      followed, unless it raised, by the loop over the second. */
  lemma {:induction false} LoadTensorsAppend(t: Tree, a: seq<(string, Tensor)>, b: seq<(string, Tensor)>, cfg: Config, matches: Matcher)
    requires WellFormed(t)
    ensures LoadTensors(t, a + b, cfg, matches)
      == (var s := LoadTensors(t, a, cfg, matches); if s.1.Some? then s else LoadTensors(s.0, b, cfg, matches))
    decreases |a|
  {
    if a == [] {
      assert a + b == b;
    } else {
      assert (a + b)[0] == a[0] && (a + b)[1..] == a[1..] + b;
      var x := Attach(t, a[0].0, a[0].1, cfg, matches);
      if !x.1.Failed? {
        LoadTensorsAppend(x.0, a[1..], b, cfg, matches);
      }
    }
  }

  /** Loading a directory is loading one stream of tensors: those of its
      `.safetensors` files in listing order, other files ignored, the first
      exception ending the load. */
  lemma {:induction false} LoadFilesIsOneStream(t: Tree, files: seq<ShardFile>, cfg: Config, matches: Matcher)
    requires WellFormed(t)
    ensures LoadFiles(t, files, cfg, matches) == LoadTensors(t, AllTensors(Shards(files)), cfg, matches)
    decreases |files|
  {
    if files != [] {
      var rest := Shards(files[1..]);
      if EndsWith(files[0].fileName, SUFFIX) {
        assert Shards(files) == [files[0]] + rest;
        assert ([files[0]] + rest)[0] == files[0] && ([files[0]] + rest)[1..] == rest;
        LoadTensorsAppend(t, files[0].tensors, AllTensors(rest), cfg, matches);
        var s := LoadTensors(t, files[0].tensors, cfg, matches);
        if s.1.None? {
          LoadFilesIsOneStream(s.0, files[1..], cfg, matches);
        }
      } else {
        assert Shards(files) == rest;
        LoadFilesIsOneStream(t, files[1..], cfg, matches);
      }
    }
  }

  /** Replacing a node without changing its injection list keeps every list's
      modules present. */
  lemma PresentAfterUpdate(t: Tree, p: Path, n: Node)
    requires InjectionsPresent(t) && p in t && n.injection == t[p].injection
    ensures InjectionsPresent(t[p := n])
  {
  }

  lemma {:induction false} InjectTargetsPresent(t: Tree, mod: Path, attrs: seq<string>)
    requires mod in t && InjectionsPresent(t)
    ensures InjectionsPresent(InjectTargets(t, mod, attrs).0)
    decreases |attrs|
  {
    if attrs != [] {
      match Resolve(t, mod, Split(attrs[0]))
      case None =>
      case Some(target) =>
        var s := StripWeight(t, target);
        if s.1.None? {
          PresentAfterUpdate(t, target, t[target].(params := t[target].params - {WEIGHT}));
          var list := Injected(s.0[mod]) + [target];
          var t1 := s.0[mod := s.0[mod].(injection := Some(list))];
          forall p, i | p in t1 && t1[p].injection.Some? && 0 <= i < |t1[p].injection.value|
            ensures t1[p].injection.value[i] in t1
          {
            if p == mod && i < |list| - 1 {
              assert list[i] == s.0[mod].injection.value[i];
            }
          }
          InjectTargetsPresent(t1, mod, attrs[1..]);
        }
    }
  }

  lemma {:induction false} StripPatternsPresent(t: Tree, mod: Path, pats: seq<Pattern>, matches: Matcher)
    requires mod in t && InjectionsPresent(t)
    ensures InjectionsPresent(StripPatterns(t, mod, pats, matches).0)
    decreases |pats|
  {
    if pats != [] {
      if matches(pats[0].0, Join(mod)) {
        var s := StripOne(t, mod, pats[0].1);
        if t[mod].kind.Composite? {
          InjectTargetsPresent(t[mod := t[mod].(injection := Some([]))], mod, pats[0].1);
        } else {
          PresentAfterUpdate(t, mod, t[mod].(params := t[mod].params - {WEIGHT}));
        }
        if s.1.None? {
          StripPatternsPresent(s.0, mod, pats[1..], matches);
        }
      } else {
        StripPatternsPresent(t, mod, pats[1..], matches);
      }
    }
  }

  /** Loading keeps the invariant the decode hook relies on: every module of
      a `weight_injection_modules` list is a module of the tree. */
  lemma AttachPresent(t: Tree, name: string, v: Tensor, cfg: Config, matches: Matcher)
    requires WellFormed(t) && InjectionsPresent(t)
    ensures InjectionsPresent(Attach(t, name, v, cfg, matches).0)
  {
    ResolveModule(t, name);
    var mod, k := ModuleOf(name), LeafOf(name);
    if Registers(t, name) && k == ENCODED_EXPONENT {
      var t1 := t[mod := t[mod].(buffers := t[mod].buffers[k := v])];
      var t2 := t1[mod := t1[mod].(hooks := t1[mod].hooks + 1)];
      PresentAfterUpdate(t, mod, t2[mod]);
      StripPatternsPresent(t2, mod, cfg.patterns, matches);
    } else if InStateDict(t, name) || mod in t {
      PresentAfterUpdate(t, mod, Attach(t, name, v, cfg, matches).0[mod]);
      assert Attach(t, name, v, cfg, matches).0 == t[mod := Attach(t, name, v, cfg, matches).0[mod]];
    }
  }

  lemma {:induction false} LoadTensorsPresent(t: Tree, ts: seq<(string, Tensor)>, cfg: Config, matches: Matcher)
    requires WellFormed(t) && InjectionsPresent(t)
    ensures InjectionsPresent(LoadTensors(t, ts, cfg, matches).0)
    decreases |ts|
  {
    if ts != [] {
      AttachPresent(t, ts[0].0, ts[0].1, cfg, matches);
      var a := Attach(t, ts[0].0, ts[0].1, cfg, matches);
      if !a.1.Failed? {
        LoadTensorsPresent(a.0, ts[1..], cfg, matches);
      }
    }
  }

  lemma LoadFilesPresent(t: Tree, files: seq<ShardFile>, cfg: Config, matches: Matcher)
    requires WellFormed(t) && InjectionsPresent(t)
    ensures InjectionsPresent(LoadFiles(t, files, cfg, matches).0)
  {
    LoadFilesIsOneStream(t, files, cfg, matches);
    LoadTensorsPresent(t, AllTensors(Shards(files)), cfg, matches);
  }
}
