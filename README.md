# DFloat11 loader and decode-hook model

This project models the runtime core of the DFloat11 loader in
`inference_precompile_v2.py`. DFloat11 stores a model's bf16 weights
losslessly compressed in `.safetensors` shards. Each compressed layer carries
these buffers:

- `luts`, `encoded_exponent`, `sign_mantissa`, `output_positions` and `gaps`;
- optionally `split_positions`.

The modules model the following parts of the loader:

- **BufferPool** (`TensorManager`) is a per-device cache of one reusable bf16
  output buffer. `get_tensor` returns an exact-length prefix view, and
  reallocates only when the cached buffer is too small. `clear_device`
  releases one device or all of them. The process-wide dictionary is a
  `class TensorManager` with a `map` field. Buffers are values with a
  capacity and an identity, so "a new allocation" is observable.
- **Launch** covers the launch arithmetic. `blocks_per_grid` is the ceiling
  of `n_bytes / (threads_per_block[0] * bytes_per_thread)`. The shared-memory
  size is `threads_per_block[0] * 4 + 4 + 2 * max gap`, where the gaps are
  computed between consecutive `output_positions` read as uint32 words, with
  the wrap-around of unsigned subtraction.
- **Tensors** holds the element types, shapes, contents, the element count
  and the little-endian `view(torch.uint32)` reinterpretation.
- **TensorSplit** models `torch.tensor_split` with clamped indices, and
  `zip`.
- **ModuleTree** is the model's module hierarchy. It is a map from dotted
  paths (as component sequences) to nodes. Each node holds:
  - its kind (Linear, Embedding or other);
  - its parameters and buffers;
  - `split_positions`, `weight_injection_modules` and `shared_mem_size`;
  - its forward-pre-hook count;
  - the installed decoded weight.

  The state dict is derived from the tree. The `getattr` walk is `Resolve`.
- **Rewriter** models `load_and_replace_tensors`. Spec functions model the
  following steps:
  - copy into an existing state-dict entry, or report a shape mismatch;
  - the module walk;
  - `split_positions`;
  - `register_buffer`;
  - hook registration;
  - pattern-driven weight stripping and injection lists;
  - the shared-memory size.

  `class Model` holds the mutable tree. Its methods do the same step by step,
  with loops, and each is proved equal to its spec function.
  `RewriterProperties` and `AttachProperties` state what the rewrite
  guarantees.
- **DecodeHook** models the forward pre-hook. The order of steps is:
  1. read the attributes;
  2. take the pool buffer for the device of `encoded_exponent`;
  3. compute the launch arguments;
  4. install the decoded weight: the whole buffer for Linear/Embedding, or
     one `tensor_split` chunk per injected sub-layer.

  `RunHook` runs it on a `TensorManager` and a `Model`.
- **Placement** models `get_no_split_classes`: the class names of the modules
  any pattern full-matches, each once, in order of first discovery.
- **Footprint** models the model-size loop over `state_dict().values()`.

External inputs are parameters:

- the regex engine is a `Matcher` (`re.fullmatch`);
- the directory listing and shard contents form the `files` sequence;
- `named_modules()` is given as a sequence;
- the CUDA kernel is represented by the `Kernel` record of its launch
  arguments.

## Model

| member | source | states |
|---|---|---|
| BufferPool.Get | inference_precompile_v2.py:52-70 | `get_tensor(d, n)` on the pool value: the entry for `d` is reused when its capacity is at least `n`, and otherwise replaced by a new buffer of exactly `n` elements; the view is its first `n` elements (properties in the lemmas below) |
| BufferPool.Clear | inference_precompile_v2.py:80-90 | `clear_device`: `None` empties the dictionary, a device removes its own entry only (`ClearSemantics`) |
| BufferPool.GetReturnsExactPrefix | inference_precompile_v2.py:52-70 | the returned view has exactly `n_elements` elements at offset 0, lies in the pool's buffer for the device, and that buffer holds at least `n_elements` |
| BufferPool.GetReusesLargeEnough | inference_precompile_v2.py:52-57 | a cached buffer at least as large as the request is reused and the pool is left exactly as it was |
| BufferPool.GetReallocates | inference_precompile_v2.py:59-68 | a missing or too-small entry is replaced by a buffer of capacity exactly `n_elements`, distinct from every live buffer, and other devices keep their entries |
| BufferPool.GetKeepsWellFormed | inference_precompile_v2.py:63-68 | every live buffer's identity stays below the counter of the next allocation, so later allocations are new |
| BufferPool.IdentityChangesIffGrowth | inference_precompile_v2.py:52-68 | the device's buffer changes identity if and only if the request exceeds its capacity; its capacity becomes the larger of the two |
| BufferPool.CapacityAfterMany | inference_precompile_v2.py:52-68 | after a run of requests on one device the capacity is the maximum of the old capacity and all requests: it never shrinks |
| BufferPool.ReallocationsBoundedByRises | inference_precompile_v2.py:52-68 | a run of requests reallocates at most once per strict increase between consecutive requests, plus once for an initial miss |
| BufferPool.ClearSemantics | inference_precompile_v2.py:80-90 | `clear_device(None)` empties the pool; `clear_device(d)` removes exactly `d`'s entry and is a no-op when `d` has none |
| BufferPool.ClearThenGetAllocates | inference_precompile_v2.py:80-90 | after clearing a device the next request allocates a fresh buffer of exactly the requested size |
| BufferPool.TensorManager.constructor | inference_precompile_v2.py:28 | the pool starts empty |
| BufferPool.TensorManager.GetTensor | inference_precompile_v2.py:31-70 | the new pool and view are those of `Get`: reuse leaves the fields untouched; otherwise only `d`'s entry changes |
| BufferPool.TensorManager.ClearDevice | inference_precompile_v2.py:73-92 | the dictionary becomes empty, or loses exactly the given device's key |
| Basics.Largest | inference_precompile_v2.py:255-258 | the maximum of a non-empty sequence bounds every element and is attained |
| Names.Split | inference_precompile_v2.py:202 | `str.split('.')` yields at least one component and no component contains a dot |
| Names.JoinSplit | inference_precompile_v2.py:202 | joining the components of a name with dots gives the name back |
| Names.SplitJoin | inference_precompile_v2.py:226 | splitting a dot-joined list of dot-free components gives the list back |
| Tensors.AsWords | inference_precompile_v2.py:256 | `view(torch.uint32)`: the tensor's little-endian bytes regrouped as 32-bit words; fails when a narrow type does not fill whole words (`WordsOfWidthFour`, `WordsOfWidthEight`) |
| Tensors.WordsOfWidthFour | inference_precompile_v2.py:256-257 | a 4-byte tensor viewed as uint32 has one word per element, each the element modulo 2^32 |
| Tensors.WordsOfWidthEight | inference_precompile_v2.py:256-257 | an 8-byte tensor viewed as uint32 has two little-endian words per element |
| Launch.BlocksPerGrid | inference_precompile_v2.py:122 | `ceil(n_bytes / (threads_per_block[0] * bytes_per_thread))` in exact integer arithmetic (`BlocksPerGridIsCeiling`) |
| Launch.BlocksPerGridIsCeiling | inference_precompile_v2.py:122 | the grid size times threads times bytes per thread covers `n_bytes`, and no smaller block count does |
| Launch.BlocksPerGridExamples | inference_precompile_v2.py:122 | 1000 or 1024 bytes with 256 threads of 4 bytes need one block, 1025 need two, 0 need none |
| Launch.Gaps | inference_precompile_v2.py:256-257 | the uint32 array difference `w[1:] - w[:-1]`, wrapping modulo 2^32 (`GapAt`) |
| Launch.SharedMemSize | inference_precompile_v2.py:255-258 | `threads * 4 + 4 + 2 * max(gaps)`, undefined when there are no gaps (`SharedMemSizeDefinedIff`, `SharedMemSizeOfIncreasing`) |
| Launch.GapAt | inference_precompile_v2.py:256-257 | each gap is the uint32 difference of consecutive positions, wrapping when a position decreases |
| Launch.SharedMemSizeDefinedIff | inference_precompile_v2.py:255-258 | the shared-memory size exists if and only if there are at least two positions (otherwise `max` of an empty array raises) |
| Launch.SharedMemSizeOfIncreasing | inference_precompile_v2.py:255-258 | for increasing positions the size is `threads*4 + 4 + 2*m` with `m` the attained largest difference |
| Launch.DecreasingPositionWraps | inference_precompile_v2.py:256-257 | a decreasing position yields a gap of `2^32 - drop` and a correspondingly huge size |
| Launch.SharedMemSizeExample | inference_precompile_v2.py:255-258 | 128 threads and positions 0, 10, 25, 40 need 546 bytes |
| TensorSplit.Clamp | inference_precompile_v2.py:149 | split indices are clamped into `[0, n]` and in-range indices are kept |
| TensorSplit.Chunks | inference_precompile_v2.py:149 | `torch.tensor_split(x, indices)`: one more chunk than indices; chunk `k` runs from clamped index `k - 1` (0 for the first) to clamped index `k` (`n` for the last), empty when the end precedes the start (`ChunksAreContiguous`, `ChunksConcatenate`) |
| TensorSplit.ChunksAreContiguous | inference_precompile_v2.py:149 | for sorted in-range indices each chunk starts where the previous one ends, the first at 0 and the last ending at `n` |
| TensorSplit.ChunksConcatenate | inference_precompile_v2.py:149 | `tensor_split` gives one more chunk than indices, and the chunks concatenate to the input |
| TensorSplit.SplitAtOne | inference_precompile_v2.py:149 | a single index splits into the prefix and the suffix |
| TensorSplit.Zip | inference_precompile_v2.py:150 | `zip` has the shorter length and pairs elements by position |
| ModuleTree.InStateDict | inference_precompile_v2.py:184 | `tensor_name in model.state_dict()`: the name's module exists and has a parameter or buffer under its last component (`StateDictNames`) |
| ModuleTree.StateDictNames | inference_precompile_v2.py:184 | a name is in the state dict if and only if it is some module's dotted path plus one of its parameter or buffer names |
| ModuleTree.Resolve | inference_precompile_v2.py:206-211 | a successful walk ends at a module of the tree |
| ModuleTree.ResolveExact | inference_precompile_v2.py:206-212 | in a tree closed under prefixes the walk succeeds exactly when the full path is a module, and reaches that module |
| Rewriter.CopyInto | inference_precompile_v2.py:184-199 | copy into the existing parameter (preferred) or buffer when the shapes agree, else a shape-mismatch report; keeps the module set (`AttachExisting`) |
| Rewriter.StripWeight | inference_precompile_v2.py:229-236 | `tmp = m.weight; delattr(m, 'weight')`: removes the `weight` parameter, or raises `AttributeError` when there is none; keeps the module set |
| Rewriter.InjectTargets | inference_precompile_v2.py:240-249 | resolve each attribute path below the module, strip its weight and append it to `weight_injection_modules`, stopping at the first exception; keeps the module set (`InjectTargetsSuccess`, `InjectTargetsFaults`) |
| Rewriter.StripOne | inference_precompile_v2.py:227-249 | one matching pattern: strip a Linear or Embedding layer's own weight, or start a fresh injection list and fill it; keeps the module set (`StripOneEffect`) |
| Rewriter.StripPatterns | inference_precompile_v2.py:225-249 | the pattern loop with every pattern tested against the module's own path (the corrected reading of line 241); keeps the module set (`StripPatternsAppliesMatching`) |
| Rewriter.PositionsSize | inference_precompile_v2.py:250-259 | the `shared_mem_size` for `output_positions`, or the exception it raises: empty thread tuple, failed uint32 view, empty maximum (`AttachOutputPositions`) |
| Rewriter.AttachLeaf | inference_precompile_v2.py:212-259 | the `else:` branch of the walk: set `split_positions`, or `register_buffer`, then the hook and patterns or the shared-memory size; keeps the module set (`AttachRegisters`, `AttachHooks`) |
| Rewriter.Attach | inference_precompile_v2.py:184-259 | one iteration of the tensor loop: copy, walk failure, or attach; keeps the module set and the tree's closure under prefixes (`AttachFrame`, `AttachPathMissing`) |
| Rewriter.LoadTensors | inference_precompile_v2.py:182-259 | the loop over one file's tensors in order, stopping at the first exception; keeps the module set and prefix closure (`LoadTensorsAppend`) |
| Rewriter.LoadFiles | inference_precompile_v2.py:174-259 | the loop over the `.safetensors` files in listing order; keeps the module set and prefix closure (`LoadFilesIsOneStream`, `LoadFilesPresent`) |
| Rewriter.Model.constructor | inference_precompile_v2.py:156 | the rewriter starts on the given model tree |
| Rewriter.Model.FindModule | inference_precompile_v2.py:203-212 | the loop's result equals `Resolve`, and a found module is the base path extended by the components |
| Rewriter.Model.InjectInto | inference_precompile_v2.py:240-249 | the loop's new tree and fault equal `InjectTargets` on the old tree |
| Rewriter.Model.ApplyPatterns | inference_precompile_v2.py:225-249 | the loop's new tree and fault equal `StripPatterns` on the old tree |
| Rewriter.Model.AttachTensor | inference_precompile_v2.py:184-259 | the new tree and report equal `Attach` on the old tree |
| Rewriter.Model.LoadShard | inference_precompile_v2.py:182-259 | the new tree and first fault equal `LoadTensors` on the old tree |
| Rewriter.Model.LoadAndReplace | inference_precompile_v2.py:174-259 | the new tree and first fault equal `LoadFiles` on the old tree |
| RewriterProperties.ResolveDescends | inference_precompile_v2.py:242-244 | the sub-layer walk only descends: a found target is the module's path extended by the attribute path |
| RewriterProperties.StripWeightRewired | inference_precompile_v2.py:246-248 | removing a weight at or below the module changes nothing else |
| RewriterProperties.InjectTargetsRewired | inference_precompile_v2.py:239-249 | the injection step changes only the module's injection list and removes only weights of modules below the module |
| RewriterProperties.InjectTargetsKeepsRemoved | inference_precompile_v2.py:246-247 | a weight already removed stays removed |
| RewriterProperties.InjectTargetsAppends | inference_precompile_v2.py:249 | on success the injection list grows by exactly the targets, in attribute order |
| RewriterProperties.InjectTargetsStrips | inference_precompile_v2.py:241-248 | on success every target exists and has lost its native weight |
| RewriterProperties.InjectTargetsSuccess | inference_precompile_v2.py:239-249 | both of the above together |
| RewriterProperties.StripOneRewired | inference_precompile_v2.py:227-249 | one applied pattern changes only the module and weights below it |
| RewriterProperties.StripOneEffect | inference_precompile_v2.py:227-249 | Linear/Embedding: lose their weight, failing if it is absent; other modules: the injection list becomes exactly the targets, each without weight |
| RewriterProperties.StripPatternsRewired | inference_precompile_v2.py:225-249 | applying the pattern dict changes only the module and weights below it |
| RewriterProperties.Matching | inference_precompile_v2.py:225-226 | the selected patterns are patterns of the dict that full-match the path |
| RewriterProperties.StripPatternsAppliesMatching | inference_precompile_v2.py:225-226 | applying the dict is applying, in order, every pattern that full-matches the module's dotted path |
| RewriterProperties.SingleMatchInjection | inference_precompile_v2.py:225-249 | with exactly one matching pattern, a non-layer module's injection list is exactly that pattern's targets, all stripped |
| RewriterProperties.NoMatchNoStrip | inference_precompile_v2.py:225-226 | no matching pattern leaves the tree unchanged |
| RewriterProperties.StripPatternsAsWritten | inference_precompile_v2.py:225-241 | the loop as written, where the tested path text is rebound after each group pattern; it keeps the module set |
| RewriterProperties.ReboundPatternCounterexample | inference_precompile_v2.py:226-241 | for module `m` with patterns P (`["a.b"]`) then Q (`[]`), the code as written leaves `m` with an empty injection list while `m.a.b` has lost its weight; the corrected reading keeps `[m.a.b]` |
| AttachProperties.AttachPathMissing | inference_precompile_v2.py:206-211 | the walk fails exactly when the name is not in the state dict and its module does not exist, and then nothing changes |
| AttachProperties.AttachExisting | inference_precompile_v2.py:184-199 | a state-dict name is copied into when shapes agree and reported as a mismatch otherwise; no hook, no new entry, other modules unchanged |
| AttachProperties.AttachLeafFrame | inference_precompile_v2.py:213-259 | attaching a leaf changes only its module and weights below it |
| AttachProperties.AttachFrame | inference_precompile_v2.py:184-259 | attaching a tensor changes only the named module and weights below it |
| AttachProperties.AttachHooks | inference_precompile_v2.py:220-222 | exactly one hook is added, on the module of a newly registered `encoded_exponent`, and on no other module |
| AttachProperties.InjectTargetsFaults | inference_precompile_v2.py:243-247 | the sub-layer walk fails only with an attribute error |
| AttachProperties.StripPatternsFaults | inference_precompile_v2.py:225-249 | stripping fails only with an attribute error |
| AttachProperties.AttachRegisters | inference_precompile_v2.py:213-222 | a new name other than `split_positions` that `register_buffer` accepts (not empty, not a child module) becomes a buffer of its module holding exactly the loaded tensor; only `encoded_exponent` and `output_positions` can fail |
| AttachProperties.AttachOutputPositions | inference_precompile_v2.py:250-258 | `shared_mem_size` is set to the size for the first thread count exactly when there are at least two positions; an empty thread tuple, an unviewable dtype or one position raise |
| AttachProperties.AttachSplitPositions | inference_precompile_v2.py:213-214 | `split_positions` becomes a plain attribute holding the values and stays outside the state dict |
| AttachProperties.ReattachCopies | inference_precompile_v2.py:184-222 | loading a registered name again copies (or reports a mismatch) and registers no second hook |
| AttachProperties.Shards | inference_precompile_v2.py:174 | exactly the files whose names end in `.safetensors` are read |
| AttachProperties.LoadTensorsAppend | inference_precompile_v2.py:182 | loading two tensor lists in sequence is loading their concatenation, stopping at the first fault |
| AttachProperties.LoadFilesIsOneStream | inference_precompile_v2.py:174-182 | loading the shards file by file equals loading all their tensors as one stream in listing order |
| AttachProperties.AttachPresent | inference_precompile_v2.py:239-249 | every module in an injection list stays a module of the tree after an attach |
| AttachProperties.LoadFilesPresent | inference_precompile_v2.py:174-259 | after a whole load every injection list still names modules of the tree, as the hook needs |
| DecodeHook.Attr | inference_precompile_v2.py:113-115 | a module attribute read succeeds exactly when the module has that parameter or buffer |
| DecodeHook.SetWeight | inference_precompile_v2.py:140-142 | `weight = view(rows, cols)` succeeds exactly when the element count fits and no registered `weight` parameter remains; only that module changes |
| DecodeHook.ChunkViews | inference_precompile_v2.py:149 | the output is split into one more view than there are split positions |
| DecodeHook.Hook | inference_precompile_v2.py:111-151 | the forward pre-hook on the pool and tree values: attribute reads, `get_tensor`, launch arguments, weight installation, with each exception at the point the source raises it; keeps the module set (`HookLaunch`, `HookMissingAttribute`) |
| DecodeHook.Install | inference_precompile_v2.py:138-151 | the weight installation: whole view for Linear and Embedding, `tensor_split` chunks zipped with `weight_injection_modules` otherwise; keeps the module set (`InstallWhole`, `InstallChunksEffect`) |
| DecodeHook.InstallChunks | inference_precompile_v2.py:150-151 | the `zip` loop assigning chunk `j` to sub-layer `j` as an (out, in) view; keeps the module set (`InstallChunksEffect`) |
| DecodeHook.HookLaunch | inference_precompile_v2.py:113-136 | a launch decodes exactly `sign_mantissa.numel()` elements into a prefix of the pool buffer for `encoded_exponent`'s device, with the least covering grid and the stored shared-memory size |
| DecodeHook.HookMissingAttribute | inference_precompile_v2.py:113-115 | a missing compressed buffer raises before the pool is touched and nothing changes |
| DecodeHook.InstallWhole | inference_precompile_v2.py:139-146 | a Linear or Embedding layer gets the whole output as its weight of shape (out, in) or (num, dim), exactly when the size fits; nothing else changes |
| DecodeHook.InstallChunksEffect | inference_precompile_v2.py:149-151 | on success sub-layer `j` is Linear and gets chunk `j` as a (out, in) weight; every other module is unchanged |
| DecodeHook.ChunkViewsAreChunks | inference_precompile_v2.py:149 | chunk view `k` covers exactly `tensor_split`'s chunk `k` of the output |
| DecodeHook.ChunkViewsTile | inference_precompile_v2.py:149 | for partitioning positions the chunk views tile the output without gap or overlap |
| DecodeHook.AssignWeight | inference_precompile_v2.py:140-142 | the model's new tree and fault equal `SetWeight` on the old tree |
| DecodeHook.AssignChunks | inference_precompile_v2.py:150-151 | the zip loop's new tree and fault equal `InstallChunks` on the old tree |
| DecodeHook.RunHook | inference_precompile_v2.py:111-151 | the new pool, tree, launch and fault equal `Hook` on the old pool and tree |
| Placement.AddNew | inference_precompile_v2.py:283-284 | appending only absent names keeps the list duplicate-free, keeps its prefix and adds exactly the name |
| Placement.Dedup | inference_precompile_v2.py:283-284 | the first occurrence of each class name, in order (`DedupDistinct`, `DedupMembers`, `DedupOfDistinct`) |
| Placement.Hits | inference_precompile_v2.py:280-282 | the class names of the modules one pattern full-matches, in `named_modules()` order (`HitsMembers`) |
| Placement.Candidates | inference_precompile_v2.py:279-282 | the hits of every pattern, pattern after pattern (`CandidatesMembers`) |
| Placement.DedupDistinct | inference_precompile_v2.py:278-286 | the collected list has no duplicates |
| Placement.DedupMembers | inference_precompile_v2.py:278-286 | deduplication keeps exactly the collected names |
| Placement.DedupOfDistinct | inference_precompile_v2.py:283-284 | deduplicating a duplicate-free list changes nothing |
| Placement.HitsMembers | inference_precompile_v2.py:280-282 | one pattern collects exactly the class names of the modules it full-matches |
| Placement.CandidatesMembers | inference_precompile_v2.py:279-282 | all patterns collect exactly the class names of modules some pattern full-matches |
| Placement.NoSplitClassesMembers | inference_precompile_v2.py:278-286 | the result is duplicate-free and contains a class name if and only if some pattern full-matches a module of that class |
| Placement.NoSplitClasses | inference_precompile_v2.py:264-286 | the nested loop computes the deduplicated candidates, duplicate-free, with exactly the matched class names |
| Footprint.CountedWidth | inference_precompile_v2.py:357-366 | bool and fp8 count zero bytes; every other type counts its storage width of 1, 2, 4 or 8 |
| Footprint.Recognised | inference_precompile_v2.py:357-366 | the recognised tensors are exactly those of a counted element type |
| Footprint.Total | inference_precompile_v2.py:355-366 | the sum over the state dict of `numel()` times the counted width (`TotalPermutation`, `TotalAtMostEight`) |
| Footprint.ModelBytes | inference_precompile_v2.py:355-366 | the loop's total is the sum of element count times width over the state dict |
| Footprint.TotalAppend | inference_precompile_v2.py:356 | the total of concatenated tensor lists is the sum of their totals |
| Footprint.TotalPermutation | inference_precompile_v2.py:356 | the total does not depend on the order of the state dict |
| Footprint.UnrecognisedCountZero | inference_precompile_v2.py:365-366 | tensors of unrecognised types contribute nothing |
| Footprint.TotalAtMostEight | inference_precompile_v2.py:357-364 | the total is at most eight bytes per element |
| Footprint.TotalAtLeastRecognised | inference_precompile_v2.py:357-364 | the total is at least one byte per element of recognised type |

Three facts about the code shape the model:

- **No `break` in the pattern loop.** The loop at lines 225-249 has no
  `break`, so a pattern is applied whenever line 226 full-matches it. Line
  241 rebinds `parts`, so after a group pattern line 226 tests the remaining
  patterns against the prefix of the last attribute path, not the module's
  path; that is the row under "## Findings". `StripPatternsAsWritten` models
  the loop as written. `StripPatterns` and everything built on it test every
  pattern against the module's own path (`StripPatternsAppliesMatching`).
- **One hook per registration.** A hook is registered each time
  `encoded_exponent` goes through `register_buffer` (lines 217-222). Loading
  the same name again takes the copy branch at line 184 and registers nothing
  (`ReattachCopies`).
- **A single output position raises.** With one position, the difference
  array at lines 256-257 is empty and `.max()` raises; `AttachOutputPositions`
  models this as `EmptyMaximum`.

## Left out

- File I/O: `os.listdir`, `load_file`,
  `snapshot_download`, `AutoConfig` and the model construction. The listing
  order and the shards' contents are the `files` parameter.
- The CUDA kernel `dfloat11_decode_v2.decode` is not part of this model. Only
  its launch arguments are recorded, so the decoded bf16 values are not
  modelled.
- `torch.cuda.empty_cache`, the `print` diagnostics and `tqdm` have no effect
  on the modelled state.
- Device placement by accelerate (`infer_auto_device_map`, `dispatch_model`)
  and the `__main__` demo are outside the core.
- `re.fullmatch` is the `Matcher` parameter. Regex semantics are not modelled.
- `named_modules()` traversal order and `state_dict()` order are parameters (a
  sequence of modules, the `Entries` set). Duplicate modules reachable under
  two names and tied weights, which `named_parameters` lists once, are not
  modelled.
- Concurrency: the pool is modelled as used by one forward pass at a time.
- Rewriter.StripPatterns, Rewriter.Attach, Rewriter.LoadTensors,
  Rewriter.LoadFiles: follow the corrected reading of line 241 and test every
  pattern against the module's own path. The code as written is
  `RewriterProperties.StripPatternsAsWritten`; the two differ after a group
  pattern (`ReboundPatternCounterexample`).
- Rewriter.Model.ApplyPatterns: follows the corrected reading of line 241, as
  `StripPatterns` does.
- Rewriter.Model.AttachTensor: follows the corrected reading of line 241, as
  `Attach` does.
- Rewriter.Model.LoadShard: follows the corrected reading of line 241, as
  `LoadTensors` does.
- Rewriter.Model.LoadAndReplace: follows the corrected reading of line 241, as
  `LoadFiles` does.
- BufferPool.Get: never fails. The source deletes the cached entry (line 60)
  before `torch.empty` (line 64), so an allocation failure propagates and
  leaves the device with no entry; allocation failure is not modelled.
- BufferPool.TensorManager.GetTensor: the conversion of a device given as a
  string into `torch.device` (lines 48-49) is not modelled. Devices are
  abstract values.
- ModuleTree.InStateDict: counts every buffer as a state-dict entry. Buffers
  registered with `persistent=False` are left out of `state_dict()` (line 184)
  and are not modelled; the buffers this loader registers are persistent.
- Rewriter.AttachLeaf: stores `split_positions` as its element list. For a
  0-d tensor `tolist()` (line 214) gives an int, and `tensor_split` (line 149)
  then splits into that many equal sections; that case is not modelled.
- BufferPool.TensorManager.ClearDevice: the conversion of a device given as a
  string into `torch.device` is not modelled. Devices are abstract values.
- Launch.BlocksPerGrid: the exact ceiling is modelled. The source computes it
  in floating point, which can differ once `n_bytes` exceeds 2^53.
- DecodeHook.Hook: requires `bytes_per_thread > 0` and a positive first
  thread count. The source's behaviour for a zero divisor
  (`ZeroDivisionError`) or a negative grid is not modelled.
- Rewriter.Attach: `register_buffer`'s `KeyError` for names that collide with
  plain attributes or methods is not modelled. Only the empty name and the
  names of child modules are refused.
- Rewriter.Attach: `hasattr` can walk into attributes that are not modules.
  The model walks only sub-modules, and any other component ends the walk as
  "cannot find module path".
- Rewriter.CopyInto: `copy_` converts the element type. The model copies the
  values into the existing entry and keeps its element type.
- Tensors.AsWords: multi-dimensional `output_positions` are flattened. Only
  the element sequence is modelled.
- DecodeHook.InstallChunksEffect: stated for injection lists without repeated
  sub-layers. With repeats the last chunk assigned to a sub-layer wins, which
  the function models but the lemma does not describe.
- Placement.NoSplitClasses: each module arrives paired with its class name.
  Python's `__class__.__name__` lookup itself is not modelled.

## Findings

| source | as written | input that shows it | evidently intended | confidence | as-written member | corrected member |
|---|---|---|---|---|---|---|
| inference_precompile_v2.py:241 | `parts = attr_path.split('.')` rebinds the `parts` of the tensor name, so the patterns tried after a group pattern are matched against `'.'.join(parts[:-1])` of the last attribute path instead of the module's path | group module `m` (neither Linear nor Embedding) with Linear sub-layer `m.a.b`; `pattern_dict = {"P": ["a.b"], "Q": []}` where P full-matches `m` and Q full-matches only `a`; after P the text tested against Q is `a`, so Q is applied and resets `m.weight_injection_modules` to `[]`, while `m.a.b` has already lost its weight and never receives a decoded one | every pattern is tested against the module's own dotted path | not executed | RewriterProperties.StripPatternsAsWritten, RewriterProperties.ReboundPatternCounterexample | Rewriter.StripPatterns, RewriterProperties.StripPatternsAppliesMatching |
