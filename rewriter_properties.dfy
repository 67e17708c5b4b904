/** What one attachment step does to the module tree, proved about the
    rewriter's specification functions. */
module RewriterProperties {
  import opened Wrappers
  import opened Names
  import opened Tensors
  import opened Launch
  import opened ModuleTree
  import opened Rewriter

  predicate IsStrictPrefix(a: Path, b: Path) {
    |a| < |b| && b[..|a|] == a
  }

  /** `b` is `a` with at most its `weight` parameter removed and its
      `weight_injection_modules` list replaced. */
  predicate WeightOnlyRemoved(a: Node, b: Node) {
    && (b.params == a.params || b.params == a.params - {WEIGHT})
    && b == a.(params := b.params, injection := b.injection)
  }

  /** `u` differs from `t` only by removed weights, on `mod` and on modules
      below it, and by `mod`'s own injection list. */
  predicate Rewired(t: Tree, u: Tree, mod: Path) {
    && u.Keys == t.Keys
    && (forall p :: p in t ==> WeightOnlyRemoved(t[p], u[p]))
    && (forall p :: p in t && p != mod ==> u[p].injection == t[p].injection)
    && (forall p :: p in t && p != mod && !IsStrictPrefix(mod, p) ==> u[p] == t[p])
  }

  lemma RewiredTrans(t1: Tree, t2: Tree, t3: Tree, mod: Path)
    requires Rewired(t1, t2, mod) && Rewired(t2, t3, mod)
    ensures Rewired(t1, t3, mod)
  {
    forall p | p in t1
      ensures WeightOnlyRemoved(t1[p], t3[p])
    {
      assert t1[p].params - {WEIGHT} - {WEIGHT} == t1[p].params - {WEIGHT};
    }
  }

  /** The walk only descends: a module it reaches is `base` extended by the walked parts. */
  lemma {:induction false} ResolveDescends(t: Tree, base: Path, parts: seq<string>)
    requires base in t
    ensures Resolve(t, base, parts).Some? ==> Resolve(t, base, parts).value == base + parts
    decreases |parts|
  {
    if parts != [] && base + [parts[0]] in t {
      ResolveDescends(t, base + [parts[0]], parts[1..]);
      assert base + [parts[0]] + parts[1..] == base + parts;
    }
  }

  lemma StripWeightRewired(t: Tree, p: Path, mod: Path)
    requires p in t && (p == mod || IsStrictPrefix(mod, p))
    ensures Rewired(t, StripWeight(t, p).0, mod)
  {
  }

  /** The sub-layers an attribute list names, relative to `mod`. */
  function Targets(mod: Path, attrs: seq<string>): (r: seq<Path>)
    ensures |r| == |attrs|
    ensures forall i :: 0 <= i < |attrs| ==> r[i] == mod + Split(attrs[i])
  {
    seq(|attrs|, i requires 0 <= i < |attrs| => mod + Split(attrs[i]))
  }

  /** Injecting into a group touches only the group module and the sub-layers
      below it. */
  lemma {:induction false} InjectTargetsRewired(t: Tree, mod: Path, attrs: seq<string>)
    requires mod in t
    ensures Rewired(t, InjectTargets(t, mod, attrs).0, mod)
    decreases |attrs|
  {
    if attrs != [] {
      ResolveDescends(t, mod, Split(attrs[0]));
      var found := Resolve(t, mod, Split(attrs[0]));
      if found.Some? {
        var target := found.value;
        assert target[..|mod|] == mod;
        var s := StripWeight(t, target);
        StripWeightRewired(t, target, mod);
        if s.1.None? {
          var t1 := s.0[mod := s.0[mod].(injection := Some(Injected(s.0[mod]) + [target]))];
          assert Rewired(s.0, t1, mod);
          RewiredTrans(t, s.0, t1, mod);
          InjectTargetsRewired(t1, mod, attrs[1..]);
          RewiredTrans(t, t1, InjectTargets(t1, mod, attrs[1..]).0, mod);
        }
      }
    }
  }

  /** A removed weight stays removed. */
  lemma InjectTargetsKeepsRemoved(t: Tree, mod: Path, attrs: seq<string>, p: Path)
    requires mod in t && p in t && WEIGHT !in t[p].params
    ensures p in InjectTargets(t, mod, attrs).0 && WEIGHT !in InjectTargets(t, mod, attrs).0[p].params
  {
    InjectTargetsRewired(t, mod, attrs);
  }

  /** The first step of the injection loop, when it succeeds. */
  lemma InjectTargetsStep(t: Tree, mod: Path, attrs: seq<string>) returns (target: Path, t1: Tree)
    requires mod in t && attrs != []
    requires InjectTargets(t, mod, attrs).1.None?
    ensures target == mod + Split(attrs[0]) && target in t && t1.Keys == t.Keys
    ensures WEIGHT !in t1[target].params
    ensures t1[mod].injection == Some(Injected(t[mod]) + [target])
    ensures InjectTargets(t, mod, attrs) == InjectTargets(t1, mod, attrs[1..])
  {
    ResolveDescends(t, mod, Split(attrs[0]));
    target := Resolve(t, mod, Split(attrs[0])).value;
    var s := StripWeight(t, target);
    t1 := s.0[mod := s.0[mod].(injection := Some(Injected(s.0[mod]) + [target]))];
    assert target != mod by {
      assert |target| > |mod|;
    }
  }

  lemma TargetsCons(mod: Path, attrs: seq<string>, before: seq<Path>)
    requires attrs != []
    ensures (before + [mod + Split(attrs[0])]) + Targets(mod, attrs[1..]) == before + Targets(mod, attrs)
  {
    var rest := Targets(mod, attrs[1..]);
    assert Targets(mod, attrs) == [mod + Split(attrs[0])] + rest by {
      forall i | 1 <= i < |attrs|
        ensures Targets(mod, attrs)[i] == rest[i - 1]
      {
        assert attrs[1..][i - 1] == attrs[i];
      }
    }
  }

  /** On success the listed sub-layers are appended, in order, to the
      injection list. */
  lemma {:induction false} InjectTargetsAppends(t: Tree, mod: Path, attrs: seq<string>)
    requires mod in t && t[mod].injection.Some?
    requires InjectTargets(t, mod, attrs).1.None?
    ensures InjectTargets(t, mod, attrs).0[mod].injection == Some(t[mod].injection.value + Targets(mod, attrs))
    decreases |attrs|
  {
    if attrs == [] {
      assert Targets(mod, attrs) == [];
      assert t[mod].injection.value + [] == t[mod].injection.value;
    } else {
      var target, t1 := InjectTargetsStep(t, mod, attrs);
      InjectTargetsAppends(t1, mod, attrs[1..]);
      TargetsCons(mod, attrs, t[mod].injection.value);
    }
  }

  /** On success every listed sub-layer was found and has lost its native
      weight. */
  lemma {:induction false} InjectTargetsStrips(t: Tree, mod: Path, attrs: seq<string>)
    requires mod in t
    requires InjectTargets(t, mod, attrs).1.None?
    ensures forall i :: 0 <= i < |attrs| ==>
      mod + Split(attrs[i]) in t && WEIGHT !in InjectTargets(t, mod, attrs).0[mod + Split(attrs[i])].params
    decreases |attrs|
  {
    if attrs != [] {
      var target, t1 := InjectTargetsStep(t, mod, attrs);
      InjectTargetsStrips(t1, mod, attrs[1..]);
      InjectTargetsKeepsRemoved(t1, mod, attrs[1..], target);
      forall i | 1 <= i < |attrs|
        ensures mod + Split(attrs[i]) == mod + Split(attrs[1..][i - 1])
      {
        assert attrs[1..][i - 1] == attrs[i];
      }
    }
  }

  /** On success every listed sub-layer was found, has lost its native weight,
      and was appended, in order, to the injection list. */
  lemma InjectTargetsSuccess(t: Tree, mod: Path, attrs: seq<string>)
    requires mod in t && t[mod].injection.Some?
    requires InjectTargets(t, mod, attrs).1.None?
    ensures var u := InjectTargets(t, mod, attrs).0;
      && u[mod].injection == Some(t[mod].injection.value + Targets(mod, attrs))
      && forall i :: 0 <= i < |attrs| ==> mod + Split(attrs[i]) in t && WEIGHT !in u[mod + Split(attrs[i])].params
  {
    InjectTargetsAppends(t, mod, attrs);
    InjectTargetsStrips(t, mod, attrs);
  }

  lemma StripOneRewired(t: Tree, mod: Path, attrs: seq<string>)
    requires mod in t
    ensures Rewired(t, StripOne(t, mod, attrs).0, mod)
  {
    if t[mod].kind.Composite? {
      var t0 := t[mod := t[mod].(injection := Some([]))];
      assert Rewired(t, t0, mod);
      InjectTargetsRewired(t0, mod, attrs);
      RewiredTrans(t, t0, StripOne(t, mod, attrs).0, mod);
    } else {
      StripWeightRewired(t, mod, mod);
    }
  }

  /** One matching pattern: a Linear or Embedding layer loses its own weight
      (failing when it has none); any other module's injection list becomes
      exactly the listed sub-layers, each without its native weight. */
  lemma StripOneEffect(t: Tree, mod: Path, attrs: seq<string>)
    requires mod in t
    ensures var (u, f) := StripOne(t, mod, attrs);
      && (t[mod].kind.Composite? && f.None? ==>
            && u[mod].injection == Some(Targets(mod, attrs))
            && forall i :: 0 <= i < |attrs| ==> mod + Split(attrs[i]) in t && WEIGHT !in u[mod + Split(attrs[i])].params)
      && (!t[mod].kind.Composite? ==> (f.None? <==> WEIGHT in t[mod].params) && WEIGHT !in u[mod].params)
  {
    if t[mod].kind.Composite? && StripOne(t, mod, attrs).1.None? {
      var t0 := t[mod := t[mod].(injection := Some([]))];
      InjectTargetsSuccess(t0, mod, attrs);
      assert [] + Targets(mod, attrs) == Targets(mod, attrs);
    }
  }

  lemma {:induction false} StripPatternsRewired(t: Tree, mod: Path, pats: seq<Pattern>, matches: Matcher)
    requires mod in t
    ensures Rewired(t, StripPatterns(t, mod, pats, matches).0, mod)
    decreases |pats|
  {
    if pats == [] {
    } else if matches(pats[0].0, Join(mod)) {
      var s := StripOne(t, mod, pats[0].1);
      StripOneRewired(t, mod, pats[0].1);
      if s.1.None? {
        StripPatternsRewired(s.0, mod, pats[1..], matches);
        RewiredTrans(t, s.0, StripPatterns(s.0, mod, pats[1..], matches).0, mod);
      }
    } else {
      StripPatternsRewired(t, mod, pats[1..], matches);
    }
  }

  /** The patterns of `pats` that full-match `path`, in dictionary order. */
  function Matching(pats: seq<Pattern>, path: string, matches: Matcher): (r: seq<Pattern>)
    ensures forall q :: q in r ==> q in pats && matches(q.0, path)
    decreases |pats|
  {
    if pats == [] then []
    else (if matches(pats[0].0, path) then [pats[0]] else []) + Matching(pats[1..], path, matches)
  }

  /** Apply every pattern of a list, in order, stopping at the first exception. */
  function StripEach(t: Tree, mod: Path, pats: seq<Pattern>): (r: Outcome)
    requires mod in t
    ensures r.0.Keys == t.Keys
    decreases |pats|
  {
    if pats == [] then (t, None)
    else
      var s := StripOne(t, mod, pats[0].1);
      if s.1.Some? then s else StripEach(s.0, mod, pats[1..])
  }

  /** The pattern loop applies exactly the patterns that full-match the
      module's own dotted path, in order (the corrected reading of the loop;
      see `StripPatternsAsWritten`). */
  lemma {:induction false} StripPatternsAppliesMatching(t: Tree, mod: Path, pats: seq<Pattern>, matches: Matcher)
    requires mod in t
    ensures StripPatterns(t, mod, pats, matches) == StripEach(t, mod, Matching(pats, Join(mod), matches))
    decreases |pats|
  {
    if pats != [] {
      var path := Join(mod);
      var rest := Matching(pats[1..], path, matches);
      if matches(pats[0].0, path) {
        var s := StripOne(t, mod, pats[0].1);
        assert Matching(pats, path, matches) == [pats[0]] + rest;
        assert ([pats[0]] + rest)[1..] == rest;
        if s.1.None? {
          StripPatternsAppliesMatching(s.0, mod, pats[1..], matches);
        }
      } else {
        assert Matching(pats, path, matches) == rest;
        StripPatternsAppliesMatching(t, mod, pats[1..], matches);
      }
    }
  }

  /** Weight-target exclusivity: when exactly one pattern matches a module
      that is neither Linear nor Embedding, its injection list is exactly that
      pattern's sub-layers, each of which has lost its native weight. */
  lemma SingleMatchInjection(t: Tree, mod: Path, pats: seq<Pattern>, matches: Matcher, pat: Pattern)
    requires mod in t && t[mod].kind.Composite?
    requires Matching(pats, Join(mod), matches) == [pat]
    requires StripPatterns(t, mod, pats, matches).1.None?
    ensures var u := StripPatterns(t, mod, pats, matches).0;
      && u[mod].injection == Some(Targets(mod, pat.1))
      && forall i :: 0 <= i < |pat.1| ==> mod + Split(pat.1[i]) in t && WEIGHT !in u[mod + Split(pat.1[i])].params
  {
    StripPatternsAppliesMatching(t, mod, pats, matches);
    assert StripEach(t, mod, [pat]) == StripOne(t, mod, pat.1);
    StripOneEffect(t, mod, pat.1);
  }

  /** No matching pattern: only the module's hook count and buffers change
      when its `encoded_exponent` is attached. */
  lemma NoMatchNoStrip(t: Tree, mod: Path, pats: seq<Pattern>, matches: Matcher)
    requires mod in t
    requires Matching(pats, Join(mod), matches) == []
    ensures StripPatterns(t, mod, pats, matches) == (t, None)
  {
    StripPatternsAppliesMatching(t, mod, pats, matches);
  }

  /** The text the source's pattern loop matches the next pattern against:
      the inner loop over attribute paths rebinds the variable holding the
      tensor name's parts, so after a group module with a non-empty attribute
      list, the text is the dotted prefix of the LAST attribute path. */
  function ReboundText(kind: Kind, attrs: seq<string>, text: string): string {
    if kind.Composite? && attrs != [] then Join(DropLast(Split(attrs[|attrs| - 1]))) else text
  }

  /** The pattern loop as written: the text matched is threaded through the
      loop and rebound after every applied group pattern. */
  function StripPatternsAsWritten(t: Tree, mod: Path, pats: seq<Pattern>, text: string, matches: Matcher): (r: Outcome)
    requires mod in t
    ensures r.0.Keys == t.Keys
    decreases |pats|
  {
    if pats == [] then (t, None)
    else if matches(pats[0].0, text) then
      var s := StripOne(t, mod, pats[0].1);
      if s.1.Some? then s
      else StripPatternsAsWritten(s.0, mod, pats[1..], ReboundText(t[mod].kind, pats[0].1, text), matches)
    else StripPatternsAsWritten(t, mod, pats[1..], text, matches)
  }

  /** A four-module example: group module `m` with a Linear sub-layer `m.a.b`. */
  function ExampleTree(): Tree {
    var empty := Node("", Composite, map[], map[], None, 0, None, None, None);
    var w := Tensor(BF16, [1, 1], [0], BufferPool.Cpu);
    map[
      [] := empty.(className := "Model"),
      ["m"] := empty.(className := "Block"),
      ["m", "a"] := empty.(className := "Sub"),
      ["m", "a", "b"] := empty.(className := "Linear", kind := Linear(1, 1), params := map[WEIGHT := w])
    ]
  }

  /** Pattern "P" matches the path "m" and injects into "a.b"; pattern "Q"
      matches only the path "a". */
  function ExampleMatcher(): Matcher {
    (pattern: string, path: string) => (pattern == "P" && path == "m") || (pattern == "Q" && path == "a")
  }

  /** The sub-layer path "a.b" resolves below `m` in the example tree, and
      in any tree with the same modules. */
  lemma ExampleResolves(t: Tree)
    requires t.Keys == ExampleTree().Keys
    ensures Split("a.b") == ["a", "b"]
    ensures Resolve(t, ["m"], Split("a.b")) == Some(["m", "a", "b"])
  {
    SplitDotFree("b");
    SplitDotJoin("a", "b");
    assert "a.b" == "a" + "." + "b";
    assert ["m"] + ["a"] == ["m", "a"];
    assert ["m", "a"] + ["b"] == ["m", "a", "b"];
    assert ["a", "b"][1..] == ["b"];
  }

  /** Pattern "P" on `m`: the injection list becomes [m.a.b] and the sub-layer
      loses its weight. */
  lemma ExampleFirstPattern()
    ensures var r := StripOne(ExampleTree(), ["m"], ["a.b"]);
      && r.1.None?
      && r.0[["m"]].injection == Some([["m", "a", "b"]])
      && r.0[["m"]].kind.Composite?
      && WEIGHT !in r.0[["m", "a", "b"]].params
  {
    var t := ExampleTree();
    var t0 := t[["m"] := t[["m"]].(injection := Some([]))];
    ExampleResolves(t0);
    var s := StripWeight(t0, ["m", "a", "b"]);
    assert s.1.None?;
    assert ["m", "a", "b"] != ["m"] by { assert |["m", "a", "b"]| != |["m"]|; }
    assert Injected(s.0[["m"]]) == [];
    assert [] + [["m", "a", "b"]] == [["m", "a", "b"]];
    var t1 := s.0[["m"] := s.0[["m"]].(injection := Some(Injected(s.0[["m"]]) + [["m", "a", "b"]]))];
    assert ["a.b"][1..] == [];
    assert InjectTargets(t0, ["m"], ["a.b"]) == InjectTargets(t1, ["m"], []);
  }

  /** As written, pattern "Q" is tested against "a" (the prefix of "a.b")
      instead of "m", matches, and resets the injection list of `m` to empty:
      the sub-layer `m.a.b` has lost its weight and will never receive one.
      Tested against the module path, "Q" does not match and the list keeps
      `m.a.b`. */
  lemma ReboundPatternCounterexample()
    ensures var t, pats := ExampleTree(), [("P", ["a.b"]), ("Q", [])];
      && StripPatternsAsWritten(t, ["m"], pats, Join(["m"]), ExampleMatcher()).0[["m"]].injection == Some([])
      && StripPatterns(t, ["m"], pats, ExampleMatcher()).0[["m"]].injection == Some([["m", "a", "b"]])
      && WEIGHT !in StripPatternsAsWritten(t, ["m"], pats, Join(["m"]), ExampleMatcher()).0[["m", "a", "b"]].params
  {
    var t, pats, m := ExampleTree(), [("P", ["a.b"]), ("Q", [])], ExampleMatcher();
    ExampleFirstPattern();
    ExampleResolves(t);
    var afterP := StripOne(t, ["m"], ["a.b"]);
    assert ReboundText(t[["m"]].kind, ["a.b"], "m") == "a" by {
      assert DropLast(["a", "b"]) == ["a"];
    }
    assert Join(["m"]) == "m";
    assert StripPatternsAsWritten(t, ["m"], pats, "m", m)
        == StripPatternsAsWritten(afterP.0, ["m"], pats[1..], "a", m);
    assert pats[1..] == [("Q", [])];
    assert StripPatterns(t, ["m"], pats, m) == StripPatterns(afterP.0, ["m"], pats[1..], m);
  }
}
