/** `get_no_split_classes`: the class names of the modules a DFloat11 pattern
    matches, which the device-map inference must not split across devices. */
module Placement {
  import opened Basics
  import opened Rewriter

  /** `named_modules()` as dotted path and class name, in traversal order. */
  type NamedModule = (string, string)

  /** `if c not in acc: acc.append(c)`. */
  function AddNew(acc: seq<string>, c: string): (r: seq<string>)
    ensures Distinct(acc) ==> Distinct(r)
    ensures forall x :: x in r <==> x in acc || x == c
    ensures |acc| <= |r|
    ensures r[..|acc|] == acc
  {
    if c in acc then acc else acc + [c]
  }

  /** The first occurrence of each element, in order of first occurrence. */
  function Dedup(xs: seq<string>): seq<string>
    decreases |xs|
  {
    if xs == [] then [] else AddNew(Dedup(xs[..|xs| - 1]), xs[|xs| - 1])
  }

  /** The class names of the modules pattern `pat` full-matches, in module
      order, duplicates included. */
  function Hits(pat: string, ms: seq<NamedModule>, matches: Matcher): seq<string>
    decreases |ms|
  {
    if ms == [] then []
    else
      var last := ms[|ms| - 1];
      Hits(pat, ms[..|ms| - 1], matches) + (if matches(pat, last.0) then [last.1] else [])
  }

  /** All hits, pattern after pattern: what the nested loop visits. */
  function Candidates(pats: seq<Pattern>, ms: seq<NamedModule>, matches: Matcher): seq<string>
    decreases |pats|
  {
    if pats == [] then [] else Candidates(pats[..|pats| - 1], ms, matches) + Hits(pats[|pats| - 1].0, ms, matches)
  }

  lemma {:induction false} DedupDistinct(xs: seq<string>)
    ensures Distinct(Dedup(xs))
    decreases |xs|
  {
    if xs != [] {
      DedupDistinct(xs[..|xs| - 1]);
    }
  }

  lemma {:induction false} DedupMembers(xs: seq<string>)
    ensures forall c :: c in Dedup(xs) <==> c in xs
    decreases |xs|
  {
    if xs != [] {
      var init := xs[..|xs| - 1];
      DedupMembers(init);
      assert xs == init + [xs[|xs| - 1]];
    }
  }

  /** Removing duplicates from a list that has none changes nothing. */
  lemma {:induction false} DedupOfDistinct(xs: seq<string>)
    requires Distinct(xs)
    ensures Dedup(xs) == xs
    decreases |xs|
  {
    if xs != [] {
      var init, last := xs[..|xs| - 1], xs[|xs| - 1];
      assert Distinct(init) by {
        forall i, j | 0 <= i < j < |init|
          ensures init[i] != init[j]
        {
          assert init[i] == xs[i] && init[j] == xs[j];
        }
      }
      DedupOfDistinct(init);
      assert last !in init by {
        forall i | 0 <= i < |init|
          ensures init[i] != last
        {
          assert init[i] == xs[i];
        }
      }
      assert Dedup(xs) == AddNew(init, last);
      assert init + [last] == xs;
    }
  }

  lemma {:induction false} HitsMembers(pat: string, ms: seq<NamedModule>, matches: Matcher)
    ensures forall c :: c in Hits(pat, ms, matches) <==>
      exists j :: 0 <= j < |ms| && matches(pat, ms[j].0) && ms[j].1 == c
    decreases |ms|
  {
    if ms != [] {
      var init := ms[..|ms| - 1];
      HitsMembers(pat, init, matches);
      forall c | c in Hits(pat, ms, matches)
        ensures exists j :: 0 <= j < |ms| && matches(pat, ms[j].0) && ms[j].1 == c
      {
        if c in Hits(pat, init, matches) {
          var j :| 0 <= j < |init| && matches(pat, init[j].0) && init[j].1 == c;
          assert ms[j] == init[j];
        } else {
          assert matches(pat, ms[|ms| - 1].0) && ms[|ms| - 1].1 == c;
        }
      }
      forall c | exists j :: 0 <= j < |ms| && matches(pat, ms[j].0) && ms[j].1 == c
        ensures c in Hits(pat, ms, matches)
      {
        var j :| 0 <= j < |ms| && matches(pat, ms[j].0) && ms[j].1 == c;
        if j < |init| {
          assert init[j] == ms[j];
        }
      }
    }
  }

  lemma {:induction false} CandidatesMembers(pats: seq<Pattern>, ms: seq<NamedModule>, matches: Matcher)
    ensures forall c :: c in Candidates(pats, ms, matches) <==>
      exists i, j :: 0 <= i < |pats| && 0 <= j < |ms| && matches(pats[i].0, ms[j].0) && ms[j].1 == c
    decreases |pats|
  {
    if pats != [] {
      var init, last := pats[..|pats| - 1], pats[|pats| - 1];
      CandidatesMembers(init, ms, matches);
      HitsMembers(last.0, ms, matches);
      forall c | c in Candidates(pats, ms, matches)
        ensures exists i, j :: 0 <= i < |pats| && 0 <= j < |ms| && matches(pats[i].0, ms[j].0) && ms[j].1 == c
      {
        if c in Candidates(init, ms, matches) {
          var i, j :| 0 <= i < |init| && 0 <= j < |ms| && matches(init[i].0, ms[j].0) && ms[j].1 == c;
          assert pats[i] == init[i];
        } else {
          var j :| 0 <= j < |ms| && matches(last.0, ms[j].0) && ms[j].1 == c;
          assert pats[|pats| - 1] == last;
        }
      }
      forall c | exists i, j :: 0 <= i < |pats| && 0 <= j < |ms| && matches(pats[i].0, ms[j].0) && ms[j].1 == c
        ensures c in Candidates(pats, ms, matches)
      {
        var i, j :| 0 <= i < |pats| && 0 <= j < |ms| && matches(pats[i].0, ms[j].0) && ms[j].1 == c;
        if i < |init| {
          assert init[i] == pats[i];
        }
      }
    }
  }

  /** The list the loop builds has no duplicates and holds exactly the class
      names of the modules whose path full-matches some pattern. */
  lemma NoSplitClassesMembers(pats: seq<Pattern>, ms: seq<NamedModule>, matches: Matcher)
    ensures Distinct(Dedup(Candidates(pats, ms, matches)))
    ensures forall c :: c in Dedup(Candidates(pats, ms, matches)) <==>
      exists i, j :: 0 <= i < |pats| && 0 <= j < |ms| && matches(pats[i].0, ms[j].0) && ms[j].1 == c
  {
    DedupDistinct(Candidates(pats, ms, matches));
    DedupMembers(Candidates(pats, ms, matches));
    CandidatesMembers(pats, ms, matches);
  }

  lemma DedupSnoc(xs: seq<string>, c: string)
    ensures Dedup(xs + [c]) == AddNew(Dedup(xs), c)
  {
    assert (xs + [c])[..|xs|] == xs && (xs + [c])[|xs|] == c;
  }

  /** One step of the inner loop: the visited hits grow by module `j`'s class
      name when the pattern matches it. */
  lemma HitsStep(pat: string, ms: seq<NamedModule>, j: nat, matches: Matcher)
    requires j < |ms|
    ensures Hits(pat, ms[..j + 1], matches)
      == Hits(pat, ms[..j], matches) + (if matches(pat, ms[j].0) then [ms[j].1] else [])
  {
    var prefix := ms[..j + 1];
    assert prefix[..|prefix| - 1] == ms[..j] && prefix[|prefix| - 1] == ms[j];
  }

  /** One step of the outer loop. */
  lemma CandidatesStep(pats: seq<Pattern>, i: nat, ms: seq<NamedModule>, matches: Matcher)
    requires i < |pats|
    ensures Candidates(pats[..i + 1], ms, matches) == Candidates(pats[..i], ms, matches) + Hits(pats[i].0, ms, matches)
  {
    assert pats[..i + 1][..i] == pats[..i] && pats[..i + 1][i] == pats[i];
  }

  /** `get_no_split_classes(model, pattern_dict)`: patterns outer, modules
      inner, a class name appended only when it is not yet in the list. */
  method NoSplitClasses(pats: seq<Pattern>, ms: seq<NamedModule>, matches: Matcher) returns (classes: seq<string>)
    ensures classes == Dedup(Candidates(pats, ms, matches))
    ensures Distinct(classes)
    ensures forall c :: c in classes <==>
      exists i, j :: 0 <= i < |pats| && 0 <= j < |ms| && matches(pats[i].0, ms[j].0) && ms[j].1 == c
  {
    classes := [];
    var i := 0;
    while i < |pats|
      invariant 0 <= i <= |pats|
      invariant classes == Dedup(Candidates(pats[..i], ms, matches))
    {
      var j := 0;
      assert ms[..0] == [] && Candidates(pats[..i], ms, matches) + [] == Candidates(pats[..i], ms, matches);
      while j < |ms|
        invariant 0 <= j <= |ms|
        invariant classes == Dedup(Candidates(pats[..i], ms, matches) + Hits(pats[i].0, ms[..j], matches))
      {
        var done, hits := Candidates(pats[..i], ms, matches), Hits(pats[i].0, ms[..j], matches);
        HitsStep(pats[i].0, ms, j, matches);
        if matches(pats[i].0, ms[j].0) {
          assert done + (hits + [ms[j].1]) == (done + hits) + [ms[j].1];
          DedupSnoc(done + hits, ms[j].1);
          classes := AddNew(classes, ms[j].1);
        } else {
          assert hits + [] == hits;
        }
        j := j + 1;
      }
      assert ms[..j] == ms;
      CandidatesStep(pats, i, ms, matches);
      i := i + 1;
    }
    assert pats[..i] == pats;
    NoSplitClassesMembers(pats, ms, matches);
  }
}
