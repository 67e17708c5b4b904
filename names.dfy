/** Dotted names: Python's `str.split('.')` and `'.'.join(...)` on module paths
    and tensor names. */
module Names {

  /** True when a path component holds no dot (torch refuses dots in the names
      of sub-modules, parameters and buffers). */
  predicate DotFree(s: string) {
    '.' !in s
  }

  /** `s.split('.')`: never empty; "" splits to [""], and every piece is dot-free. */
  function Split(s: string): (parts: seq<string>)
    ensures |parts| >= 1
    ensures forall i :: 0 <= i < |parts| ==> DotFree(parts[i])
  {
    if s == [] then [""]
    else
      var rest := Split(s[1..]);
      if s[0] == '.' then [""] + rest
      else [[s[0]] + rest[0]] + rest[1..]
  }

  /** `'.'.join(parts)`; the join of no parts is the empty string. */
  function Join(parts: seq<string>): string {
    if |parts| == 0 then ""
    else if |parts| == 1 then parts[0]
    else parts[0] + "." + Join(parts[1..])
  }

  /** All parts but the last: Python's `parts[:-1]`. */
  function DropLast<T>(parts: seq<T>): seq<T> {
    if |parts| == 0 then [] else parts[..|parts| - 1]
  }

  /** `s.endswith(suffix)`. */
  predicate EndsWith(s: string, suffix: string) {
    |suffix| <= |s| && s[|s| - |suffix|..] == suffix
  }

  /** Splitting then joining gives back the original name. */
  lemma {:induction false} JoinSplit(s: string)
    ensures Join(Split(s)) == s
  {
    if s != [] {
      var rest := Split(s[1..]);
      JoinSplit(s[1..]);
      if s[0] == '.' {
        assert Split(s) == [""] + rest;
        assert Join(Split(s)) == "" + "." + Join(rest);
      } else {
        var head := [s[0]] + rest[0];
        assert Split(s) == [head] + rest[1..];
        if |rest| == 1 {
          assert Join(Split(s)) == head;
          assert Join(rest) == rest[0];
        } else {
          assert Join(Split(s)) == head + "." + Join(rest[1..]);
          assert Join(rest) == rest[0] + "." + Join(rest[1..]);
        }
        assert s == [s[0]] + s[1..];
      }
    }
  }

  lemma {:induction false} SplitPrepend(c: char, s: string)
    requires c != '.'
    ensures Split([c] + s) == [[c] + Split(s)[0]] + Split(s)[1..]
  {
    assert ([c] + s)[1..] == s;
  }

  lemma {:induction false} SplitDotJoin(a: string, s: string)
    requires DotFree(a)
    ensures Split(a + "." + s) == [a] + Split(s)
  {
    if a == [] {
      assert (a + "." + s)[1..] == s;
    } else {
      assert a + "." + s == [a[0]] + (a[1..] + "." + s);
      SplitDotJoin(a[1..], s);
      SplitPrepend(a[0], a[1..] + "." + s);
      assert [a[0]] + a[1..] == a;
    }
  }

  lemma {:induction false} SplitDotFree(a: string)
    requires DotFree(a)
    ensures Split(a) == [a]
  {
    if a != [] {
      SplitDotFree(a[1..]);
      SplitPrepend(a[0], a[1..]);
      assert [a[0]] + a[1..] == a;
    }
  }

  /** Joining dot-free components then splitting gives the components back:
      a dotted name determines its module path uniquely. */
  lemma {:induction false} SplitJoin(parts: seq<string>)
    requires |parts| >= 1
    requires forall i :: 0 <= i < |parts| ==> DotFree(parts[i])
    ensures Split(Join(parts)) == parts
  {
    if |parts| == 1 {
      SplitDotFree(parts[0]);
    } else {
      SplitJoin(parts[1..]);
      SplitDotJoin(parts[0], Join(parts[1..]));
      assert [parts[0]] + parts[1..] == parts;
    }
  }
}
