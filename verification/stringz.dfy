/**
  A model of package stringz (stringz.go): helpers over strings and
  slices of strings. A Go string is modelled as a `string` (a sequence of
  characters) and a Go `[]string` as a `seq<string>`. This covers Go strings
  that are valid UTF-8: UTF-8 is a prefix code, so for them the byte-wise
  equality, prefix and suffix tests of Go agree with the character-wise
  tests here. Byte strings that are not valid UTF-8, and trimming that cuts
  a multi-byte character in half, are not represented.
 */
module Stringz {

  // ---------------------------------------------------------------------
  // Vocabulary for the specifications
  // ---------------------------------------------------------------------

  /** The set of values that occur in a slice. */
  ghost function Elements(s: seq<string>): set<string>
  {
    set x | x in s
  }

  /** No value occurs twice in `s`. */
  ghost predicate Distinct(s: seq<string>)
  {
    forall i, j :: 0 <= i < j < |s| ==> s[i] != s[j]
  }

  /** `ys` is an acceptable result of deduplicating `xs`: every value of `xs`
      exactly once, nothing else, in any order. */
  ghost predicate IsDedupOf(ys: seq<string>, xs: seq<string>)
  {
    Distinct(ys) && Elements(ys) == Elements(xs)
  }

  /** A slice has at most as many distinct values as it has elements, and
      exactly as many precisely when no value repeats. */
  lemma {:induction false} CardElements(s: seq<string>)
    ensures |Elements(s)| <= |s|
    ensures |Elements(s)| == |s| <==> Distinct(s)
  {
    if s != [] {
      var t := s[1..];
      CardElements(t);
      assert Elements(s) == {s[0]} + Elements(t);
      if s[0] in t {
        var k :| 0 <= k < |t| && t[k] == s[0];
        assert s[0] == s[k + 1];
        assert Elements(s) == Elements(t);
      } else {
        assert s[0] !in Elements(t);
        assert |Elements(s)| == |Elements(t)| + 1;
        if Distinct(t) {
          forall i, j | 0 <= i < j < |s| ensures s[i] != s[j] {
            if i > 0 {
              assert s[i] == t[i - 1] && s[j] == t[j - 1];
            } else {
              assert s[j] == t[j - 1];
            }
          }
        }
        if Distinct(s) {
          forall i, j | 0 <= i < j < |t| ensures t[i] != t[j] {
            assert t[i] == s[i + 1] && t[j] == s[j + 1];
          }
        }
      }
    }
  }

  /** In a slice without repeats every value occurs once or not at all. */
  lemma {:induction false} DistinctMultiplicity(s: seq<string>, x: string)
    requires Distinct(s)
    ensures multiset(s)[x] == if x in s then 1 else 0
  {
    if s != [] {
      var t := s[1..];
      assert s == [s[0]] + t;
      assert Distinct(t) by {
        forall i, j | 0 <= i < j < |t| ensures t[i] != t[j] {
          assert t[i] == s[i + 1] && t[j] == s[j + 1];
        }
      }
      assert s[0] !in t by {
        forall k | 0 <= k < |t| ensures t[k] != s[0] {
          assert t[k] == s[k + 1];
        }
      }
      DistinctMultiplicity(t, x);
      assert multiset(s) == multiset{s[0]} + multiset(t);
    }
  }

  // ---------------------------------------------------------------------
  // Contains (stringz.go:21-30)
  // ---------------------------------------------------------------------

  /** Scans `ys` front to back and stops at the first element equal to `x`.
      In particular an empty slice contains nothing. */
  method Contains(ys: seq<string>, x: string) returns (found: bool)
    ensures found <==> x in ys
    // The same fact by index, in the terms of the `range` loop that scans ys.
    ensures found <==> exists i :: 0 <= i < |ys| && ys[i] == x
  {
    for i := 0 to |ys|
      invariant forall k :: 0 <= k < i ==> ys[k] != x
    {
      if x == ys[i] {
        return true;
      }
    }
    return false;
  }

  // ---------------------------------------------------------------------
  // Dedup (stringz.go:32-45)
  // ---------------------------------------------------------------------

  /** Collects the values of `xs` into a set, then copies the set out into a
      fresh slice. A Go map is iterated in no specified order; the second
      loop therefore picks the next value with `:|`, so the contract below
      holds for every order the runtime might choose and fixes none. */
  method Dedup(xs: seq<string>) returns (ys: seq<string>)
    ensures IsDedupOf(ys, xs)
    // IsDedupOf spelled out as membership, the way callers of Dedup test it.
    ensures forall x :: x in ys <==> x in xs
    ensures |ys| == |Elements(xs)| <= |xs|
    ensures xs == [] ==> ys == []
  {
    // First loop: xsSet[x] = struct{}{} for every x.
    var xsSet: set<string> := {};
    for i := 0 to |xs|
      invariant xsSet == Elements(xs[..i])
    {
      assert xs[..i + 1] == xs[..i] + [xs[i]];
      xsSet := xsSet + {xs[i]};
    }
    assert xs[..|xs|] == xs;

    // Second loop: append every key of the map, each exactly once.
    ys := [];
    var rest := xsSet;
    while rest != {}
      invariant rest !! Elements(ys)
      invariant rest + Elements(ys) == xsSet
      invariant Distinct(ys)
      decreases rest
    {
      var x :| x in rest;
      ys := ys + [x];
      rest := rest - {x};
    }
    assert Elements(ys) == Elements(xs);
    forall x ensures x in ys <==> x in xs {
      assert x in ys <==> x in Elements(ys);
      assert x in xs <==> x in Elements(xs);
    }
    CardElements(ys);
    CardElements(xs);
  }

  /** Deduplication fixes the multiset of its result: whatever order two runs
      pick, they return permutations of each other. */
  lemma DedupUpToOrder(xs: seq<string>, ys: seq<string>, zs: seq<string>)
    requires IsDedupOf(ys, xs) && IsDedupOf(zs, xs)
    ensures multiset(ys) == multiset(zs)
  {
    forall x ensures multiset(ys)[x] == multiset(zs)[x] {
      DistinctMultiplicity(ys, x);
      DistinctMultiplicity(zs, x);
      assert x in ys <==> x in Elements(ys);
      assert x in zs <==> x in Elements(zs);
    }
  }

  /** Deduplicating a result of Dedup again yields the same values, each once,
      and a permutation of that result: Dedup is idempotent up to order. */
  lemma DedupIdempotent(xs: seq<string>, ys: seq<string>, zs: seq<string>)
    requires IsDedupOf(ys, xs) && IsDedupOf(zs, ys)
    ensures IsDedupOf(zs, xs)
    ensures multiset(zs) == multiset(ys)
  {
    DedupUpToOrder(ys, ys, zs);
  }

  /** The table cases of TestDedup: an empty slice gives an empty slice, a
      single value or a doubled value gives that value once. */
  lemma DedupExamples(ys0: seq<string>, ys1: seq<string>, ys2: seq<string>)
    requires IsDedupOf(ys0, [])
    requires IsDedupOf(ys1, ["x"])
    requires IsDedupOf(ys2, ["x", "x"])
    ensures ys0 == [] && ys1 == ["x"] && ys2 == ["x"]
  {
    CardElements(ys0);
    CardElements(ys1);
    CardElements(ys2);
    assert Elements(["x", "x"]) == {"x"};
    assert Elements(["x"]) == {"x"};
    assert ys1[0] in Elements(ys1);
    assert ys2[0] in Elements(ys2);
  }

  // ---------------------------------------------------------------------
  // Default (stringz.go:47-57)
  // ---------------------------------------------------------------------

  /** Returns `fallback` as soon as one of `zeroValues` equals `val`, and `val`
      when none does; with no zero values at all it is always `val`. */
  method Default(val: string, fallback: string, zeroValues: seq<string>) returns (r: string)
    ensures val in zeroValues ==> r == fallback
    ensures val !in zeroValues ==> r == val
    ensures zeroValues == [] ==> r == val
  {
    for i := 0 to |zeroValues|
      invariant forall k :: 0 <= k < i ==> zeroValues[k] != val
    {
      if val == zeroValues[i] {
        return fallback;
      }
    }
    return val;
  }

  // ---------------------------------------------------------------------
  // TrimSurrounding (stringz.go:59-64)
  // ---------------------------------------------------------------------

  /** Go's strings.HasPrefix. */
  predicate HasPrefix(s: string, prefix: string)
  {
    |prefix| <= |s| && s[..|prefix|] == prefix
  }

  /** Go's strings.HasSuffix. */
  predicate HasSuffix(s: string, suffix: string)
  {
    |suffix| <= |s| && s[|s| - |suffix|..] == suffix
  }

  /** Go's strings.TrimPrefix: drops one leading copy of `prefix`, if any. */
  function TrimPrefix(s: string, prefix: string): (r: string)
    ensures HasPrefix(s, prefix) ==> prefix + r == s
    ensures !HasPrefix(s, prefix) ==> r == s
  {
    if HasPrefix(s, prefix) then s[|prefix|..] else s
  }

  /** Go's strings.TrimSuffix: drops one trailing copy of `suffix`, if any. */
  function TrimSuffix(s: string, suffix: string): (r: string)
    ensures HasSuffix(s, suffix) ==> r + suffix == s
    ensures !HasSuffix(s, suffix) ==> r == s
  {
    if HasSuffix(s, suffix) then s[..|s| - |suffix|] else s
  }

  /** Removes one leading copy of `surrounding`, then one trailing copy from
      what is left. The four cases pin the result down: what is removed is
      exactly the copies that were present, and the result is a contiguous
      piece of `s`. */
  function TrimSurrounding(s: string, surrounding: string): (r: string)
    ensures (HasPrefix(s, surrounding) && HasSuffix(s[|surrounding|..], surrounding)) ==>
      surrounding + r + surrounding == s
    ensures (HasPrefix(s, surrounding) && !HasSuffix(s[|surrounding|..], surrounding)) ==>
      surrounding + r == s
    ensures (!HasPrefix(s, surrounding) && HasSuffix(s, surrounding)) ==>
      r + surrounding == s
    ensures (!HasPrefix(s, surrounding) && !HasSuffix(s, surrounding)) ==>
      r == s
    ensures exists i, j :: 0 <= i <= j <= |s| && r == s[i..j]
  {
    var s' := TrimPrefix(s, surrounding);
    var t := TrimSuffix(s', surrounding);
    assert s' == s[|s| - |s'|..];
    assert t == s'[..|t|];
    assert t == s[|s| - |s'|..|s| - |s'| + |t|];
    t
  }

  /** An empty `surrounding` trims nothing. The second clause is the first
      row of TestTrimSurrounding's table, an empty string staying empty. */
  lemma TrimSurroundingEmpty(s: string)
    ensures TrimSurrounding(s, "") == s
    ensures TrimSurrounding("", "") == ""
  {
  }

  /** TrimSurrounding undoes wrapping a string in `surrounding` on both
      sides. */
  lemma TrimSurroundingInverse(t: string, surrounding: string)
    ensures TrimSurrounding(surrounding + t + surrounding, surrounding) == t
  {
  }

  /** The documented example: a quoted text loses its quotes. */
  lemma TrimSurroundingQuoted()
    ensures TrimSurrounding("\"quoted text\"", "\"") == "quoted text"
  {
  }

  /** Stripping is not repeated: of a doubly quoted text only the outer
      quotes go, and a lone quote used up as the prefix is not also taken as
      the suffix. */
  lemma TrimSurroundingOnce()
    ensures TrimSurrounding("\"\"x\"\"", "\"") == "\"x\""
    ensures TrimSurrounding("\"", "\"") == ""
  {
  }
}
