/**
 * Sequence helpers shared by the models: duplicate-freedom, the order-preserving
 * de-duplication that several passes perform with a `seen` set, and removal of
 * the first occurrence (Python's `list.remove`).
 */
module Seqs {

  /** The elements of `s`, as Python's `set(s)`. */
  function Elems<T>(s: seq<T>): set<T> {
    set x | x in s
  }

  /** No element occurs twice. */
  predicate NoDups<T(==)>(s: seq<T>) {
    forall i, j :: 0 <= i < j < |s| ==> s[i] != s[j]
  }

  /**
   * De-duplication as the source writes it: walk the list, skip what is in
   * `seen`, keep the rest and add it to `seen`.
   */
  function DedupFrom<T>(s: seq<T>, seen: set<T>): seq<T>
    decreases |s|
  {
    if s == [] then []
    else if s[0] in seen then DedupFrom(s[1..], seen)
    else [s[0]] + DedupFrom(s[1..], seen + {s[0]})
  }

  function Dedup<T(==)>(s: seq<T>): seq<T> {
    DedupFrom(s, {})
  }

  /**
   * Reference definition: the elements of `s` that do not occur earlier in `s`,
   * in their order of first occurrence.
   */
  function FirstOccurrences<T(==)>(s: seq<T>): seq<T>
    decreases |s|
  {
    if s == [] then []
    else
      var init := s[..|s| - 1];
      FirstOccurrences(init) + (if s[|s| - 1] in init then [] else [s[|s| - 1]])
  }

  lemma {:induction false} DedupFromSnoc<T>(s: seq<T>, seen: set<T>, x: T)
    ensures DedupFrom(s + [x], seen)
         == DedupFrom(s, seen) + (if x in seen || x in s then [] else [x])
    decreases |s|
  {
    if s == [] {
      assert s + [x] == [x];
    } else {
      assert (s + [x])[0] == s[0];
      assert (s + [x])[1..] == s[1..] + [x];
      if s[0] in seen {
        DedupFromSnoc(s[1..], seen, x);
      } else {
        DedupFromSnoc(s[1..], seen + {s[0]}, x);
      }
    }
  }

  /** De-duplication keeps exactly the first occurrences, in order. */
  lemma {:induction false} DedupIsFirstOccurrences<T>(s: seq<T>)
    ensures Dedup(s) == FirstOccurrences(s)
    decreases |s|
  {
    if s != [] {
      var init := s[..|s| - 1];
      InitLast(s);
      DedupIsFirstOccurrences(init);
      DedupFromSnoc(init, {}, s[|s| - 1]);
    }
  }

  lemma {:induction false} DedupFromProps<T>(s: seq<T>, seen: set<T>)
    ensures NoDups(DedupFrom(s, seen))
    ensures Elems(DedupFrom(s, seen)) == Elems(s) - seen
    decreases |s|
  {
    if s != [] {
      if s[0] in seen {
        DedupFromProps(s[1..], seen);
        assert Elems(s) == {s[0]} + Elems(s[1..]) by {
          assert s == [s[0]] + s[1..];
        }
      } else {
        var rest := DedupFrom(s[1..], seen + {s[0]});
        DedupFromProps(s[1..], seen + {s[0]});
        assert s[0] !in Elems(rest);
        assert Elems(s) == {s[0]} + Elems(s[1..]) by {
          assert s == [s[0]] + s[1..];
        }
        NoDupsCons(s[0], rest);
        assert Elems([s[0]] + rest) == {s[0]} + Elems(rest);
      }
    }
  }

  /** De-duplication yields every element of the input, each exactly once. */
  lemma DedupProps<T>(s: seq<T>)
    ensures NoDups(Dedup(s))
    ensures Elems(Dedup(s)) == Elems(s)
  {
    DedupFromProps(s, {});
  }

  /** A prefix one longer is the prefix and the next element. */
  lemma TakeSnoc<T>(s: seq<T>, i: nat)
    requires i < |s|
    ensures s[..i + 1] == s[..i] + [s[i]]
  {
  }

  /** A non-empty sequence is its prefix and its last element. */
  lemma InitLast<T>(s: seq<T>)
    requires s != []
    ensures s == s[..|s| - 1] + [s[|s| - 1]]
  {
  }

  lemma DedupFromCons<T>(s: seq<T>, seen: set<T>)
    requires s != []
    ensures DedupFrom(s, seen)
         == if s[0] in seen then DedupFrom(s[1..], seen) else [s[0]] + DedupFrom(s[1..], seen + {s[0]})
  {
  }

  /** Appending an element not yet present keeps a list duplicate-free. */
  lemma NoDupsSnoc<T>(s: seq<T>, x: T)
    requires NoDups(s) && x !in s
    ensures NoDups(s + [x])
  {
  }

  /** A prefix of a prefix is a prefix. */
  lemma TakeTake<T>(s: seq<T>, i: nat, j: nat)
    requires j <= i <= |s|
    ensures s[..i][..j] == s[..j]
  {
  }

  /** The first element of `[h] + x` is followed at once by `x`. */
  lemma HeadFollowed<T>(r: seq<T>, h: T, x: seq<T>)
    requires r == [h] + x
    ensures r[0] == h && 1 + |x| <= |r| && r[1..1 + |x|] == x
  {
    assert r[1..1 + |x|] == r[1..];
  }

  /** An index of `a + b` past `a` is an index of `b`. */
  lemma IndexRight<T>(r: seq<T>, a: seq<T>, b: seq<T>, j: nat)
    requires r == a + b && |a| <= j < |r|
    ensures j - |a| < |b| && r[j] == b[j - |a|]
  {
  }

  /**
   * In `r == a + b`, an element of `a` followed at once by `x` within `a`
   * is followed at once by `x` within `r`.
   */
  lemma FollowedLeft<T>(r: seq<T>, a: seq<T>, b: seq<T>, j: nat, x: seq<T>)
    requires r == a + b && j + 1 + |x| <= |a| && a[j + 1..j + 1 + |x|] == x
    ensures r[j] == a[j] && j + 1 + |x| <= |r| && r[j + 1..j + 1 + |x|] == x
  {
    assert r[j + 1..j + 1 + |x|] == a[j + 1..j + 1 + |x|];
  }

  /**
   * In `r == a + b`, an element of `b` followed at once by `x` within `b`
   * is followed at once by `x` within `r`.
   */
  lemma FollowedRight<T>(r: seq<T>, a: seq<T>, b: seq<T>, k: nat, j: nat, x: seq<T>)
    requires r == a + b && j == |a| + k && k + 1 + |x| <= |b| && b[k + 1..k + 1 + |x|] == x
    ensures r[j] == b[k] && j + 1 + |x| <= |r| && r[j + 1..j + 1 + |x|] == x
  {
    assert r[j + 1..j + 1 + |x|] == b[k + 1..k + 1 + |x|];
  }

  /** Concatenation is associative. */
  lemma ConcatAssoc<T>(a: seq<T>, b: seq<T>, c: seq<T>)
    ensures (a + b) + c == a + (b + c)
  {
  }

  /** The prefix as long as the sequence is the sequence. */
  lemma TakeAll<T>(s: seq<T>)
    ensures s[..|s|] == s
  {
  }

  /** The parts of a sequence made of three. */
  lemma ThreeParts<T>(pre: seq<T>, mid: seq<T>, post: seq<T>)
    ensures var r := pre + mid + post;
            |r| == |pre| + |mid| + |post|
            && r[..|pre|] == pre && r[|pre| + |mid|..] == post
            && (forall i :: 0 <= i < |pre| ==> r[i] == pre[i])
            && (forall i :: |pre| <= i < |pre| + |mid| ==> r[i] == mid[i - |pre|])
            && forall i :: |pre| + |mid| <= i < |r| ==> r[i] == post[i - |pre| - |mid|]
  {
  }

  /** Two appended parts commute when one of them is empty. */
  lemma SwapEmpty<T>(a: seq<T>, b: seq<T>, c: seq<T>)
    requires b == [] || c == []
    ensures (a + b) + c == (a + c) + b
  {
    if b == [] {
      assert a + b == a;
      assert (a + c) + b == a + c;
    } else {
      assert a + c == a;
      assert (a + b) + c == a + b;
    }
  }

  lemma ElemsSnoc<T>(s: seq<T>, x: T)
    ensures Elems(s + [x]) == Elems(s) + {x}
  {
  }

  /**
   * The loop the source writes for de-duplication: a `seen` set and a result
   * list, appending each element the first time it is met.
   */
  method DedupLoop<T(==)>(s: seq<T>) returns (result: seq<T>)
    ensures result == FirstOccurrences(s)
    ensures NoDups(result) && Elems(result) == Elems(s)
  {
    var seen: set<T> := {};
    result := [];
    var i := 0;
    while i < |s|
      invariant 0 <= i <= |s|
      invariant seen == Elems(result)
      invariant result + DedupFrom(s[i..], seen) == Dedup(s)
    {
      var x := s[i];
      DedupFromCons(s[i..], seen);
      assert s[i..][1..] == s[i + 1..];
      if x !in seen {
        ghost var rest := DedupFrom(s[i + 1..], seen + {x});
        assert result + ([x] + rest) == (result + [x]) + rest;
        ElemsSnoc(result, x);
        seen := seen + {x};
        result := result + [x];
      }
      i := i + 1;
    }
    assert s[i..] == [];
    DedupIsFirstOccurrences(s);
    DedupProps(s);
  }

  /** Python's `list.remove(x)`: drop the first occurrence of `x`. */
  function RemoveFirst<T(==)>(s: seq<T>, x: T): (r: seq<T>)
    requires x in s
    ensures |r| == |s| - 1
    ensures multiset(r) == multiset(s) - multiset{x}
  {
    if s[0] == x then
      assert s == [s[0]] + s[1..];
      s[1..]
    else
      assert s == [s[0]] + s[1..];
      [s[0]] + RemoveFirst(s[1..], x)
  }

  /** On a duplicate-free list, `remove` leaves exactly the other elements. */
  lemma {:induction false} RemoveFirstNoDups<T>(s: seq<T>, x: T)
    requires x in s && NoDups(s)
    ensures NoDups(RemoveFirst(s, x))
    ensures Elems(RemoveFirst(s, x)) == Elems(s) - {x}
    decreases |s|
  {
    NoDupsTail(s);
    assert Elems(s) == {s[0]} + Elems(s[1..]) by {
      assert s == [s[0]] + s[1..];
    }
    if s[0] != x {
      RemoveFirstNoDups(s[1..], x);
      var t := RemoveFirst(s[1..], x);
      assert s[0] !in Elems(t);
      NoDupsCons(s[0], t);
      assert Elems([s[0]] + t) == {s[0]} + Elems(t);
    }
  }

  lemma NoDupsTail<T>(s: seq<T>)
    requires NoDups(s) && s != []
    ensures NoDups(s[1..]) && s[0] !in s[1..]
  {
    forall i, j | 0 <= i < j < |s[1..]| ensures s[1..][i] != s[1..][j] {
      assert s[1..][i] == s[i + 1] && s[1..][j] == s[j + 1];
    }
    forall k | 0 <= k < |s[1..]| ensures s[1..][k] != s[0] {
      assert s[1..][k] == s[k + 1];
    }
  }

  lemma NoDupsCons<T>(a: T, t: seq<T>)
    requires NoDups(t) && a !in t
    ensures NoDups([a] + t)
  {
    var r := [a] + t;
    forall i, j | 0 <= i < j < |r| ensures r[i] != r[j] {
      assert r[j] == t[j - 1];
      if i > 0 {
        assert r[i] == t[i - 1];
      }
    }
  }
}
