/**
 * The few `str` operations the modelled code relies on: `split` on one
 * character, `join`, `startswith`/`endswith`, `in`, the first occurrence of a
 * substring, and `replace`. Strings are `seq<char>`.
 */
module Strings {
  import opened Wrappers

  /** Python's `s.split(c)` for a one-character separator: never empty. */
  function Split(s: string, c: char): (parts: seq<string>)
    ensures |parts| >= 1
    decreases |s|
  {
    if s == [] then [""]
    else
      var rest := Split(s[1..], c);
      if s[0] == c then [""] + rest
      else [[s[0]] + rest[0]] + rest[1..]
  }

  /** Python's `sep.join(parts)`. */
  function Join(sep: string, parts: seq<string>): string
    decreases |parts|
  {
    if parts == [] then ""
    else if |parts| == 1 then parts[0]
    else parts[0] + sep + Join(sep, parts[1..])
  }

  /** Number of occurrences of the character `c`, as `s.count(c)`. */
  function CountChar(s: string, c: char): nat
    decreases |s|
  {
    if s == [] then 0 else (if s[0] == c then 1 else 0) + CountChar(s[1..], c)
  }

  lemma {:induction false} JoinCons(sep: string, p: string, parts: seq<string>)
    requires parts != []
    ensures Join(sep, [p] + parts) == p + sep + Join(sep, parts)
  {
    assert ([p] + parts)[1..] == parts;
  }

  /** Joining one more part appends the separator and the part. */
  lemma {:induction false} JoinSnoc(sep: string, parts: seq<string>, last: string)
    requires parts != []
    ensures Join(sep, parts + [last]) == Join(sep, parts) + sep + last
    decreases |parts|
  {
    if |parts| == 1 {
      assert parts + [last] == [parts[0], last];
    } else {
      assert (parts + [last])[1..] == parts[1..] + [last];
      JoinSnoc(sep, parts[1..], last);
    }
  }

  /** Splitting and joining with the same character is the identity. */
  lemma {:induction false} JoinSplit(s: string, c: char)
    ensures Join([c], Split(s, c)) == s
    decreases |s|
  {
    if s != [] {
      var rest := Split(s[1..], c);
      JoinSplit(s[1..], c);
      if s[0] == c {
        JoinCons([c], "", rest);
        assert s == [s[0]] + s[1..];
      } else if |rest| == 1 {
        assert s == [s[0]] + s[1..];
      } else {
        assert rest == [rest[0]] + rest[1..];
        JoinCons([c], rest[0], rest[1..]);
        JoinCons([c], [s[0]] + rest[0], rest[1..]);
        assert s == [s[0]] + s[1..];
      }
    }
  }

  /** Split yields one more part than there are separators, none holding one. */
  lemma {:induction false} SplitParts(s: string, c: char)
    ensures |Split(s, c)| == CountChar(s, c) + 1
    ensures forall k :: 0 <= k < |Split(s, c)| ==> c !in Split(s, c)[k]
    decreases |s|
  {
    if s != [] {
      SplitParts(s[1..], c);
      var rest := Split(s[1..], c);
      if s[0] != c {
        var parts := Split(s, c);
        forall k | 0 <= k < |parts| ensures c !in parts[k] {
          if k == 0 {
            assert parts[0] == [s[0]] + rest[0];
          } else {
            assert parts[k] == rest[k];
          }
        }
      }
    }
  }

  /** Splitting a join of separator-free parts gives the parts back. */
  lemma {:induction false} SplitJoin(parts: seq<string>, c: char)
    requires |parts| >= 1
    requires forall k :: 0 <= k < |parts| ==> c !in parts[k]
    ensures Split(Join([c], parts), c) == parts
    decreases |parts|
  {
    if |parts| == 1 {
      SplitNoSep(parts[0], c);
    } else {
      SplitJoin(parts[1..], c);
      assert c !in parts[0];
      SplitAppendSep(parts[0], c, Join([c], parts[1..]));
    }
  }

  lemma {:induction false} SplitNoSep(s: string, c: char)
    requires c !in s
    ensures Split(s, c) == [s]
    decreases |s|
  {
    if s != [] {
      SplitNoSep(s[1..], c);
      assert s == [s[0]] + s[1..];
    }
  }

  lemma {:induction false} SplitAppendSep(p: string, c: char, t: string)
    requires c !in p
    ensures Split(p + [c] + t, c) == [p] + Split(t, c)
    decreases |p|
  {
    if p == [] {
      assert p + [c] + t == [c] + t;
      assert ([c] + t)[1..] == t;
    } else {
      assert (p + [c] + t)[1..] == p[1..] + [c] + t;
      SplitAppendSep(p[1..], c, t);
      assert p == [p[0]] + p[1..];
    }
  }

  predicate StartsWith(s: string, prefix: string) {
    |prefix| <= |s| && s[..|prefix|] == prefix
  }

  predicate EndsWith(s: string, suffix: string) {
    |suffix| <= |s| && s[|s| - |suffix|..] == suffix
  }

  /** `pat` occurs in `s` starting at index `i`. */
  predicate OccursAt(s: string, pat: string, i: nat) {
    i + |pat| <= |s| && s[i..i + |pat|] == pat
  }

  /** Python's `pat in s`. */
  predicate Contains(s: string, pat: string) {
    exists i :: 0 <= i <= |s| && OccursAt(s, pat, i)
  }

  /** The first index at or after `from` where `pat` occurs, as `s.find(pat, from)`. */
  function FindFrom(s: string, pat: string, from: nat): (r: Option<nat>)
    requires from <= |s|
    ensures r.Some? ==> from <= r.value <= |s| && OccursAt(s, pat, r.value)
    ensures r.Some? ==> forall i :: from <= i < r.value ==> !OccursAt(s, pat, i)
    ensures r.None? ==> forall i :: from <= i <= |s| ==> !OccursAt(s, pat, i)
    decreases |s| - from
  {
    if OccursAt(s, pat, from) then Some(from)
    else if from == |s| then None
    else FindFrom(s, pat, from + 1)
  }

  function Find(s: string, pat: string): (r: Option<nat>)
    ensures r.Some? <==> Contains(s, pat)
    ensures r.Some? ==> r.value <= |s| && OccursAt(s, pat, r.value)
    ensures r.Some? ==> forall i :: 0 <= i < r.value ==> !OccursAt(s, pat, i)
  {
    FindFrom(s, pat, 0)
  }

  /** `s.split(pat)[0]`: everything before the first occurrence of `pat`. */
  function BeforeFirst(s: string, pat: string): (r: string)
    ensures StartsWith(s, r)
    ensures !Contains(s, pat) ==> r == s
  {
    match Find(s, pat)
    case Some(i) => s[..i]
    case None => s
  }

  /**
   * Python's `s.replace(pat, repl)`: scan from the left, replacing each
   * non-overlapping occurrence of `pat` (an empty `pat` matches between every
   * two characters and at both ends).
   */
  function ReplaceAll(s: string, pat: string, repl: string): string
    decreases |s|, |pat|
  {
    if pat == [] then
      if s == [] then repl else repl + [s[0]] + ReplaceAll(s[1..], pat, repl)
    else if OccursAt(s, pat, 0) then repl + ReplaceAll(s[|pat|..], pat, repl)
    else if s == [] then []
    else [s[0]] + ReplaceAll(s[1..], pat, repl)
  }

  /** An occurrence after the first `k` characters is an occurrence in what follows them. */
  lemma OccursShift(s: string, pat: string, k: nat, i: nat)
    requires k <= |s|
    ensures OccursAt(s, pat, i + k) <==> OccursAt(s[k..], pat, i)
  {
    if i + |pat| <= |s[k..]| {
      assert s[k..][i..i + |pat|] == s[i + k..i + k + |pat|];
    }
  }

  /** Replacing a pattern that never occurs changes nothing. */
  lemma {:induction false} ReplaceAbsent(s: string, pat: string, repl: string)
    requires pat != []
    requires forall i :: 0 <= i <= |s| ==> !OccursAt(s, pat, i)
    ensures ReplaceAll(s, pat, repl) == s
    decreases |s|
  {
    if s != [] {
      assert !OccursAt(s, pat, 0);
      forall i | 0 <= i <= |s[1..]| ensures !OccursAt(s[1..], pat, i) {
        assert !OccursAt(s, pat, i + 1);
        OccursShift(s, pat, 1, i);
      }
      ReplaceAbsent(s[1..], pat, repl);
      assert s == [s[0]] + s[1..];
    }
  }

  /**
   * When the only occurrence of `pat` in `pre + pat + post` is the one between
   * `pre` and `post`, `replace` rewrites exactly that one.
   */
  lemma {:induction false} ReplaceUnique(pre: string, pat: string, post: string, repl: string)
    requires pat != []
    requires forall i :: 0 <= i <= |pre + pat + post| && i != |pre| ==> !OccursAt(pre + pat + post, pat, i)
    ensures ReplaceAll(pre + pat + post, pat, repl) == pre + repl + post
    decreases |pre|
  {
    if pre == [] {
      ReplaceAtStart(pat, post, repl);
    } else {
      var s, pre' := pre + pat + post, pre[1..];
      ReplaceUniqueStep(pre, pat, post);
      ReplaceUnique(pre', pat, post, repl);
      assert ReplaceAll(s, pat, repl) == [s[0]] + ReplaceAll(pre' + pat + post, pat, repl);
      assert pre + repl + post == [pre[0]] + (pre' + repl + post);
    }
  }

  /** An occurrence at the start, and none after it, is the one rewritten. */
  lemma ReplaceAtStart(pat: string, post: string, repl: string)
    requires pat != []
    requires forall i :: 0 < i <= |pat + post| ==> !OccursAt(pat + post, pat, i)
    ensures ReplaceAll(pat + post, pat, repl) == repl + post
  {
    var s := pat + post;
    assert OccursAt(s, pat, 0);
    assert s[|pat|..] == post;
    forall i | 0 <= i <= |post| ensures !OccursAt(post, pat, i) {
      assert !OccursAt(s, pat, i + |pat|);
      OccursShift(s, pat, |pat|, i);
    }
    ReplaceAbsent(post, pat, repl);
  }

  /** Dropping a first character of `pre` keeps the occurrence unique. */
  lemma ReplaceUniqueStep(pre: string, pat: string, post: string)
    requires pat != [] && pre != []
    requires forall i :: 0 <= i <= |pre + pat + post| && i != |pre| ==> !OccursAt(pre + pat + post, pat, i)
    ensures !OccursAt(pre + pat + post, pat, 0)
    ensures (pre + pat + post)[1..] == pre[1..] + pat + post
    ensures forall i :: 0 <= i <= |pre[1..] + pat + post| && i != |pre[1..]| ==> !OccursAt(pre[1..] + pat + post, pat, i)
  {
    var s, pre' := pre + pat + post, pre[1..];
    assert s[1..] == pre' + pat + post;
    forall i | 0 <= i <= |pre' + pat + post| && i != |pre'| ensures !OccursAt(pre' + pat + post, pat, i) {
      assert !OccursAt(s, pat, i + 1);
      OccursShift(s, pat, 1, i);
    }
  }
}
