/** Sequence helpers shared by the window stack and the tree projection:
    the optional value, distinctness, and the two lookups the C# code gets
    from List<T> (IndexOf and Remove). */
module Seqs {

  datatype Option<+T> = None | Some(value: T)

  /** No element occurs twice: the last one is not among the others, which
      have no duplicates either. Stated recursively so that only the lemmas
      below spell out what it means pairwise. */
  ghost predicate NoDup<T>(s: seq<T>)
    decreases |s|
  {
    s == [] || (s[|s| - 1] !in s[..|s| - 1] && NoDup(s[..|s| - 1]))
  }

  /** NoDup means that no two indexes hold the same element. */
  lemma {:induction false} NoDupIndexes<T>(s: seq<T>)
    ensures NoDup(s) <==> forall i, j | 0 <= i < j < |s| :: s[i] != s[j]
    decreases |s|
  {
    if s != [] {
      var init := s[..|s| - 1];
      NoDupIndexes(init);
      if NoDup(s) {
        forall i, j | 0 <= i < j < |s| ensures s[i] != s[j] {
          if j == |s| - 1 {
            assert s[i] == init[i];
          } else {
            assert s[i] == init[i] && s[j] == init[j];
          }
        }
      }
      if forall i, j | 0 <= i < j < |s| :: s[i] != s[j] {
        forall i, j | 0 <= i < j < |init| ensures init[i] != init[j] {
          assert init[i] == s[i] && init[j] == s[j];
        }
        forall i | 0 <= i < |init| ensures init[i] != s[|s| - 1] {
          assert init[i] == s[i];
        }
      }
    }
  }

  /** A concatenation has no duplicates exactly when both parts have none
      and they share no element. */
  lemma NoDupConcat<T>(a: seq<T>, b: seq<T>)
    ensures NoDup(a + b) <==> NoDup(a) && NoDup(b) && (forall x | x in a :: x !in b)
  {
    NoDupIndexes(a);
    NoDupIndexes(b);
    NoDupIndexes(a + b);
    if NoDup(a + b) {
      forall i, j | 0 <= i < j < |a| ensures a[i] != a[j] {
        assert a[i] == (a + b)[i] && a[j] == (a + b)[j];
      }
      forall i, j | 0 <= i < j < |b| ensures b[i] != b[j] {
        assert b[i] == (a + b)[|a| + i] && b[j] == (a + b)[|a| + j];
      }
      forall x | x in a ensures x !in b {
        var i :| 0 <= i < |a| && a[i] == x;
        forall j | 0 <= j < |b| ensures b[j] != x {
          assert (a + b)[i] == a[i] && (a + b)[|a| + j] == b[j];
        }
      }
    }
    if NoDup(a) && NoDup(b) && (forall x | x in a :: x !in b) {
      forall i, j | 0 <= i < j < |a + b| ensures (a + b)[i] != (a + b)[j] {
        if j < |a| {
          assert (a + b)[i] == a[i] && (a + b)[j] == a[j];
        } else if i >= |a| {
          assert (a + b)[i] == b[i - |a|] && (a + b)[j] == b[j - |a|];
        } else {
          assert (a + b)[i] == a[i] && (a + b)[j] == b[j - |a|] && a[i] in a;
        }
      }
    }
  }

  /** In a sequence without duplicates every element occurs once. */
  lemma {:induction false} NoDupOnce<T>(s: seq<T>, x: T)
    requires NoDup(s)
    ensures multiset(s)[x] <= 1
  {
    if s != [] {
      var init := s[..|s| - 1];
      assert s == init + [s[|s| - 1]];
      NoDupOnce(init, x);
    }
  }

  /** A sequence in which nothing occurs twice has no duplicates. */
  lemma OnceNoDup<T>(s: seq<T>)
    requires forall x | x in s :: multiset(s)[x] <= 1
    ensures NoDup(s)
  {
    NoDupIndexes(s);
    forall i, j | 0 <= i < j < |s| ensures s[i] != s[j] {
      assert s == s[..j] + [s[j]] + s[j + 1..];
      assert s[i] in s[..j];
      assert multiset(s)[s[j]] >= multiset(s[..j])[s[j]] + 1;
    }
  }

  /** When a's elements are those of b and c together, x is in a exactly
      when it is in b or in c. */
  lemma InSum<T>(a: seq<T>, b: seq<T>, c: seq<T>, x: T)
    requires multiset(a) == multiset(b) + multiset(c)
    ensures x in a <==> x in b || x in c
  {
    assert x in a <==> x in multiset(a);
    assert x in b <==> x in multiset(b);
    assert x in c <==> x in multiset(c);
  }

  /** Taking away B and then x is taking away B with x added. */
  lemma MinusStep<T>(a: multiset<T>, b: multiset<T>, x: T)
    ensures a - b - multiset{x} == a - (b + multiset{x})
  {
  }

  /** List<T>.IndexOf: the index of the first occurrence of x, or -1. */
  function IndexOf<T(==)>(s: seq<T>, x: T): (r: int)
    ensures -1 <= r < |s|
    ensures r == -1 <==> x !in s
    ensures 0 <= r ==> s[r] == x && x !in s[..r]
  {
    if |s| == 0 then -1
    else if s[0] == x then 0
    else
      var k := IndexOf(s[1..], x);
      if k < 0 then -1
      else
        assert s[..k + 1] == [s[0]] + s[1..][..k];
        k + 1
  }

  /** List<T>.Remove: drops the first occurrence of x; no change when x is absent. */
  function RemoveFirst<T(==)>(s: seq<T>, x: T): (r: seq<T>)
    ensures x !in s ==> r == s
    ensures x in s ==> |r| == |s| - 1
    ensures multiset(r) == multiset(s) - multiset{x}
  {
    var k := IndexOf(s, x);
    if k < 0 then s
    else
      assert s == s[..k] + [s[k]] + s[k + 1..];
      s[..k] + s[k + 1..]
  }

  /** Removing y from a sequence without duplicates leaves one without
      duplicates that holds every other element and not y. */
  lemma RemoveFirstNoDup<T>(s: seq<T>, y: T)
    requires NoDup(s)
    ensures NoDup(RemoveFirst(s, y))
    ensures forall x :: x in RemoveFirst(s, y) <==> x in s && x != y
  {
    var r := RemoveFirst(s, y);
    forall x ensures multiset(r)[x] <= 1 && (x in r <==> x in s && x != y) {
      NoDupOnce(s, x);
      assert x in r <==> x in multiset(r);
      assert x in s <==> x in multiset(s);
    }
    OnceNoDup(r);
  }

  /** Removing an element appended to a sequence that lacks it gives the
      sequence back. */
  lemma RemoveFirstAppend<T>(s: seq<T>, y: T)
    requires y !in s
    ensures RemoveFirst(s + [y], y) == s
  {
    assert (s + [y])[..|s|] == s;
  }

  /** Removing the first element gives the rest. */
  lemma RemoveFirstFront<T>(s: seq<T>)
    requires s != []
    ensures RemoveFirst(s, s[0]) == s[1..]
  {
    assert IndexOf(s, s[0]) == 0;
  }

  /** Removing anything but the first element keeps the first element first. */
  lemma RemoveFirstKeepsFront<T>(s: seq<T>, y: T)
    requires s != [] && s[0] != y
    ensures RemoveFirst(s, y) != [] && RemoveFirst(s, y)[0] == s[0]
  {
  }

  /** The sequence without its element at index i (List<T>.RemoveAt). */
  function RemoveAt<T>(s: seq<T>, i: nat): (r: seq<T>)
    requires i < |s|
    ensures |r| == |s| - 1
  {
    s[..i] + s[i + 1..]
  }

  /** The entry at index k after RemoveAt: entries after i move up by one. */
  lemma RemoveAtIndex<T>(s: seq<T>, i: nat, k: int)
    requires i < |s| && 0 <= k < |s| - 1
    ensures RemoveAt(s, i)[k] == if k < i then s[k] else s[k + 1]
  {
  }

  /** The sequence with x placed at index i (List<T>.Insert). */
  function InsertAt<T>(s: seq<T>, i: nat, x: T): (r: seq<T>)
    requires i <= |s|
    ensures |r| == |s| + 1 && r[i] == x
  {
    s[..i] + [x] + s[i..]
  }

  /** Adding a new key and removing it again gives back the map. */
  lemma MapAddRemove<K, V>(m: map<K, V>, k: K, v: V)
    requires k !in m
    ensures m[k := v] - {k} == m
  {
  }

  /** Inserting at index 0 puts x in front. */
  lemma InsertAtFront<T>(s: seq<T>, x: T)
    ensures InsertAt(s, 0, x) == [x] + s
  {
    assert s[..0] == [] && s[0..] == s;
  }

  /** The entry at index k after InsertAt: entries from i on move down by one. */
  lemma InsertAtIndex<T>(s: seq<T>, i: nat, x: T, k: int)
    requires i <= |s| && 0 <= k < |s| + 1
    ensures InsertAt(s, i, x)[k] == if k < i then s[k] else if k == i then x else s[k - 1]
  {
  }

  /** `ins` placed in `a` at index `at` (List.Insert, one element at a time). */
  function Splice<T>(a: seq<T>, at: int, ins: seq<T>): (r: seq<T>)
    requires 0 <= at <= |a|
    ensures |r| == |a| + |ins|
  {
    a[..at] + ins + a[at..]
  }

  /** `a` without its n entries from index `at` (List.RemoveAt, n times at `at`). */
  function Cut<T>(a: seq<T>, at: int, n: int): (r: seq<T>)
    requires 0 <= at && 0 <= n && at + n <= |a|
    ensures |r| == |a| - n
  {
    a[..at] + a[at + n..]
  }

  /** Cutting out nothing changes nothing. */
  lemma CutNothing<T>(a: seq<T>, at: int)
    requires 0 <= at <= |a|
    ensures Cut(a, at, 0) == a
  {
  }

  /** Cutting out what was spliced in gives back the original sequence. */
  lemma CutUndoesSplice<T>(a: seq<T>, at: int, ins: seq<T>, cutAt: int, n: int)
    requires 0 <= at <= |a| && cutAt == at && n == |ins|
    ensures Cut(Splice(a, at, ins), cutAt, n) == a
  {
    assert a == a[..at] + a[at..];
  }

  /** Splicing in nothing changes nothing. */
  lemma SpliceNothing<T>(a: seq<T>, at: int)
    requires 0 <= at <= |a|
    ensures Splice(a, at, []) == a
  {
    assert a == a[..at] + a[at..];
  }

  /** What a splice keeps and what it puts in. */
  lemma SpliceParts<T>(a: seq<T>, at: int, ins: seq<T>)
    requires 0 <= at <= |a|
    ensures Splice(a, at, ins)[..at] == a[..at]
    ensures Splice(a, at, ins)[at..at + |ins|] == ins
    ensures Splice(a, at, ins)[at + |ins|..] == a[at..]
  {
  }

  /** What follows the inserted run is what followed the insertion point. */
  lemma SpliceTail<T>(a: seq<T>, at: int, ins: seq<T>, f: seq<T>)
    requires 0 <= at <= |a| && f == Splice(a, at, ins)
    ensures f[at + |ins|..] == a[at..]
  {
    SpliceParts(a, at, ins);
  }

  /** The entry at index k after a splice. */
  lemma SpliceIndex<T>(a: seq<T>, at: int, ins: seq<T>, k: int)
    requires 0 <= at <= |a| && 0 <= k < |a| + |ins|
    ensures Splice(a, at, ins)[k] == if k < at then a[k] else if k < at + |ins| then ins[k - at] else a[k - |ins|]
  {
  }

  /** The entry at index k after a cut. */
  lemma CutIndex<T>(a: seq<T>, at: int, n: int, k: int)
    requires 0 <= at && 0 <= n && at + n <= |a| && 0 <= k < |a| - n
    ensures Cut(a, at, n)[k] == if k < at then a[k] else a[k + n]
  {
  }

  /** Splicing adds exactly the inserted elements. */
  lemma SpliceMultiset<T>(a: seq<T>, at: int, ins: seq<T>)
    requires 0 <= at <= |a|
    ensures multiset(Splice(a, at, ins)) == multiset(a) + multiset(ins)
  {
    assert a == a[..at] + a[at..];
  }

  /** Cutting removes exactly the entries in the cut range. */
  lemma CutMultiset<T>(a: seq<T>, at: int, n: int)
    requires 0 <= at && 0 <= n && at + n <= |a|
    ensures multiset(Cut(a, at, n)) + multiset(a[at..at + n]) == multiset(a)
  {
    assert a == a[..at] + a[at..at + n] + a[at + n..];
  }

  /** Splicing `k` into a sequence that already had `a` added to `t` adds
      `a + k` to `t`. */
  lemma SpliceMultisetStep<T>(v: seq<T>, u: seq<T>, t: seq<T>, a: seq<T>, k: seq<T>, p: int)
    requires 0 <= p <= |u| && v == Splice(u, p, k)
    requires multiset(u) == multiset(t) + multiset(a)
    ensures multiset(v) == multiset(t) + multiset(a + k)
  {
    SpliceMultiset(u, p, k);
    assert multiset(a + k) == multiset(a) + multiset(k);
  }

  /** Cutting `k` out of a sequence that had `a` taken from `t` leaves
      `a + k` taken from `t`. */
  lemma CutMultisetStep<T>(v: seq<T>, u: seq<T>, t: seq<T>, a: seq<T>, k: seq<T>, p: int)
    requires 0 <= p && p + |k| <= |u| && u[p..p + |k|] == k && v == Cut(u, p, |k|)
    requires multiset(u) + multiset(a) == multiset(t)
    ensures multiset(v) + multiset(a + k) == multiset(t)
  {
    CutMultiset(u, p, |k|);
    assert multiset(a + k) == multiset(a) + multiset(k);
  }

  /** What a splice holds: the old entries and the inserted ones. */
  lemma InSplice<T>(a: seq<T>, at: int, ins: seq<T>, x: T)
    requires 0 <= at <= |a|
    ensures x in Splice(a, at, ins) <==> x in a || x in ins
  {
    SpliceMultiset(a, at, ins);
    InSum(Splice(a, at, ins), a, ins, x);
  }

  /** A sequence is what precedes a slice, the slice, and what follows. */
  lemma SliceSplit<T>(a: seq<T>, i: int, b: seq<T>)
    requires 0 <= i && i + |b| <= |a| && a[i..i + |b|] == b
    ensures a == a[..i] + b + a[i + |b|..]
  {
    assert a == a[..i] + a[i..i + |b|] + a[i + |b|..];
  }

  /** Cutting out the middle part of a concatenation. */
  lemma CutMiddle<T>(a: seq<T>, b: seq<T>, c: seq<T>)
    ensures Cut(a + b + c, |a|, |b|) == a + c
  {
    assert (a + b + c)[..|a|] == a;
    assert (a + b + c)[|a| + |b|..] == c;
  }

  /** Cutting out the elements removes them: in a sequence without
      duplicates, what was taken out of it is no longer in what is left. */
  lemma CountedOut<T>(a: seq<T>, r: seq<T>, k: seq<T>, x: T)
    requires NoDup(a) && multiset(r) + multiset(k) == multiset(a) && x in k
    ensures x !in r
  {
    NoDupOnce(a, x);
    assert multiset(k)[x] >= 1;
  }

  /** Regrouping a concatenation around the last element of its middle. */
  lemma Regroup<T>(a: seq<T>, bc: seq<T>, b: seq<T>, x: T, k: seq<T>, c: seq<T>)
    requires bc == b + [x] + k
    ensures a + bc + c == a + b + ([x] + k + c)
  {
  }

  /** A middle made of two parts regroups onto the end. */
  lemma Regroup3<T>(p: seq<T>, x: seq<T>, y: seq<T>, q: seq<T>)
    ensures p + (x + y) + q == p + x + (y + q)
  {
  }

  /** Appending an element and a run after two parts regroups onto the second. */
  lemma RegroupTail<T>(p: seq<T>, q: seq<T>, x: T, k: seq<T>)
    ensures p + q + [x] + k == p + (q + [x] + k)
  {
  }

  /** In a, b, x, k, c the element at |a| + |b| is x and k follows it. */
  lemma ConcatParts<T>(u: seq<T>, a: seq<T>, b: seq<T>, x: T, k: seq<T>, c: seq<T>, i: int, j: int)
    requires u == a + b + ([x] + k + c) && i == |a| + |b| && j == i + 1
    ensures 0 <= i && j + |k| <= |u|
    ensures u[i] == x && u[i + 1..i + 1 + |k|] == k && u[j..j + |k|] == k
  {
    assert u == (a + b + [x]) + k + c;
  }

  /** Cutting out the k that follows x leaves x in place. */
  lemma CutAfterHead<T>(u: seq<T>, pre: seq<T>, mid: seq<T>, q: seq<T>, x: T, k: seq<T>, rest: seq<T>, full: seq<T>, p: int)
    requires u == pre + mid + q && q == [x] + k + rest && full == mid + [x] && p == |pre| + |mid| + 1
    ensures Cut(u, p, |k|) == pre + full + rest
  {
    assert u == pre + full + k + rest;
  }

  /** Inserting right after `x` in `a + b + ([x] + c)`. */
  lemma SpliceAfterJoin<T>(u: seq<T>, a: seq<T>, b: seq<T>, x: T, c: seq<T>, p: int, ins: seq<T>)
    requires u == a + b + ([x] + c) && p == |a| + |b| + 1
    ensures 0 <= p <= |u|
    ensures Splice(u, p, ins) == a + (b + [x] + ins) + c
  {
    assert u[..p] == a + b + [x];
    assert u[p..] == c;
  }

  /** The element after `a + b` in `a + b + ([x] + c)` is `x`. */
  lemma JoinAt<T>(u: seq<T>, a: seq<T>, b: seq<T>, x: T, c: seq<T>)
    requires u == a + b + ([x] + c)
    ensures |a| + |b| < |u| && u[|a| + |b|] == x
  {
    assert u == (a + b) + ([x] + c);
  }

  /** Moving the last element of the middle part into the tail. */
  lemma RegroupLast<T>(a: seq<T>, bx: seq<T>, b: seq<T>, x: T, c: seq<T>)
    requires bx == b + [x]
    ensures a + bx + c == a + b + ([x] + c)
  {
  }

  /** An index into the first part of `a + b + c`. */
  lemma PrefixAt<T>(u: seq<T>, a: seq<T>, b: seq<T>, c: seq<T>, i: int)
    requires u == a + b + c && 0 <= i < |a|
    ensures u[i] == a[i]
  {
  }

  /** An index into the first part of `a + b`. */
  lemma HeadAt<T>(u: seq<T>, a: seq<T>, b: seq<T>, i: int)
    requires u == a + b && 0 <= i < |a|
    ensures u[i] == a[i]
  {
  }

  /** The three parts of `a + b + c`, cut at `i` and `j`. */
  lemma ThreeParts<T>(u: seq<T>, a: seq<T>, b: seq<T>, c: seq<T>, i: int, j: int)
    requires u == a + b + c && i == |a| && j == |a| + |b|
    ensures 0 <= i <= j <= |u|
    ensures u[..i] == a && u[i..j] == b && u[j..] == c
  {
  }

  /** What a sequence holds after an insertion. */
  lemma InsertMembers<T>(a: seq<T>, u: seq<T>, b: seq<T>, at: int)
    requires 0 <= at <= |a| && u == a[..at] + b + a[at..]
    ensures forall x | x in u :: x in a || x in b
  {
    assert a == a[..at] + a[at..];
  }

  /** Without duplicates, nothing in a slice appears again after it. */
  lemma NoDupApart<T>(a: seq<T>, i: int, j: int, mid: seq<T>)
    requires NoDup(a) && 0 <= i <= j <= |a| && mid == a[i..j]
    ensures forall x | x in mid :: x !in a[j..]
  {
    NoDupIndexes(a);
    forall x | x in mid ensures x !in a[j..] {
      var k :| i <= k < j && a[k] == x;
      forall m | j <= m < |a| ensures a[m] != x {
      }
    }
  }

  /** Inserting x where a splice began puts x in front of the spliced run. */
  lemma InsertAtSplice<T>(a: seq<T>, at: int, ins: seq<T>, x: T)
    requires 0 <= at <= |a|
    ensures InsertAt(Splice(a, at, ins), at, x) == Splice(a, at, [x] + ins)
  {
    var u := Splice(a, at, ins);
    assert u[..at] == a[..at] && u[at..] == ins + a[at..];
  }

  /** Removing the entry in front of a cut widens the cut by one. */
  lemma RemoveAtCut<T>(a: seq<T>, at: int, n: int)
    requires 0 <= at && 0 <= n && at + 1 + n <= |a|
    ensures RemoveAt(Cut(a, at + 1, n), at) == Cut(a, at, 1 + n)
  {
    var u := Cut(a, at + 1, n);
    assert u[..at] == a[..at] && u[at + 1..] == a[at + 1 + n..];
  }

  /** One more element x of a distinct run of elements absent from `a`,
      spliced reversed into `a` at p: the run without x is distinct and
      absent too, and inserting x at p extends the reversed splice. */
  lemma ReversedRunStep<T>(run: seq<T>, init: seq<T>, x: T, a: seq<T>, p: int)
    requires run == init + [x] && 0 <= p <= |a|
    requires NoDup(run)
    requires forall y | y in run :: y !in a
    ensures NoDup(init)
    ensures forall y | y in init :: y !in a
    ensures x !in Splice(a, p, Reverse(init))
    ensures InsertAt(Splice(a, p, Reverse(init)), p, x) == Splice(a, p, Reverse(run))
    ensures |init| > 0 ==> Splice(a, p, Reverse(init))[p] == init[|init| - 1]
  {
    assert init == run[..|run| - 1] && x == run[|run| - 1];
    assert forall y | y in init :: y in run;
    assert x !in init;
    ReverseMultiset(init);
    assert multiset(Reverse(init))[x] == 0;
    InSplice(a, p, Reverse(init), x);
    InsertAtSplice(a, p, Reverse(init), x);
    assert Reverse(run) == [x] + Reverse(init);
  }

  /** A non-empty sequence is its front followed by its last element. */
  lemma SplitLast<T>(s: seq<T>)
    requires |s| > 0
    ensures s == s[..|s| - 1] + [s[|s| - 1]]
  {
  }

  /** A run of distinct elements, none in `a`, taken from `xs` between lo
      and hi: every prefix of it keeps both properties. */
  lemma RunPrefix<T>(xs: seq<T>, lo: int, i: int, hi: int, a: seq<T>)
    requires 0 <= lo <= i < hi <= |xs|
    requires NoDup(xs[lo..hi]) && forall y | y in xs[lo..hi] :: y !in a
    ensures xs[lo..i + 1] == xs[lo..i] + [xs[i]]
    ensures NoDup(xs[lo..i + 1]) && forall y | y in xs[lo..i + 1] :: y !in a
  {
    assert xs[lo..hi] == xs[lo..i + 1] + xs[i + 1..hi];
    NoDupConcat(xs[lo..i + 1], xs[i + 1..hi]);
    assert xs[lo..i + 1] == xs[lo..i] + [xs[i]];
  }

  /** The elements of `xs` from lo up to (not including) hi, last first. */
  function RevRun<T>(xs: seq<T>, lo: int, hi: int): (r: seq<T>)
    requires 0 <= lo <= hi <= |xs|
    ensures |r| == hi - lo
    decreases hi - lo
  {
    if hi == lo then [] else [xs[hi - 1]] + RevRun(xs, lo, hi - 1)
  }

  /** RevRun is the reverse of the slice. */
  lemma {:induction false} RevRunIsReverse<T>(xs: seq<T>, lo: int, hi: int)
    requires 0 <= lo <= hi <= |xs|
    ensures RevRun(xs, lo, hi) == Reverse(xs[lo..hi])
    decreases hi - lo
  {
    if hi > lo {
      RevRunIsReverse(xs, lo, hi - 1);
      assert xs[lo..hi][..hi - lo - 1] == xs[lo..hi - 1];
    }
  }

  /** Putting the next element of a run of distinct elements, none in `a`,
      at the slot p in front of the elements before it, last first, extends
      the reversed run; the element was not there yet, and the one before it
      sits at the slot. */
  lemma RevRunStep<T>(xs: seq<T>, lo: int, i: int, hi: int, a: seq<T>, p: int)
    requires 0 <= lo <= i < hi <= |xs| && 0 <= p <= |a|
    requires NoDup(xs[lo..hi]) && forall y | y in xs[lo..hi] :: y !in a
    ensures xs[i] !in Splice(a, p, RevRun(xs, lo, i))
    ensures InsertAt(Splice(a, p, RevRun(xs, lo, i)), p, xs[i]) == Splice(a, p, RevRun(xs, lo, i + 1))
    ensures i > lo ==> Splice(a, p, RevRun(xs, lo, i))[p] == xs[i - 1]
  {
    RunPrefix(xs, lo, i, hi, a);
    RevRunIsReverse(xs, lo, i);
    RevRunIsReverse(xs, lo, i + 1);
    ReversedRunStep(xs[lo..i + 1], xs[lo..i], xs[i], a, p);
  }

  /** Reverse of a sequence. */
  function Reverse<T>(s: seq<T>): (r: seq<T>)
    ensures |r| == |s|
  {
    if s == [] then []
    else [s[|s| - 1]] + Reverse(s[..|s| - 1])
  }

  /** Reversing keeps the elements. */
  lemma {:induction false} ReverseMultiset<T>(s: seq<T>)
    ensures multiset(Reverse(s)) == multiset(s)
    decreases |s|
  {
    if s != [] {
      ReverseMultiset(s[..|s| - 1]);
      assert s == s[..|s| - 1] + [s[|s| - 1]];
    }
  }

  // ---------------------------------------------------------------------
  // cached indexes kept in a map (TreeItem.Position)

  /** How far the loop `for (k = from; k < list.Count; k++)
      list[k].Position += d` over the entries t = list[from..] moves the value
      of y: by d once for every time y is listed in t. */
  function Moved<T(==)>(t: seq<T>, y: T, d: int): int
    decreases |t|
  {
    if t == [] then 0
    else Moved(t[..|t| - 1], y, d) + (if t[|t| - 1] == y then d else 0)
  }

  /** The cached values after that loop. */
  function Shift<T>(pos: map<T, int>, t: seq<T>, d: int): (r: map<T, int>)
  {
    map y | y in pos :: pos[y] + Moved(t, y, d)
  }

  /** An entry that is not in t does not move. */
  lemma {:induction false} MovedOut<T>(t: seq<T>, y: T, d: int)
    requires y !in t
    ensures Moved(t, y, d) == 0
    decreases |t|
  {
    if t != [] {
      MovedOut(t[..|t| - 1], y, d);
    }
  }

  /** The loops that rewrite cached values leave the set of entries alone. */
  lemma PositionKeys<T>(pos: map<T, int>, t: seq<T>, d: int)
    ensures Shift(pos, t, d).Keys == pos.Keys
    ensures Place(pos, t, d).Keys == pos.Keys
    ensures Park(pos, t).Keys == pos.Keys
  {
  }

  /** An entry that is not in t keeps its value. */
  lemma ShiftOut<T>(pos: map<T, int>, t: seq<T>, d: int, x: T)
    requires x !in t && x in pos
    ensures Shift(pos, t, d)[x] == pos[x]
  {
    MovedOut(t, x, d);
  }

  /** The last index at which y is listed in cs, or -1. */
  function LastIndexOf<T(==)>(cs: seq<T>, y: T): (r: int)
    ensures -1 <= r < |cs|
    ensures r == -1 <==> y !in cs
    ensures 0 <= r ==> cs[r] == y
    decreases |cs|
  {
    if cs == [] then -1
    else if cs[|cs| - 1] == y then |cs| - 1
    else LastIndexOf(cs[..|cs| - 1], y)
  }

  /** The values base, base + 1, ... given to the entries of cs in order
      (`child.Position = i + index + 1` in a loop over the children): an
      entry listed twice keeps the later value. */
  function Place<T>(pos: map<T, int>, cs: seq<T>, base: int): (r: map<T, int>)
  {
    map y | y in pos :: if y in cs then base + LastIndexOf(cs, y) else pos[y]
  }

  /** What a slice lists, the whole lists. */
  lemma SliceIn<T>(a: seq<T>, i: int, j: int, x: T)
    requires 0 <= i <= j <= |a| && x in a[i..j]
    ensures x in a
  {
    var k :| 0 <= k < j - i && a[i..j][k] == x;
    assert a[i + k] == x;
  }

  /** In distinct cs the entry at index i is listed last at i. */
  lemma {:induction false} LastIndexOfDistinct<T>(cs: seq<T>, i: int)
    requires NoDup(cs) && 0 <= i < |cs|
    ensures LastIndexOf(cs, cs[i]) == i
    decreases |cs|
  {
    if i < |cs| - 1 {
      var init := cs[..|cs| - 1];
      assert cs[i] == init[i];
      LastIndexOfDistinct(init, i);
    }
  }

  /** The value -1 given to every entry of cs (`child.Position = -1` in a
      loop over the children). */
  function Park<T>(pos: map<T, int>, cs: seq<T>): (r: map<T, int>)
  {
    map y | y in pos :: if y in cs then -1 else pos[y]
  }

  /** Every entry of f caches its own index in pos. */
  ghost predicate Indexed<T>(f: seq<T>, pos: map<T, int>) {
    forall j | 0 <= j < |f| :: f[j] in pos && pos[f[j]] == j
  }

  /** An entry of an indexed list lies in its tail from a exactly when its
      index is at least a. */
  lemma IndexedTail<T>(f: seq<T>, pos: map<T, int>, k: int, a: int)
    requires Indexed(f, pos) && 0 <= k < |f| && 0 <= a <= |f|
    ensures f[k] in f[a..] <==> a <= k
  {
    if f[k] in f[a..] {
      var j :| 0 <= j < |f| - a && f[a..][j] == f[k];
      assert pos[f[a + j]] == a + j;
    }
    if a <= k {
      assert f[a..][k - a] == f[k];
    }
  }

  /** An entry of an indexed list lies in its slice from a to b exactly when
      its index is in that range. */
  lemma IndexedSlice<T>(f: seq<T>, pos: map<T, int>, k: int, a: int, b: int)
    requires Indexed(f, pos) && 0 <= k < |f| && 0 <= a <= b <= |f|
    ensures f[k] in f[a..b] <==> a <= k < b
  {
    if f[k] in f[a..b] {
      var j :| 0 <= j < b - a && f[a..b][j] == f[k];
      assert pos[f[a + j]] == a + j;
    }
    if a <= k < b {
      assert f[a..b][k - a] == f[k];
    }
  }

  /** The loop over the tail of an indexed list from a moves exactly the
      entries whose index is at least a, each once. */
  lemma {:induction false} MovedTail<T>(f: seq<T>, base: map<T, int>, a: int, d: int, k: int)
    requires Indexed(f, base) && 0 <= a <= |f| && 0 <= k < |f|
    ensures Moved(f[a..], f[k], d) == if a <= k then d else 0
    decreases |f|
  {
    if a < |f| {
      var g := f[..|f| - 1];
      var t := f[a..];
      assert t[..|t| - 1] == g[a..];
      assert Indexed(g, base);
      if k == |f| - 1 {
        MovedOut(g[a..], f[k], d);
      } else {
        MovedTail(g, base, a, d, k);
      }
    }
  }

  /** What expand does to the cached indexes: the distinct new entries cs,
      placed at `at` and numbered from there, and every entry after them moved
      down by |cs|, leave every entry of the new list caching its index. */
  lemma SplicePositions<T>(f: seq<T>, pos: map<T, int>, cs: seq<T>, at: int, k: int)
    requires Indexed(f, pos) && 0 <= at <= |f|
    requires NoDup(cs) && forall c | c in cs :: c in pos && c !in f
    requires 0 <= k < |f| + |cs|
    ensures Shift(Place(pos, cs, at), f[at..], |cs|)[Splice(f, at, cs)[k]] == k
  {
    if k < at {
      SpliceKeepsBefore(f, pos, cs, at, k);
    } else if k < at + |cs| {
      SplicePlacesChild(f, pos, cs, at, k);
    } else {
      SpliceMovesAfter(f, pos, cs, at, k);
    }
  }

  /** An entry in front of the insertion keeps its index. */
  lemma SpliceKeepsBefore<T>(f: seq<T>, pos: map<T, int>, cs: seq<T>, at: int, k: int)
    requires Indexed(f, pos) && 0 <= k < at <= |f|
    requires forall c | c in cs :: c in pos && c !in f
    ensures Shift(Place(pos, cs, at), f[at..], |cs|)[Splice(f, at, cs)[k]] == k
  {
    var tail := f[at..];
    var x := Splice(f, at, cs)[k];
    SpliceIndex(f, at, cs, k);
    assert f[k] in f;
    IndexedTail(f, pos, k, at);
    ShiftOut(Place(pos, cs, at), tail, |cs|, x);
  }

  /** An inserted entry cs[i] gets at + i. */
  lemma SplicePlacesChild<T>(f: seq<T>, pos: map<T, int>, cs: seq<T>, at: int, k: int)
    requires 0 <= at <= |f| && NoDup(cs) && at <= k < at + |cs|
    requires forall c | c in cs :: c in pos && c !in f
    ensures Shift(Place(pos, cs, at), f[at..], |cs|)[Splice(f, at, cs)[k]] == k
  {
    var tail := f[at..];
    var x := Splice(f, at, cs)[k];
    SpliceIndex(f, at, cs, k);
    assert x == cs[k - at] && x in cs;
    LastIndexOfDistinct(cs, k - at);
    assert Place(pos, cs, at)[x] == k;
    TailOut(f, at, x);
    ShiftOut(Place(pos, cs, at), tail, |cs|, x);
  }

  /** What a list does not hold, its tail does not hold either. */
  lemma TailOut<T>(f: seq<T>, at: int, x: T)
    requires 0 <= at <= |f| && x !in f
    ensures x !in f[at..]
  {
  }

  /** An entry behind the insertion moves down by |cs|. */
  lemma SpliceMovesAfter<T>(f: seq<T>, pos: map<T, int>, cs: seq<T>, at: int, k: int)
    requires Indexed(f, pos) && 0 <= at && at + |cs| <= k < |f| + |cs|
    requires forall c | c in cs :: c in pos && c !in f
    ensures Shift(Place(pos, cs, at), f[at..], |cs|)[Splice(f, at, cs)[k]] == k
  {
    var tail := f[at..];
    SpliceIndex(f, at, cs, k);
    assert f[k - |cs|] in f;
    MovedTail(f, pos, at, |cs|, k - |cs|);
  }

  /** What collapse does to the cached indexes: with the n entries cs from
      `at` parked at -1 and cut out, and every entry after them moved up by n,
      every entry of the new list caches its index. */
  lemma CutPositionsAt<T>(f: seq<T>, pos: map<T, int>, cs: seq<T>, at: int, n: int, k: int)
    requires Indexed(f, pos) && 0 <= at && 0 <= n && at + n <= |f|
    requires cs == f[at..at + n] && forall c | c in cs :: c in pos
    requires 0 <= k < |f| - n
    ensures Shift(Park(pos, cs), f[at + n..], -n)[Cut(f, at, n)[k]] == k
  {
    var u := Cut(f, at, n);
    var parked := Park(pos, cs);
    var tail := f[at + n..];
    CutIndex(f, at, n, k);
    if k < at {
      IndexedSlice(f, pos, k, at, at + n);
      IndexedTail(f, pos, k, at + n);
      ShiftOut(parked, tail, -n, f[k]);
    } else {
      IndexedSlice(f, pos, k + n, at, at + n);
      MovedTail(f, pos, at + n, -n, k + n);
    }
  }

  /** expand's loops leave every entry of the new list caching its index. */
  lemma SpliceIndexed<T>(f: seq<T>, pos: map<T, int>, cs: seq<T>, at: int, u: seq<T>, r: map<T, int>)
    requires Indexed(f, pos) && 0 <= at <= |f|
    requires NoDup(cs) && forall c | c in cs :: c in pos && c !in f
    requires u == Splice(f, at, cs) && r == Shift(Place(pos, cs, at), f[at..], |cs|)
    ensures Indexed(u, r)
  {
    PositionKeys(Place(pos, cs, at), f[at..], |cs|);
    PositionKeys(pos, cs, at);
    forall k | 0 <= k < |u| ensures u[k] in r && r[u[k]] == k {
      SpliceMember(f, pos, cs, at, k);
      SplicePositions(f, pos, cs, at, k);
    }
  }

  /** Every entry of the new list has a cached value. */
  lemma SpliceMember<T>(f: seq<T>, pos: map<T, int>, cs: seq<T>, at: int, k: int)
    requires Indexed(f, pos) && 0 <= at <= |f|
    requires forall c | c in cs :: c in pos
    requires 0 <= k < |f| + |cs|
    ensures Splice(f, at, cs)[k] in pos
  {
    SpliceIndex(f, at, cs, k);
    if k < at {
      assert f[k] in pos;
    } else if k < at + |cs| {
      assert cs[k - at] in cs;
    } else {
      assert f[k - |cs|] in pos;
    }
  }

  /** expand's loops keep the value of every entry that is not listed
      after them where it was. */
  lemma SpliceFrames<T>(f: seq<T>, pos: map<T, int>, cs: seq<T>, at: int, u: seq<T>, r: map<T, int>)
    requires 0 <= at <= |f|
    requires u == Splice(f, at, cs) && r == Shift(Place(pos, cs, at), f[at..], |cs|)
    ensures r.Keys == pos.Keys
    ensures forall id | id in pos && id !in u :: r[id] == pos[id]
  {
    PositionKeys(Place(pos, cs, at), f[at..], |cs|);
    PositionKeys(pos, cs, at);
    forall id | id in pos && id !in u ensures r[id] == pos[id] {
      InSplice(f, at, cs, id);
      assert id !in f[at..];
      ShiftOut(Place(pos, cs, at), f[at..], |cs|, id);
    }
  }

  /** Cutting entries out of a list keeps the entries before the cut, moves
      the first entry after it up to the cut, and takes out only the cut
      entries. */
  lemma CutMembers<T>(f: seq<T>, at: int, n: int)
    requires 0 <= at && 0 <= n && at + n <= |f|
    ensures Cut(f, at, n)[..at] == f[..at]
    ensures at < |Cut(f, at, n)| ==> Cut(f, at, n)[at] == f[at + n]
    ensures forall x | x in Cut(f, at, n) :: x in f
    ensures forall x | x in f && x !in Cut(f, at, n) :: x in f[at..at + n]
  {
    assert f == f[..at] + f[at..at + n] + f[at + n..];
  }

  /** collapse's loops leave every entry of the new list caching its index,
      the entries cut out at -1, and the value of every entry that was not
      listed where it was. */
  lemma CutIndexed<T>(f: seq<T>, pos: map<T, int>, cs: seq<T>, at: int, n: int, u: seq<T>, r: map<T, int>)
    requires Indexed(f, pos) && 0 <= at && 0 <= n && at + n <= |f|
    requires cs == f[at..at + n] && forall c | c in cs :: c in pos
    requires u == Cut(f, at, n) && r == Shift(Park(pos, cs), f[at + n..], -n)
    ensures Indexed(u, r)
    ensures r.Keys == pos.Keys
    ensures forall x | x in cs :: r[x] == -1
    ensures forall id | id in pos && id !in f :: r[id] == pos[id]
  {
    PositionKeys(Park(pos, cs), f[at + n..], -n);
    PositionKeys(pos, cs, -n);
    forall k | 0 <= k < |u| ensures u[k] in r && r[u[k]] == k {
      CutPositionsAt(f, pos, cs, at, n, k);
    }
    CutFrames(f, pos, cs, at, n, r);
  }
  /** Cutting n entries at index at out of an indexed list, parking them
      and moving every later entry up by n, leaves an indexed list over the
      same keys that keeps the entries before the cut, moves the first entry
      after it up to the cut, and parks exactly the entries it takes out. */
  lemma CutRunIndexed<T>(f: seq<T>, pos: map<T, int>, at: int, n: int, u: seq<T>, r: map<T, int>)
    requires Indexed(f, pos) && 0 <= at && 0 <= n && at + n <= |f|
    requires u == Cut(f, at, n) && r == Shift(Park(pos, f[at..at + n]), f[at + n..], -n)
    ensures Indexed(u, r) && r.Keys == pos.Keys
    ensures u[..at] == f[..at]
    ensures at < |u| ==> u[at] == f[at + n]
    ensures forall x | x in u :: x in f
    ensures forall x | x in f && x !in u :: x in f[at..at + n] && r[x] == -1
  {
    var cs := f[at..at + n];
    forall c | c in cs ensures c in pos {
      var j :| 0 <= j < n && cs[j] == c;
      assert f[at + j] == c;
    }
    CutIndexed(f, pos, cs, at, n, u, r);
    CutMembers(f, at, n);
  }


  /** The part of CutIndexed that needs no more than the cut entries being
      listed nowhere after the cut. */
  lemma CutFrames<T>(f: seq<T>, pos: map<T, int>, cs: seq<T>, at: int, n: int, r: map<T, int>)
    requires 0 <= at && 0 <= n && at + n <= |f|
    requires forall c | c in cs :: c in pos && c !in f[at + n..]
    requires r == Shift(Park(pos, cs), f[at + n..], -n)
    ensures r.Keys == pos.Keys
    ensures forall x | x in cs :: r[x] == -1
    ensures forall id | id in pos && id !in f && id !in cs :: r[id] == pos[id]
  {
    PositionKeys(Park(pos, cs), f[at + n..], -n);
    PositionKeys(pos, cs, -n);
    forall x | x in cs ensures r[x] == -1 {
      ShiftOut(Park(pos, cs), f[at + n..], -n, x);
    }
    forall id | id in pos && id !in f && id !in cs ensures r[id] == pos[id] {
      assert id !in f[at + n..];
      ShiftOut(Park(pos, cs), f[at + n..], -n, id);
    }
  }

  /** Moving by -d undoes moving by d. */
  lemma {:induction false} MovedNegate<T>(t: seq<T>, y: T, d: int)
    ensures Moved(t, y, -d) == -Moved(t, y, d)
    decreases |t|
  {
    if t != [] {
      MovedNegate(t[..|t| - 1], y, d);
    }
  }

  /** Collapse's loops undo expand's when the new entries were at -1: every
      entry the first moves down the second moves back up, as often. */
  lemma CutUndoesSplicePositions<T>(f: seq<T>, pos: map<T, int>, cs: seq<T>, at: int, e: map<T, int>, r: map<T, int>)
    requires 0 <= at <= |f|
    requires forall c | c in cs :: c in pos && c !in f && pos[c] == -1
    requires e == Shift(Place(pos, cs, at), f[at..], |cs|)
    requires r == Shift(Park(e, cs), f[at..], -|cs|)
    ensures r == pos
  {
    var n := |cs|;
    var tail := f[at..];
    PositionKeys(Place(pos, cs, at), tail, n);
    PositionKeys(pos, cs, at);
    PositionKeys(Park(e, cs), tail, -n);
    PositionKeys(e, cs, -n);
    forall id | id in pos
      ensures r[id] == pos[id]
    {
      if id in cs {
        assert id !in tail;
        MovedOut(tail, id, -n);
      } else {
        MovedNegate(tail, id, n);
      }
    }
  }
  /** The same, with the loop tail of the cut read off the spliced list. */
  lemma CutUndoesSplicePositionsAt<T>(f: seq<T>, pos: map<T, int>, cs: seq<T>, at: int, u: seq<T>,
                                      e: map<T, int>, r: map<T, int>)
    requires 0 <= at <= |f|
    requires forall c | c in cs :: c in pos && c !in f && pos[c] == -1
    requires u == Splice(f, at, cs)
    requires e == Shift(Place(pos, cs, at), f[at..], |cs|)
    requires r == Shift(Park(e, cs), u[at + |cs|..], -|cs|)
    ensures r == pos
  {
    SpliceParts(f, at, cs);
    CutUndoesSplicePositions(f, pos, cs, at, e, r);
  }


  /** One insert turn (`item.Position = p`, every entry from p on moves down
      by one, the item goes in at p) leaves every entry of the new list
      caching its index. */
  lemma InsertIndexed<T>(f: seq<T>, pos: map<T, int>, item: T, p: int, u: seq<T>, r: map<T, int>)
    requires Indexed(f, pos) && item in pos && item !in f && 0 <= p <= |f|
    requires u == InsertAt(f, p, item) && r == Shift(pos[item := p], f[p..], 1)
    ensures Indexed(u, r)
    ensures r.Keys == pos.Keys
  {
    var set0 := pos[item := p];
    PositionKeys(set0, f[p..], 1);
    assert set0.Keys == pos.Keys;
    forall j | 0 <= j < |u| ensures u[j] in r && r[u[j]] == j {
      InsertAtIndex(f, p, item, j);
      if j < p {
        IndexedTail(f, pos, j, p);
        ShiftOut(set0, f[p..], 1, f[j]);
      } else if j > p {
        MovedTail(f, pos, p, 1, j - 1);
      } else {
        assert item !in f[p..];
        ShiftOut(set0, f[p..], 1, item);
      }
    }
  }

  /** One remove turn (the entry at p goes, every later entry moves up by
      one) leaves every entry of the new list caching its index, and the
      removed entry its old one. */
  lemma RemoveIndexed<T>(f: seq<T>, pos: map<T, int>, p: int, u: seq<T>, r: map<T, int>)
    requires Indexed(f, pos) && 0 <= p < |f|
    requires u == RemoveAt(f, p) && r == Shift(pos, f[p + 1..], -1)
    ensures Indexed(u, r)
    ensures r.Keys == pos.Keys
    ensures r[f[p]] == p
  {
    PositionKeys(pos, f[p + 1..], -1);
    forall j | 0 <= j < |u| ensures u[j] in r && r[u[j]] == j {
      RemoveAtIndex(f, p, j);
      if j < p {
        IndexedTail(f, pos, j, p + 1);
        ShiftOut(pos, f[p + 1..], -1, f[j]);
      } else {
        MovedTail(f, pos, p + 1, -1, j + 1);
      }
    }
    IndexedTail(f, pos, p, p + 1);
    ShiftOut(pos, f[p + 1..], -1, f[p]);
  }

  /** The sequence with x taken out of its first slot and put last. */
  function Rotated<T(==)>(s: seq<T>, x: T): seq<T> {
    RemoveFirst(s, x) + [x]
  }

  /** Removing x cuts the sequence at x's first index. */
  lemma RemoveFirstSplit<T>(s: seq<T>, x: T)
    requires x in s
    ensures RemoveFirst(s, x) == s[..IndexOf(s, x)] + s[IndexOf(s, x) + 1..]
  {
  }

  /** Rotation puts x last, moves the elements behind x's old slot one
      place down and keeps those before it. */
  lemma RotatedShape<T>(s: seq<T>, x: T)
    requires x in s
    ensures |Rotated(s, x)| == |s| && Rotated(s, x)[|s| - 1] == x
    ensures forall j | 0 <= j < IndexOf(s, x) :: Rotated(s, x)[j] == s[j]
    ensures forall j | IndexOf(s, x) <= j < |s| - 1 :: Rotated(s, x)[j] == s[j + 1]
  {
    var k := IndexOf(s, x);
    var c := s[..k] + s[k + 1..] + [x];
    assert Rotated(s, x) == c by {
      RemoveFirstSplit(s, x);
    }
    forall j | 0 <= j < k
      ensures c[j] == s[j]
    {
    }
    forall j | k <= j < |s| - 1
      ensures c[j] == s[j + 1]
    {
    }
  }

  /** Rotation keeps the elements and their distinctness; without x both
      orders agree. */
  lemma RotatedMembers<T>(s: seq<T>, x: T)
    requires NoDup(s) && x in s
    ensures NoDup(Rotated(s, x))
    ensures forall y :: y in Rotated(s, x) <==> y in s
    ensures RemoveFirst(Rotated(s, x), x) == RemoveFirst(s, x)
  {
    var r := RemoveFirst(s, x);
    RemoveFirstNoDup(s, x);
    NoDupConcat(r, [x]);
    RemoveFirstAppend(r, x);
  }

  /** Rotating the last of distinct elements changes nothing. */
  lemma RotatedTop<T>(s: seq<T>, x: T)
    requires NoDup(s) && s != [] && s[|s| - 1] == x
    ensures Rotated(s, x) == s
  {
    var p := s[..|s| - 1];
    assert s == p + [x];
    RemoveFirstAppend(p, x);
  }

  // ---------------------------------------------------------------------
  // One turn of the loops that splice and shift in place

  /** Inserting x right after what was spliced in extends the splice. */
  lemma SpliceGrow<T>(a: seq<T>, at: int, ins: seq<T>, x: T)
    requires 0 <= at <= |a|
    ensures InsertAt(Splice(a, at, ins), at + |ins|, x) == Splice(a, at, ins + [x])
  {
    var u := Splice(a, at, ins);
    assert u[..at + |ins|] == a[..at] + ins && u[at + |ins|..] == a[at..];
  }

  /** Removing the entry at the cut once more cuts one more entry. */
  lemma CutGrow<T>(a: seq<T>, at: int, n: int)
    requires 0 <= at && 0 <= n && at + n + 1 <= |a|
    ensures RemoveAt(Cut(a, at, n), at) == Cut(a, at, n + 1)
  {
    var u := Cut(a, at, n);
    assert u[..at] == a[..at] && u[at + 1..] == a[at + n + 1..];
  }

  /** The same, stated for the value the loop holds. */
  lemma CutStep<T>(u: seq<T>, a: seq<T>, at: int, n: int)
    requires 0 <= at && 0 <= n && at + n + 1 <= |a| && u == Cut(a, at, n)
    ensures at < |u| && RemoveAt(u, at) == Cut(a, at, n + 1)
  {
    CutGrow(a, at, n);
  }

  /** What a cut leaves from the cut on is what followed the cut entries. */
  lemma CutTail<T>(a: seq<T>, at: int, n: int)
    requires 0 <= at && 0 <= n && at + n <= |a|
    ensures Cut(a, at, n)[at..] == a[at + n..]
  {
  }

  /** Moving one more entry x by d adds d to its value only. */
  lemma ShiftGrow<T>(pos: map<T, int>, t: seq<T>, x: T, d: int)
    requires x in pos
    ensures Shift(pos, t + [x], d) == Shift(pos, t, d)[x := Shift(pos, t, d)[x] + d]
  {
    assert (t + [x])[..|t|] == t;
    forall y | y in pos ensures Moved(t + [x], y, d) == Moved(t, y, d) + (if y == x then d else 0) {
    }
  }

  /** The same, stated for the value the loop holds. */
  lemma ShiftStep<T>(pos: map<T, int>, p0: map<T, int>, t: seq<T>, x: T, d: int)
    requires pos == Shift(p0, t, d) && x in p0
    ensures x in pos && pos[x := pos[x] + d] == Shift(p0, t + [x], d)
  {
    ShiftGrow(p0, t, x, d);
  }

  /** Placing one more entry cs[i] gives it the value base + i. */
  lemma PlaceGrow<T>(pos: map<T, int>, cs: seq<T>, i: int, base: int)
    requires 0 <= i < |cs| && cs[i] in pos
    ensures Place(pos, cs[..i + 1], base) == Place(pos, cs[..i], base)[cs[i] := base + i]
  {
    assert cs[..i + 1][..i] == cs[..i];
    forall y | y in pos
      ensures LastIndexOf(cs[..i + 1], y) == if y == cs[i] then i else LastIndexOf(cs[..i], y)
    {
    }
    forall y | y in pos ensures y in cs[..i + 1] <==> y == cs[i] || y in cs[..i] {
      assert cs[..i + 1] == cs[..i] + [cs[i]];
    }
  }

  /** The same, stated for the value the loop holds. */
  lemma PlaceStep<T>(pos: map<T, int>, p0: map<T, int>, cs: seq<T>, i: int, base: int)
    requires 0 <= i < |cs| && cs[i] in p0 && pos == Place(p0, cs[..i], base)
    ensures pos[cs[i] := base + i] == Place(p0, cs[..i + 1], base)
  {
    PlaceGrow(p0, cs, i, base);
  }

  /** Parking one more entry cs[i] gives it -1. */
  lemma ParkGrow<T>(pos: map<T, int>, cs: seq<T>, i: int)
    requires 0 <= i < |cs| && cs[i] in pos
    ensures Park(pos, cs[..i + 1]) == Park(pos, cs[..i])[cs[i] := -1]
  {
    assert cs[..i + 1] == cs[..i] + [cs[i]];
  }

  /** The same, stated for the value the loop holds. */
  lemma ParkStep<T>(pos: map<T, int>, p0: map<T, int>, cs: seq<T>, i: int)
    requires 0 <= i < |cs| && cs[i] in p0 && pos == Park(p0, cs[..i])
    ensures pos[cs[i] := -1] == Park(p0, cs[..i + 1])
  {
    ParkGrow(p0, cs, i);
  }
}
