/** Order-preserving selection over sequences: the `Array.prototype.filter`
    that the history store and the search box both rely on, and the
    subsequence relation that says "same order, some elements dropped". */
module Seqs {

  /** The elements of `s` satisfying `p`, in their original order. */
  function Keep<T>(s: seq<T>, p: T -> bool): (r: seq<T>)
    ensures |r| <= |s|
    ensures forall i :: 0 <= i < |r| ==> p(r[i])
  {
    if s == [] then []
    else if p(s[0]) then [s[0]] + Keep(s[1..], p)
    else Keep(s[1..], p)
  }

  /** Filtering invents nothing: every kept element comes from `s`. */
  lemma {:induction false} KeepSelects<T>(s: seq<T>, p: T -> bool)
    ensures forall i :: 0 <= i < |Keep(s, p)| ==> Keep(s, p)[i] in s
  {
    if s != [] {
      KeepSelects(s[1..], p);
      var k := Keep(s[1..], p);
      forall i | 0 <= i < |Keep(s, p)| ensures Keep(s, p)[i] in s {
        if p(s[0]) && i > 0 {
          assert Keep(s, p)[i] == k[i - 1];
        } else if !p(s[0]) {
          assert Keep(s, p)[i] == k[i];
        }
      }
    }
  }

  /** Filtering loses nothing that passes: every element of `s` satisfying
      `p` is kept. */
  lemma {:induction false} KeepRetains<T>(s: seq<T>, p: T -> bool)
    ensures forall i :: 0 <= i < |s| && p(s[i]) ==> s[i] in Keep(s, p)
  {
    if s != [] {
      KeepRetains(s[1..], p);
      var k := Keep(s[1..], p);
      forall i | 0 <= i < |s| && p(s[i]) ensures s[i] in Keep(s, p) {
        if i > 0 {
          assert s[i] == s[1..][i - 1];
          assert s[i] in k;
        }
      }
    }
  }

  /** Filtering keeps every occurrence of a passing element and none of a
      failing one: counted with multiplicity, the result is exactly the
      passing part of `s`. */
  lemma {:induction false} KeepMultiset<T>(s: seq<T>, p: T -> bool)
    ensures forall x :: multiset(Keep(s, p))[x] == if p(x) then multiset(s)[x] else 0
  {
    if s != [] {
      KeepMultiset(s[1..], p);
      assert s == [s[0]] + s[1..];
      if p(s[0]) {
        assert Keep(s, p) == [s[0]] + Keep(s[1..], p);
      }
    }
  }

  /** `r` is obtained from `s` by deleting zero or more elements. */
  ghost predicate SubsequenceOf<T>(r: seq<T>, s: seq<T>)
    decreases |s|
  {
    if r == [] then true
    else if s == [] then false
    else (r[0] == s[0] && SubsequenceOf(r[1..], s[1..])) || SubsequenceOf(r, s[1..])
  }

  /** Filtering never reorders: the kept elements form a subsequence. */
  lemma {:induction false} KeepIsSubsequence<T>(s: seq<T>, p: T -> bool)
    ensures SubsequenceOf(Keep(s, p), s)
  {
    if s != [] {
      KeepIsSubsequence(s[1..], p);
      var k := Keep(s[1..], p);
      if p(s[0]) {
        assert Keep(s, p) == [s[0]] + k;
        assert ([s[0]] + k)[1..] == k;
      } else {
        if k != [] {
          assert SubsequenceOf(Keep(s, p), s[1..]);
        }
      }
    }
  }

  /** When every element passes, filtering is the identity (same elements,
      same order). */
  lemma {:induction false} KeepAll<T>(s: seq<T>, p: T -> bool)
    requires forall i :: 0 <= i < |s| ==> p(s[i])
    ensures Keep(s, p) == s
  {
    if s != [] {
      KeepAll(s[1..], p);
      assert [s[0]] + s[1..] == s;
    }
  }

  /** Filtering twice with the same predicate is filtering once. */
  lemma KeepIdempotent<T>(s: seq<T>, p: T -> bool)
    ensures Keep(Keep(s, p), p) == Keep(s, p)
  {
    var k := Keep(s, p);
    KeepAll(k, p);
  }

  /** An element that fails the predicate is dropped, so the result is
      strictly shorter. */
  lemma {:induction false} KeepShorter<T>(s: seq<T>, p: T -> bool, i: nat)
    requires i < |s| && !p(s[i])
    ensures |Keep(s, p)| < |s|
  {
    if i > 0 {
      KeepShorter(s[1..], p, i - 1);
    }
  }

  /** Every element of a subsequence is an element of the whole. */
  lemma {:induction false} SubsequenceMembers<T>(r: seq<T>, s: seq<T>)
    requires SubsequenceOf(r, s)
    ensures forall i :: 0 <= i < |r| ==> r[i] in s
    decreases |s|
  {
    if r != [] {
      if r[0] == s[0] && SubsequenceOf(r[1..], s[1..]) {
        SubsequenceMembers(r[1..], s[1..]);
        forall i | 0 <= i < |r| ensures r[i] in s {
          if i > 0 {
            assert r[i] == r[1..][i - 1];
          }
        }
      } else {
        SubsequenceMembers(r, s[1..]);
      }
    }
  }

  /** Every sequence is a subsequence of itself. */
  lemma {:induction false} SubsequenceReflexive<T>(s: seq<T>)
    ensures SubsequenceOf(s, s)
  {
    if s != [] {
      SubsequenceReflexive(s[1..]);
    }
  }

  /** A prefix is a subsequence. */
  lemma {:induction false} PrefixIsSubsequence<T>(r: seq<T>, s: seq<T>)
    requires r <= s
    ensures SubsequenceOf(r, s)
  {
    if r != [] {
      PrefixIsSubsequence(r[1..], s[1..]);
    }
  }

  /** Subsequence is transitive. */
  lemma {:induction false} SubsequenceTransitive<T>(a: seq<T>, b: seq<T>, c: seq<T>)
    requires SubsequenceOf(a, b) && SubsequenceOf(b, c)
    ensures SubsequenceOf(a, c)
    decreases |c|
  {
    if a != [] {
      assert b != [] && c != [];
      if b[0] == c[0] && SubsequenceOf(b[1..], c[1..]) {
        if a[0] == b[0] && SubsequenceOf(a[1..], b[1..]) {
          SubsequenceTransitive(a[1..], b[1..], c[1..]);
        } else {
          SubsequenceTransitive(a, b[1..], c[1..]);
        }
      } else {
        SubsequenceTransitive(a, b, c[1..]);
      }
    }
  }

  /** Filtering distributes over concatenation. */
  lemma {:induction false} KeepConcat<T>(a: seq<T>, b: seq<T>, p: T -> bool)
    ensures Keep(a + b, p) == Keep(a, p) + Keep(b, p)
  {
    if a != [] {
      KeepConcat(a[1..], b, p);
      assert (a + b)[1..] == a[1..] + b;
    } else {
      assert a + b == b;
    }
  }

  /** Filtering out exactly one element removes that element and keeps the
      rest in place. */
  lemma KeepDropsMiddle<T>(before: seq<T>, x: T, after: seq<T>, p: T -> bool)
    requires forall i :: 0 <= i < |before| ==> p(before[i])
    requires !p(x)
    requires forall i :: 0 <= i < |after| ==> p(after[i])
    ensures Keep(before + [x] + after, p) == before + after
  {
    KeepAll(before, p);
    KeepAll(after, p);
    assert Keep([x], p) == [];
    KeepConcat(before, [x], p);
    assert Keep(before + [x], p) == before;
    KeepConcat(before + [x], after, p);
  }
}
