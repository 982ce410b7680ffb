/**
 * Python's ordering of `str` values (code point by code point, a proper
 * prefix first) and `sorted` applied to a collection of distinct strings.
 */
module Order {

  /** `a < b` on Python strings. */
  predicate Below(a: string, b: string)
  {
    if a == [] then b != []
    else if b == [] then false
    else if a[0] != b[0] then a[0] < b[0]
    else Below(a[1..], b[1..])
  }

  /** `a` is a proper prefix of `b`. */
  predicate IsProperPrefix(a: string, b: string)
  {
    |a| < |b| && a == b[..|a|]
  }

  /** `a` and `b` agree before index `i`, where `a` has the smaller character. */
  predicate DiffersBelowAt(a: string, b: string, i: nat)
  {
    i < |a| && i < |b| && a[..i] == b[..i] && a[i] < b[i]
  }

  /**
   * `Below` is the lexicographic order on code points: `a` is a proper
   * prefix of `b`, or at the first index where they differ `a` has the
   * smaller character.
   */
  lemma {:induction false} BelowIsLexicographic(a: string, b: string)
    ensures Below(a, b) <==> IsProperPrefix(a, b) || exists i :: DiffersBelowAt(a, b, i)
  {
    if a == [] || b == [] {
    } else if a[0] != b[0] {
      if Below(a, b) {
        assert DiffersBelowAt(a, b, 0);
      }
      forall i: nat | DiffersBelowAt(a, b, i) ensures a[0] < b[0] {
        if i > 0 {
          assert a[..i][0] == b[..i][0];
        }
      }
    } else {
      var a', b' := a[1..], b[1..];
      BelowIsLexicographic(a', b');
      assert a == [a[0]] + a' && b == [b[0]] + b';
      if IsProperPrefix(a', b') {
        assert b[..|a|] == [b[0]] + b'[..|a'|];
      }
      if IsProperPrefix(a, b) {
        forall k | 0 <= k < |a'| ensures a'[k] == b'[k] {
          assert a'[k] == a[k + 1] == b[..|a|][k + 1] == b'[k];
        }
        assert a' == b'[..|a'|];
      }
      forall i: nat | DiffersBelowAt(a', b', i) ensures DiffersBelowAt(a, b, i + 1) {
        assert a[..i + 1] == [a[0]] + a'[..i] && b[..i + 1] == [b[0]] + b'[..i];
      }
      forall i: nat | DiffersBelowAt(a, b, i) ensures i > 0 && DiffersBelowAt(a', b', i - 1) {
        assert a'[..i - 1] == a[..i][1..] && b'[..i - 1] == b[..i][1..];
      }
    }
  }

  lemma {:induction false} BelowIrreflexive(a: string)
    ensures !Below(a, a)
  {
    if a != [] {
      BelowIrreflexive(a[1..]);
    }
  }

  lemma {:induction false} BelowAsymmetric(a: string, b: string)
    requires Below(a, b)
    ensures !Below(b, a)
  {
    if a != [] && b != [] && a[0] == b[0] {
      BelowAsymmetric(a[1..], b[1..]);
    }
  }

  lemma {:induction false} BelowTransitive(a: string, b: string, c: string)
    requires Below(a, b) && Below(b, c)
    ensures Below(a, c)
  {
    if a != [] && a[0] == b[0] && b[0] == c[0] {
      BelowTransitive(a[1..], b[1..], c[1..]);
    }
  }

  /** Any two distinct strings are ordered one way or the other. */
  lemma {:induction false} BelowTotal(a: string, b: string)
    ensures a == b || Below(a, b) || Below(b, a)
  {
    if a != [] && b != [] && a[0] == b[0] {
      BelowTotal(a[1..], b[1..]);
      if a[1..] == b[1..] {
        assert a == [a[0]] + a[1..] && b == [b[0]] + b[1..];
      }
    }
  }

  predicate StrictlyAscending(xs: seq<string>)
  {
    forall i, j :: 0 <= i < j < |xs| ==> Below(xs[i], xs[j])
  }

  /** A strictly ascending sequence holds no element twice. */
  lemma NoDuplicates(xs: seq<string>, i: nat, j: nat)
    requires StrictlyAscending(xs) && i < j < |xs|
    ensures xs[i] != xs[j]
  {
    BelowIrreflexive(xs[i]);
  }

  /** `k` is the smallest element of `s`. */
  predicate IsLeast(k: string, s: set<string>)
  {
    k in s && forall y :: y in s && y != k ==> Below(k, y)
  }

  lemma {:induction false} LeastExists(s: set<string>)
    requires s != {}
    ensures exists k :: IsLeast(k, s)
    decreases s
  {
    var x :| x in s;
    var rest := s - {x};
    if rest == {} {
      assert s == {x};
      assert IsLeast(x, s);
    } else {
      LeastExists(rest);
      var k :| IsLeast(k, rest);
      BelowTotal(x, k);
      if Below(x, k) {
        forall y | y in s && y != x ensures Below(x, y) {
          if y != k { BelowTransitive(x, k, y); }
        }
        assert IsLeast(x, s);
      } else {
        assert IsLeast(k, s);
      }
    }
  }

  lemma LeastUnique(s: set<string>)
    ensures forall a, b :: IsLeast(a, s) && IsLeast(b, s) ==> a == b
  {
    forall a, b | IsLeast(a, s) && IsLeast(b, s) ensures a == b {
      if a != b {
        BelowAsymmetric(a, b);
      }
    }
  }

  /** Python's `sorted(s)` for a set of strings: its elements, each once, in ascending order. */
  function SortedSet(s: set<string>): (r: seq<string>)
    ensures StrictlyAscending(r)
    ensures forall x :: x in r <==> x in s
    ensures |r| == |s|
    decreases s
  {
    if s == {} then []
    else
      LeastExists(s);
      LeastUnique(s);
      var k :| IsLeast(k, s);
      var rest := SortedSet(s - {k});
      assert forall j :: 0 <= j < |rest| ==> Below(k, rest[j]);
      [k] + rest
  }

  /** Strict ascent and the element set determine a sequence: `sorted` has only one possible answer. */
  lemma {:induction false} AscendingUnique(xs: seq<string>, ys: seq<string>)
    requires StrictlyAscending(xs) && StrictlyAscending(ys)
    requires forall x :: x in xs <==> x in ys
    ensures xs == ys
    decreases |xs|
  {
    if xs != [] { assert xs[0] in ys; }
    if ys != [] { assert ys[0] in xs; }
    if xs != [] && ys != [] {
      if xs[0] != ys[0] {
        var j :| 0 <= j < |ys| && ys[j] == xs[0];
        var i :| 0 <= i < |xs| && xs[i] == ys[0];
        // xs[0] comes after ys[0] in ys, and ys[0] after xs[0] in xs.
        assert Below(ys[0], xs[0]);
        assert Below(xs[0], ys[0]);
        BelowAsymmetric(xs[0], ys[0]);
      }
      forall x ensures x in xs[1..] <==> x in ys[1..] {
        if x in xs[1..] {
          var i :| 1 <= i < |xs| && xs[i] == x;
          NoDuplicates(xs, 0, i);
          assert x in ys;
          var j :| 0 <= j < |ys| && ys[j] == x;
          assert j != 0;
          assert ys[1..][j - 1] == x;
        }
        if x in ys[1..] {
          var j :| 1 <= j < |ys| && ys[j] == x;
          NoDuplicates(ys, 0, j);
          assert x in xs;
          var i :| 0 <= i < |xs| && xs[i] == x;
          assert i != 0;
          assert xs[1..][i - 1] == x;
        }
      }
      AscendingUnique(xs[1..], ys[1..]);
    }
  }
}
