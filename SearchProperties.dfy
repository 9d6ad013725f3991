/** What the depth-first search enumerates: only valid placements (soundness),
    all of them (completeness), in strictly increasing lexicographic order, and
    the same list whether it starts from row 0 or is split by first column. */
module SearchProperties {
  import opened Placements

  /** Extending an attack-free prefix by a safe column keeps it attack-free,
      and only a safe column does. */
  lemma SafeExtends(p: seq<int>, c: int)
    requires NoAttack(p)
    ensures Safe(p, c) <==> NoAttack(p + [c])
  {
    var q := p + [c];
    if Safe(p, c) {
      forall i, j | 0 <= i < j < |q| ensures q[i] != q[j] && Abs(q[i] - q[j]) != j - i {
        if j == |p| {
          assert q[i] == p[i] && q[j] == c;
        } else {
          assert q[i] == p[i] && q[j] == p[j];
        }
      }
    }
    if NoAttack(q) {
      forall i | 0 <= i < |p| ensures p[i] != c && Abs(p[i] - c) != |p| - i {
        assert q[i] == p[i] && q[|p|] == c;
      }
    }
  }

  /** Soundness of the search from prefix p: every emitted placement fills the
      whole array, starts with p, uses columns in [0, width) below p, and is
      attack-free whenever p is. */
  lemma {:induction false} SolsSound(size: nat, width: nat, p: seq<int>, r: seq<int>)
    requires |p| <= size && r in Sols(size, width, p)
    ensures |r| == size && r[..|p|] == p && InRange(r, |p|, width)
    ensures NoAttack(p) ==> NoAttack(r)
    decreases size - |p|, width + 1
  {
    if |p| < size {
      ColsSound(size, width, p, width, r);
    }
  }

  /** Soundness of the column loop: after trying columns 0 .. c-1 at row |p|,
      every emitted placement has one of those columns on row |p|. */
  lemma {:induction false} ColsSound(size: nat, width: nat, p: seq<int>, c: nat, r: seq<int>)
    requires |p| < size && c <= width && r in Cols(size, width, p, c)
    ensures |r| == size && r[..|p|] == p && InRange(r, |p|, width) && r[|p|] < c
    ensures NoAttack(p) ==> NoAttack(r)
    decreases size - |p|, c
  {
    if c > 0 {
      if r in Cols(size, width, p, c - 1) {
        ColsSound(size, width, p, c - 1, r);
      } else {
        var q := p + [c - 1];
        SolsSound(size, width, q, r);
        assert r[..|p|] == r[..|q|][..|p|];
        assert r[|p|] == r[..|q|][|p|];
        if NoAttack(p) {
          SafeExtends(p, c - 1);
        }
      }
    }
  }

  /** Once column c is safe at row |p|, everything the search from p + [c]
      emits is emitted by the column loop as soon as it has passed column c. */
  lemma {:induction false} ColsIncludes(size: nat, width: nat, p: seq<int>, k: nat, c: nat, r: seq<int>)
    requires |p| < size && c < k <= width
    requires Safe(p, c) && r in Sols(size, width, p + [c])
    ensures r in Cols(size, width, p, k)
    decreases k
  {
    if c < k - 1 {
      ColsIncludes(size, width, p, k - 1, c, r);
    }
  }

  /** Completeness of the search from prefix p: every attack-free placement of
      the right length that starts with p and uses columns in [0, width) below
      p is emitted. */
  lemma {:induction false} SolsComplete(size: nat, width: nat, p: seq<int>, r: seq<int>)
    requires |p| <= size && |r| == size && r[..|p|] == p
    requires InRange(r, |p|, width) && NoAttack(r)
    ensures r in Sols(size, width, p)
    decreases size - |p|
  {
    if |p| == size {
      assert r == r[..|p|];
    } else {
      var c := r[|p|];
      var q := p + [c];
      assert r[..|q|] == q;
      forall i | 0 <= i < |p| ensures p[i] != c && Abs(p[i] - c) != |p| - i {
        assert p[i] == r[i];
      }
      SolsComplete(size, width, q, r);
      ColsIncludes(size, width, p, width, c, r);
    }
  }

  /** Two increasing lists, every element of the first before every element of
      the second, concatenate to an increasing list. */
  lemma SortedConcat(a: seq<seq<int>>, b: seq<seq<int>>)
    requires StrictlyIncreasing(a) && StrictlyIncreasing(b)
    requires forall x, y :: x in a && y in b ==> LexLess(x, y)
    ensures StrictlyIncreasing(a + b)
  {
    var s := a + b;
    forall i, j | 0 <= i < j < |s| ensures LexLess(s[i], s[j]) {
      if j < |a| {
        assert s[i] == a[i] && s[j] == a[j];
      } else if |a| <= i {
        assert s[i] == b[i - |a|] && s[j] == b[j - |a|];
      } else {
        assert s[i] in a && s[j] in b;
      }
    }
  }

  /** The search from prefix p emits its placements in strictly increasing
      lexicographic order. */
  lemma {:induction false} SolsSorted(size: nat, width: nat, p: seq<int>)
    requires |p| <= size
    ensures StrictlyIncreasing(Sols(size, width, p))
    decreases size - |p|, width + 1
  {
    if |p| < size {
      ColsSorted(size, width, p, width);
    }
  }

  /** The column loop at row |p| emits in strictly increasing lexicographic
      order, because it tries the columns in ascending order. */
  lemma {:induction false} ColsSorted(size: nat, width: nat, p: seq<int>, c: nat)
    requires |p| < size && c <= width
    ensures StrictlyIncreasing(Cols(size, width, p, c))
    decreases size - |p|, c
  {
    if c > 0 {
      var a := Cols(size, width, p, c - 1);
      ColsSorted(size, width, p, c - 1);
      if Safe(p, c - 1) {
        var q := p + [c - 1];
        var b := Sols(size, width, q);
        SolsSorted(size, width, q);
        forall x, y | x in a && y in b ensures LexLess(x, y) {
          ColsSound(size, width, p, c - 1, x);
          SolsSound(size, width, q, y);
          assert y[..|p|] == y[..|q|][..|p|];
          assert y[|p|] == y[..|q|][|p|];
          assert x[..|p|] == y[..|p|] && x[|p|] < y[|p|];
        }
        SortedConcat(a, b);
      } else {
        assert Cols(size, width, p, c) == a + [];
      }
    }
  }

  /** An increasing list holds no placement twice. */
  lemma IncreasingDistinct(s: seq<seq<int>>)
    requires StrictlyIncreasing(s)
    ensures forall i, j :: 0 <= i < j < |s| ==> s[i] != s[j]
  {
    forall i, j | 0 <= i < j < |s| ensures s[i] != s[j] {
      assert LexLess(s[i], s[j]);
    }
  }

  /** The sequential search emits exactly the valid placements of n queens,
      each once, in strictly increasing lexicographic order. */
  lemma SolveCorrect(n: nat)
    ensures forall r :: r in Solve(n) <==> ValidPlacement(r, n)
    ensures StrictlyIncreasing(Solve(n))
    ensures forall i, j :: 0 <= i < j < |Solve(n)| ==> Solve(n)[i] != Solve(n)[j]
  {
    forall r | r in Solve(n) ensures ValidPlacement(r, n) {
      SolsSound(n, n, [], r);
      assert r == r[..0] + r[0..];
    }
    forall r | ValidPlacement(r, n) ensures r in Solve(n) {
      SolsComplete(n, n, [], r);
    }
    SolsSorted(n, n, []);
    IncreasingDistinct(Solve(n));
  }

  /** Partition i (row 0 fixed to column i, search from row 1) emits exactly
      the valid placements whose first queen is in column i, in increasing
      lexicographic order. */
  lemma PartitionCorrect(n: nat, i: nat)
    requires i < n
    ensures forall r :: r in Sols(n, n, [i]) <==> ValidPlacement(r, n) && r[0] == i
    ensures StrictlyIncreasing(Sols(n, n, [i]))
  {
    forall r | r in Sols(n, n, [i]) ensures ValidPlacement(r, n) && r[0] == i {
      SolsSound(n, n, [i], r);
      assert r[0] == r[..1][0];
    }
    forall r | ValidPlacement(r, n) && r[0] == i ensures r in Sols(n, n, [i]) {
      assert r[..1] == [i];
      SolsComplete(n, n, [i], r);
    }
    SolsSorted(n, n, [i]);
  }

  /** Row 0 is always safe, so the column loop at row 0 emits, column by
      column, exactly what the partitions emit. */
  lemma {:induction false} ColsArePartitions(n: nat, k: nat)
    requires 1 <= n && k <= n
    ensures Cols(n, n, [], k) == Partitions(n, k)
  {
    if k > 0 {
      ColsArePartitions(n, k - 1);
      assert Safe([], k - 1);
      assert [] + [k - 1] == [k - 1];
    }
  }

  /** Decomposition law: for n >= 1 the partitions 0 .. n-1 together emit the
      sequential search's list, element for element and in the same order. */
  lemma PartitionsCoverSolve(n: nat)
    requires 1 <= n
    ensures Partitions(n, n) == Solve(n)
    ensures multiset(Partitions(n, n)) == multiset(Solve(n))
  {
    ColsArePartitions(n, n);
  }

  /** Two queens on a 2x2 board always attack each other. */
  lemma TwoQueensAttack(r: seq<int>)
    requires |r| == 2 && InRange(r, 0, 2)
    ensures !NoAttack(r)
  {
    assert 0 <= r[0] < 2 && 0 <= r[1] < 2;
    assert r[0] == r[1] || Abs(r[0] - r[1]) == 1 - 0;
  }

  /** Three queens on a 3x3 board always attack each other. */
  lemma ThreeQueensAttack(r: seq<int>)
    requires |r| == 3 && InRange(r, 0, 3)
    ensures !NoAttack(r)
  {
    assert 0 <= r[0] < 3 && 0 <= r[1] < 3 && 0 <= r[2] < 3;
    if r[0] == r[1] || Abs(r[0] - r[1]) == 1 - 0 {
    } else if r[1] == r[2] || Abs(r[1] - r[2]) == 2 - 1 {
    } else {
      assert r[0] == r[2];
    }
  }

  /** The 1x1 board has exactly one solution. */
  lemma OneQueenBoard()
    ensures Solve(1) == [[0]]
  {
    assert Safe([], 0);
    assert [] + [0] == [0];
    assert Sols(1, 1, [0]) == [[0]];
    assert Cols(1, 1, [], 1) == [] + Sols(1, 1, [0]);
  }

  /** The 2x2 board has no solution. */
  lemma TwoQueensBoard()
    ensures Solve(2) == []
  {
    SolveCorrect(2);
    if Solve(2) != [] {
      var r := Solve(2)[0];
      assert r in Solve(2);
      TwoQueensAttack(r);
    }
  }

  /** The 3x3 board has no solution. */
  lemma ThreeQueensBoard()
    ensures Solve(3) == []
  {
    SolveCorrect(3);
    if Solve(3) != [] {
      var r := Solve(3)[0];
      assert r in Solve(3);
      ThreeQueensAttack(r);
    }
  }

  /** The only two ways to place four queens on a 4x4 board. */
  lemma FourQueensPlacements(r: seq<int>)
    requires ValidPlacement(r, 4)
    ensures r == [1, 3, 0, 2] || r == [2, 0, 3, 1]
  {
    var a, b, c, d := r[0], r[1], r[2], r[3];
    assert 0 <= a < 4 && 0 <= b < 4 && 0 <= c < 4 && 0 <= d < 4;
    assert a != b && Abs(a - b) != 1;
    assert b != c && Abs(b - c) != 1;
    assert c != d && Abs(c - d) != 1;
    assert a != c && Abs(a - c) != 2;
    assert b != d && Abs(b - d) != 2;
    assert a != d && Abs(a - d) != 3;
    assert r == [a, b, c, d];
  }

  /** Two members of a list of length at most one are the same. */
  lemma AtMostOneMember(s: seq<seq<int>>, x: seq<int>, y: seq<int>)
    requires |s| <= 1 && x in s && y in s
    ensures x == y
  {
  }

  /** The first three elements of an increasing list are in increasing order. */
  lemma TripleOrder(s: seq<seq<int>>)
    requires 2 < |s| && StrictlyIncreasing(s)
    ensures LexLess(s[0], s[1]) && LexLess(s[1], s[2])
  {
  }

  /** An increasing list whose elements are drawn from {x, y}, with x before
      y and both present, is exactly [x, y]. */
  lemma IncreasingPair(s: seq<seq<int>>, x: seq<int>, y: seq<int>)
    requires StrictlyIncreasing(s) && x in s && y in s && x != y
    requires forall i :: 0 <= i < |s| ==> s[i] == x || s[i] == y
    requires !LexLess(y, x) && !LexLess(x, x) && !LexLess(y, y)
    ensures s == [x, y]
  {
    if |s| <= 1 {
      AtMostOneMember(s, x, y);
    } else if 2 < |s| {
      TripleOrder(s);
      assert false;
    } else {
      assert LexLess(s[0], s[1]);
      assert s == [s[0], s[1]];
    }
  }

  /** [2, 0, 3, 1] does not come before [1, 3, 0, 2]: they differ on row 0. */
  lemma FourQueensOrder()
    ensures !LexLess([2, 0, 3, 1], [1, 3, 0, 2])
  {
    var x, y := [1, 3, 0, 2], [2, 0, 3, 1];
    forall k | 0 <= k < 4 ensures !(y[..k] == x[..k] && y[k] < x[k]) {
      if k > 0 {
        assert y[..k][0] != x[..k][0];
      }
    }
  }

  /** The search on a 4x4 board emits both solutions ... */
  lemma FourQueensFound(n: nat, x: seq<int>, y: seq<int>)
    requires n == 4 && x == [1, 3, 0, 2] && y == [2, 0, 3, 1]
    ensures x in Solve(n) && y in Solve(n)
  {
    SolveCorrect(n);
    assert ValidPlacement(x, n) && ValidPlacement(y, n);
  }

  /** ... and nothing else. */
  lemma FourQueensOnly(n: nat, x: seq<int>, y: seq<int>)
    requires n == 4 && x == [1, 3, 0, 2] && y == [2, 0, 3, 1]
    ensures forall i :: 0 <= i < |Solve(n)| ==> Solve(n)[i] == x || Solve(n)[i] == y
  {
    var s := Solve(n);
    SolveCorrect(n);
    forall i | 0 <= i < |s| ensures s[i] == x || s[i] == y {
      assert s[i] in s;
      FourQueensPlacements(s[i]);
    }
  }

  /** The 4x4 board has exactly two solutions, emitted in this order. (The
      size is a parameter so that the verifier does not unfold the search on
      a literal argument.) */
  lemma FourQueensBoard(n: nat)
    requires n == 4
    ensures Solve(n) == [[1, 3, 0, 2], [2, 0, 3, 1]]
  {
    var x, y := [1, 3, 0, 2], [2, 0, 3, 1];
    FourQueensFound(n, x, y);
    FourQueensOnly(n, x, y);
    FourQueensOrder();
    SolveCorrect(n);
    IncreasingPair(Solve(n), x, y);
  }

  /** The partitioned drivers emit nothing for n = 0, where the sequential
      driver emits the empty placement. */
  lemma ZeroBoardPartitions()
    ensures Partitions(0, 0) == [] && Solve(0) == [[]]
  {
  }
}
