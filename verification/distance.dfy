/** The insert/delete distance of two texts: the least number of units that any
    diff of the two must insert or delete. It is the yardstick for bisection. */
module Distance {
  import opened Texts

  function Dist(a: Text, b: Text): nat
    decreases |a| + |b|
  {
    if a == [] then |b|
    else if b == [] then |a|
    else if a[0] == b[0] then Dist(a[1..], b[1..])
    else 1 + Min(Dist(a[1..], b), Dist(a, b[1..]))
  }

  lemma {:induction false} DistSymmetric(a: Text, b: Text)
    ensures Dist(a, b) == Dist(b, a)
    decreases |a| + |b|
  {
    if a != [] && b != [] {
      DistSymmetric(a[1..], b[1..]);
      DistSymmetric(a[1..], b);
      DistSymmetric(a, b[1..]);
    }
  }

  /** Dropping one unit moves the distance by at most one. */
  lemma {:induction false} DropLeft(a: Text, b: Text)
    requires a != []
    ensures Dist(a, b) <= 1 + Dist(a[1..], b)
    ensures Dist(a[1..], b) <= 1 + Dist(a, b)
    decreases |a| + |b|
  {
    if b != [] {
      if a[0] == b[0] {
        DropRight(a[1..], b);
      } else {
        DropLeft(a, b[1..]);
        DropRight(a[1..], b);
      }
    }
  }

  lemma {:induction false} DropRight(a: Text, b: Text)
    requires b != []
    ensures Dist(a, b) <= 1 + Dist(a, b[1..])
    ensures Dist(a, b[1..]) <= 1 + Dist(a, b)
    decreases |a| + |b|
  {
    if a != [] {
      if a[0] == b[0] {
        DropLeft(a, b[1..]);
      } else {
        DropRight(a[1..], b);
        DropLeft(a, b[1..]);
      }
    }
  }

  /** Moving forward along a diagonal never raises the remaining distance. */
  lemma {:induction false} DropBoth(a: Text, b: Text)
    requires a != [] && b != []
    ensures Dist(a[1..], b[1..]) <= Dist(a, b)
  {
    if a[0] != b[0] {
      DropRight(a[1..], b);
      DropLeft(a, b[1..]);
    }
  }

  lemma {:induction false} DropMany(a: Text, b: Text, k: nat)
    requires k <= |a| && k <= |b|
    ensures Dist(a[k..], b[k..]) <= Dist(a, b)
  {
    if k > 0 {
      DropBoth(a, b);
      DropMany(a[1..], b[1..], k - 1);
      assert a[1..][k - 1..] == a[k..] && b[1..][k - 1..] == b[k..];
    } else {
      assert a[0..] == a && b[0..] == b;
    }
  }

  lemma {:induction false} Subadditive(a: Text, b: Text, a': Text, b': Text)
    ensures Dist(a + a', b + b') <= Dist(a, b) + Dist(a', b')
    decreases |a| + |b|
  {
    if a == [] {
      if b == [] {
        assert a + a' == a' && b + b' == b';
      } else {
        Subadditive(a, b[1..], a', b');
        assert (b + b')[1..] == b[1..] + b';
        DropRight(a + a', b + b');
      }
    } else if b == [] {
      Subadditive(a[1..], b, a', b');
      assert (a + a')[1..] == a[1..] + a';
      DropLeft(a + a', b + b');
    } else {
      assert (a + a')[1..] == a[1..] + a' && (b + b')[1..] == b[1..] + b';
      if a[0] == b[0] {
        Subadditive(a[1..], b[1..], a', b');
      } else {
        Subadditive(a[1..], b, a', b');
        Subadditive(a, b[1..], a', b');
      }
    }
  }

  lemma {:induction false} DistReverseBound(a: Text, b: Text)
    ensures Dist(Reverse(a), Reverse(b)) <= Dist(a, b)
    decreases |a| + |b|
  {
    if a != [] && b != [] {
      var x, y := [a[0]], [b[0]];
      assert a == x + a[1..] && b == y + b[1..];
      ReverseConcat(x, a[1..]);
      ReverseConcat(y, b[1..]);
      assert Reverse(x) == x && Reverse(y) == y;
      if a[0] == b[0] {
        DistReverseBound(a[1..], b[1..]);
        Subadditive(Reverse(a[1..]), Reverse(b[1..]), x, y);
      } else {
        DistReverseBound(a[1..], b);
        DistReverseBound(a, b[1..]);
        Subadditive(Reverse(a[1..]), Reverse(b), x, []);
        Subadditive(Reverse(a), Reverse(b[1..]), [], y);
        assert Reverse(b) + [] == Reverse(b) && Reverse(a) + [] == Reverse(a);
      }
    }
  }

  lemma {:induction false} DistReverse(a: Text, b: Text)
    ensures Dist(Reverse(a), Reverse(b)) == Dist(a, b)
  {
    DistReverseBound(a, b);
    DistReverseBound(Reverse(a), Reverse(b));
    ReverseTwice(a);
    ReverseTwice(b);
  }

  /** The recursion of the distance read from the right-hand ends. */
  lemma DistLast(a: Text, b: Text)
    requires a != [] && b != []
    ensures var a', b' := a[..|a| - 1], b[..|b| - 1];
            Dist(a, b) == if a[|a| - 1] == b[|b| - 1] then Dist(a', b') else 1 + Min(Dist(a', b), Dist(a, b'))
  {
    var a', b' := a[..|a| - 1], b[..|b| - 1];
    DistReverse(a, b);
    DistReverse(a', b');
    DistReverse(a', b);
    DistReverse(a, b');
    ReverseSplit(a, |a| - 1);
    ReverseSplit(b, |b| - 1);
  }

  lemma {:induction false} LengthBound(a: Text, b: Text)
    ensures |a| - |b| <= Dist(a, b) && |b| - |a| <= Dist(a, b) <= |a| + |b|
    decreases |a| + |b|
  {
    if a != [] && b != [] {
      LengthBound(a[1..], b[1..]);
      LengthBound(a[1..], b);
      LengthBound(a, b[1..]);
    }
  }

  lemma {:induction false} Parity(a: Text, b: Text)
    ensures (Dist(a, b) - |a| - |b|) % 2 == 0
    decreases |a| + |b|
  {
    if a != [] && b != [] {
      Parity(a[1..], b[1..]);
      Parity(a[1..], b);
      Parity(a, b[1..]);
    }
  }

  lemma {:induction false} DistZero(a: Text, b: Text)
    requires Dist(a, b) == 0
    ensures a == b
    decreases |a|
  {
    if a != [] && b != [] {
      DistZero(a[1..], b[1..]);
      assert a == [a[0]] + a[1..] && b == [b[0]] + b[1..];
    }
  }

  lemma {:induction false} DistSame(a: Text)
    ensures Dist(a, a) == 0
  {
    if a != [] {
      DistSame(a[1..]);
    }
  }

  /** Texts that share neither a first nor a last unit are at least two apart. */
  lemma {:induction false} AtLeastTwo(a: Text, b: Text)
    requires a != [] && b != [] && a[0] != b[0] && a[|a| - 1] != b[|b| - 1]
    ensures Dist(a, b) >= 2
  {
    if Dist(a[1..], b) == 0 {
      DistZero(a[1..], b);
    }
    if Dist(a, b[1..]) == 0 {
      DistZero(a, b[1..]);
    }
  }

  /** A shared prefix or suffix does not count. */
  lemma {:induction false} CommonEndsFree(p: Text, a: Text, b: Text, s: Text)
    ensures Dist(p + a + s, p + b + s) == Dist(a, b)
  {
    PrefixFree(p, a + s, b + s);
    assert p + a + s == p + (a + s) && p + b + s == p + (b + s);
    DistReverse(a + s, b + s);
    ReverseConcat(a, s);
    ReverseConcat(b, s);
    PrefixFree(Reverse(s), Reverse(a), Reverse(b));
    DistReverse(a, b);
  }

  lemma {:induction false} PrefixFree(p: Text, a: Text, b: Text)
    ensures Dist(p + a, p + b) == Dist(a, b)
  {
    if p == [] {
      assert p + a == a && p + b == b;
    } else {
      assert (p + a)[1..] == p[1..] + a && (p + b)[1..] == p[1..] + b;
      PrefixFree(p[1..], a, b);
    }
  }

  // ----- points on shortest edit paths

  /** The point (x, y) lies on a shortest edit path, `c` edits from its start. */
  ghost predicate OnPath(a: Text, b: Text, x: int, y: int, c: int) {
    && 0 <= x <= |a| && 0 <= y <= |b|
    && Dist(a[..x], b[..y]) == c
    && Dist(a[x..], b[y..]) == Dist(a, b) - c
  }

  lemma {:induction false} Joined(a: Text, b: Text, x: nat, y: nat)
    requires x <= |a| && y <= |b|
    ensures Dist(a, b) <= Dist(a[..x], b[..y]) + Dist(a[x..], b[y..])
  {
    Subadditive(a[..x], b[..y], a[x..], b[y..]);
    assert a[..x] + a[x..] == a && b[..y] + b[y..] == b;
  }

  /** A shortest path passes a point at every cost up to its length. */
  lemma {:induction false} PathPoint(a: Text, b: Text, c: nat) returns (x: nat, y: nat)
    requires c <= Dist(a, b)
    ensures OnPath(a, b, x, y, c)
  {
    if c == 0 {
      x, y := 0, 0;
      assert a[0..] == a && b[0..] == b;
    } else {
      x, y := PathPoint(a, b, c - 1);
      x, y := NextPoint(a, b, x, y, c - 1);
    }
  }

  lemma {:induction false} NextPoint(a: Text, b: Text, x: nat, y: nat, c: nat) returns (x': nat, y': nat)
    requires OnPath(a, b, x, y, c) && c < Dist(a, b)
    ensures OnPath(a, b, x', y', c + 1)
    decreases |a| - x
  {
    var s, t := a[x..], b[y..];
    if s != [] && t != [] && s[0] == t[0] {
      Stretch(a, b, x, y);
      x', y' := NextPoint(a, b, x + 1, y + 1, c);
    } else {
      var right := s != [] && Dist(a[x + 1..], t) == Dist(s, t) - 1;
      x', y' := if right then x + 1 else x, if right then y else y + 1;
      assert s != [] ==> s[1..] == a[x + 1..];
      assert t != [] ==> t[1..] == b[y + 1..];
      assert Dist(a[x'..], b[y'..]) == Dist(s, t) - 1;
      Joined(a, b, x', y');
      if right {
        assert a[..x'] == a[..x] + [a[x]] && b[..y] == b[..y] + [];
        Subadditive(a[..x], b[..y], [a[x]], []);
      } else {
        assert b[..y'] == b[..y] + [b[y]] && a[..x] == a[..x] + [];
        Subadditive(a[..x], b[..y], [], [b[y]]);
      }
    }
  }

  /** A matching pair of units stays on the path at no cost. */
  lemma Stretch(a: Text, b: Text, x: nat, y: nat)
    requires x < |a| && y < |b| && a[x] == b[y]
    ensures Dist(a[..x + 1], b[..y + 1]) == Dist(a[..x], b[..y])
    ensures Dist(a[x + 1..], b[y + 1..]) == Dist(a[x..], b[y..])
  {
    DistLast(a[..x + 1], b[..y + 1]);
    assert a[..x + 1][..x] == a[..x] && b[..y + 1][..y] == b[..y];
    assert a[x..][1..] == a[x + 1..] && b[y..][1..] == b[y + 1..];
  }

  lemma BackOne(a: Text, b: Text, x: nat, y: nat, c: nat)
    requires OnPath(a, b, x, y, c) && x > 0 && y > 0 && a[x - 1] == b[y - 1]
    ensures OnPath(a, b, x - 1, y - 1, c)
  {
    Stretch(a, b, x - 1, y - 1);
  }

  /** Walking back from a path point along its diagonal leads to the edit that
      brought the path there: a step right from (px, py), or a step down. */
  lemma {:induction false} PreviousPoint(a: Text, b: Text, x: nat, y: nat, c: nat) returns (x0: nat, y0: nat, right: bool)
    requires OnPath(a, b, x, y, c) && c >= 1
    ensures x0 <= x && y0 <= y && x - y == x0 - y0
    ensures forall i :: x0 <= i < x ==> a[i] == b[i - x + y]
    ensures if right then OnPath(a, b, x0 - 1, y0, c - 1) else OnPath(a, b, x0, y0 - 1, c - 1)
    decreases x
  {
    hide Dist;
    if x > 0 && y > 0 && a[x - 1] == b[y - 1] {
      BackOne(a, b, x, y, c);
      x0, y0, right := PreviousPoint(a, b, x - 1, y - 1, c);
    } else {
      x0, y0 := x, y;
      right := EditBefore(a, b, x, y, c);
    }
  }

  lemma EditBefore(a: Text, b: Text, x: nat, y: nat, c: nat) returns (right: bool)
    requires OnPath(a, b, x, y, c) && c >= 1
    requires x == 0 || y == 0 || a[x - 1] != b[y - 1]
    ensures if right then OnPath(a, b, x - 1, y, c - 1) else OnPath(a, b, x, y - 1, c - 1)
  {
    if x > 0 && y > 0 {
      DistLast(a[..x], b[..y]);
      assert a[..x][..x - 1] == a[..x - 1] && b[..y][..y - 1] == b[..y - 1];
    }
    right := x > 0 && Dist(a[..x - 1], b[..y]) == c - 1;
    if right {
      assert a[x - 1..][1..] == a[x..];
      DropLeft(a[x - 1..], b[y..]);
      Joined(a, b, x - 1, y);
    } else {
      assert b[y - 1..][1..] == b[y..];
      DropRight(a[x..], b[y - 1..]);
      Joined(a, b, x, y - 1);
    }
  }
}
