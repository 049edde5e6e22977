/** Line breaks, and what a text may have lost on its way through a dictionary that wraps around:
    it is the text itself, or it falls behind it in line breaks or, where these agree, in the length of a line. */
module LineBreaks {
  import opened Texts

  const NewLine: Unit := 10

  function Newlines(s: Text): nat {
    if s == [] then 0 else (if s[0] == NewLine then 1 else 0) + Newlines(s[1..])
  }

  predicate Ended(s: Text) {
    s != [] && s[|s| - 1] == NewLine
  }

  /** How many units follow the last line break. */
  function Tail(s: Text): nat {
    if s == [] || Ended(s) then 0 else 1 + Tail(s[..|s| - 1])
  }

  lemma {:induction false} NewlinesConcat(s: Text, t: Text)
    ensures Newlines(s + t) == Newlines(s) + Newlines(t)
  {
    if s == [] {
      assert s + t == t;
    } else {
      assert (s + t)[1..] == s[1..] + t;
      NewlinesConcat(s[1..], t);
    }
  }

  lemma NoNewlines()
    ensures Newlines([]) == 0
  {
  }

  lemma {:induction false} NewlinesInit(t: Text)
    requires t != []
    ensures Newlines(t) == Newlines(t[..|t| - 1]) + if Ended(t) then 1 else 0
  {
    var x := t[|t| - 1];
    assert t == t[..|t| - 1] + [x] && [x][1..] == [];
    NewlinesConcat(t[..|t| - 1], [x]);
  }

  lemma {:induction false} TailConcat(s: Text, t: Text)
    ensures Tail(s + t) == if Newlines(t) == 0 then Tail(s) + |t| else Tail(t)
    decreases |t|
  {
    hide Newlines;
    if t == [] {
      assert s + t == s;
      NoNewlines();
    } else {
      NewlinesInit(t);
      assert (s + t)[..|s + t| - 1] == s + t[..|t| - 1];
      if !Ended(t) {
        TailConcat(s, t[..|t| - 1]);
      }
    }
  }

  /** From the line that is `h` units before the end of both texts on they are the same; that line is shorter in `x`. */
  ghost predicate ShorterLine(a: Text, x: Text, h: nat) {
    && h <= |a| && h <= |x| && a[|a| - h..] == x[|x| - h..]
    && Newlines(a[..|a| - h]) == Newlines(x[..|x| - h]) && Tail(x[..|x| - h]) < Tail(a[..|a| - h])
  }

  /** `x` falls behind `a`. */
  ghost predicate Behind(a: Text, x: Text) {
    Newlines(x) < Newlines(a) || exists h :: ShorterLine(a, x, h)
  }

  /** What `a` may have become. */
  ghost predicate KeptOrBehind(a: Text, x: Text) {
    x == a || Behind(a, x)
  }

  lemma BehindDiffers(a: Text, x: Text)
    requires Behind(a, x)
    ensures a != x
  {
  }

  /** Two texts in two parts with as many line breaks behind the cut. */
  lemma {:induction false} ShorterAt(u: Text, v: Text, q: Text)
    requires Newlines(u) == Newlines(v) && Tail(v) < Tail(u)
    ensures ShorterLine(u + q, v + q, |q|)
  {
    hide Newlines, Tail;
    assert (u + q)[..|u + q| - |q|] == u && (v + q)[..|v + q| - |q|] == v;
  }

  lemma {:induction false} ShorterParts(a: Text, x: Text, h: nat) returns (u: Text, v: Text, q: Text)
    requires ShorterLine(a, x, h)
    ensures a == u + q && x == v + q && Newlines(u) == Newlines(v) && Tail(v) < Tail(u) && Newlines(a) == Newlines(x)
    ensures Tail(x) <= Tail(a)
  {
    hide Newlines, Tail;
    u, v, q := a[..|a| - h], x[..|x| - h], a[|a| - h..];
    NewlinesConcat(u, q);
    NewlinesConcat(v, q);
    TailConcat(u, q);
    TailConcat(v, q);
  }

  /** Falling behind survives what follows. */
  lemma {:induction false} BehindBefore(a: Text, x: Text, q: Text)
    requires KeptOrBehind(a, x)
    ensures KeptOrBehind(a + q, x + q) && (Behind(a, x) ==> Behind(a + q, x + q))
  {
    hide Newlines, Tail, ShorterLine;
    NewlinesConcat(a, q);
    NewlinesConcat(x, q);
    if h :| ShorterLine(a, x, h) {
      var u, v, r := ShorterParts(a, x, h);
      ShorterAt(u, v, r + q);
      assert u + (r + q) == a + q && v + (r + q) == x + q;
    }
  }

  /** Falling behind survives what comes before, even if that falls behind, too. */
  lemma {:induction false} BehindAfter(p: Text, o: Text, a: Text, x: Text)
    requires KeptOrBehind(p, o) && Behind(a, x)
    ensures Behind(p + a, o + x)
  {
    hide Newlines, Tail, ShorterLine;
    NewlinesConcat(p, a);
    NewlinesConcat(o, x);
    NoMoreLines(p, o);
    if h :| ShorterLine(a, x, h) {
      var u, v, r := ShorterParts(a, x, h);
      if Newlines(p) == Newlines(o) {
        NewlinesConcat(p, u);
        NewlinesConcat(o, v);
        TailConcat(p, u);
        TailConcat(o, v);
        NoNewlinesTail(u);
        NoNewlinesTail(v);
        ShorterAt(p + u, o + v, r);
        assert p + u + r == p + a && o + v + r == o + x;
      }
    }
  }

  lemma {:induction false} NoMoreLines(a: Text, x: Text)
    requires KeptOrBehind(a, x)
    ensures Newlines(x) <= Newlines(a)
    ensures Newlines(x) == Newlines(a) ==> Tail(x) <= Tail(a)
  {
    hide Newlines, Tail, ShorterLine;
    if h :| ShorterLine(a, x, h) {
      var u, v, r := ShorterParts(a, x, h);
    }
  }

  lemma {:induction false} NoNewlinesTail(t: Text)
    ensures Newlines(t) == 0 ==> Tail(t) == |t|
  {
    hide Newlines;
    TailConcat([], t);
    assert [] + t == t;
  }

  /** Parts that are kept or fall behind cannot make up for each other: the whole is right only if both are. */
  lemma {:induction false} NoMakingUp(a: Text, x: Text, m: Text, b: Text, y: Text)
    requires KeptOrBehind(a, x) && KeptOrBehind(b, y)
    ensures KeptOrBehind(a + m + b, x + m + y)
    ensures x + m + y == a + m + b <==> x == a && y == b
  {
    hide Behind;
    BehindBefore(a, x, m);
    if y == b {
      BehindBefore(a + m, x + m, b);
    } else {
      BehindAfter(a + m, x + m, b, y);
    }
    if x != a || y != b {
      BehindDiffers(a + m + b, x + m + y);
    }
  }

  lemma {:induction false} InContext(p: Text, a: Text, x: Text, q: Text)
    requires KeptOrBehind(a, x)
    ensures KeptOrBehind(p + a + q, p + x + q)
  {
    hide Behind;
    if x != a {
      BehindAfter(p, p, a, x);
      BehindBefore(p + a, p + x, q);
    }
  }
}
