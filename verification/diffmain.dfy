/** `diff_main` and the functions it recurses through. */
module DiffMain {
  import opened Texts
  import opened Clock
  import opened Common
  import opened Distance
  import opened Diffs
  import opened Merge
  import opened Lossless
  import opened Overlap
  import opened Semantic
  import opened HalfMatches
  import opened Bisect
  import opened LineBreaks
  import opened Lines

  /** The diff stands for the texts `a` and `b`. */
  ghost predicate Right(a: Text, b: Text, s: seq<Diff>) {
    Text1(s) == a && Text2(s) == b
  }

  /** A diff that edits as few units as possible. */
  ghost predicate Tight(a: Text, b: Text, s: seq<Diff>) {
    EditChars(s) == Dist(a, b)
  }

  const LineModeLimit := 100

  /** Line mode is off, or out of reach because a text is short, or harmless because there are few lines. */
  ghost predicate Plain(a: Text, b: Text, checklines: bool) {
    !checklines || |a| <= LineModeLimit || |b| <= LineModeLimit || Newlines(a) + Newlines(b) + 2 < Capacity
  }

  ghost predicate Contained(a: Text, b: Text) {
    if |a| > |b| then OccursIn(a, b) else OccursIn(b, a)
  }

  /** Texts without common ends get through: they never come to line mode, both parts beside their half
      match get through, or they have fewer than 65536 different lines. */
  ghost predicate SafeCore(timeout: real, a: Text, b: Text)
    decreases |a| + |b|, 0
  {
    || a == [] || b == [] || Contained(a, b) || |a| == 1 || |b| == 1
    || (var m := HalfMatchFor(timeout, a, b);
        if m.Match? then
          PartsShorter(timeout, a, b);
          Safe(timeout, m.a1, m.b1) && Safe(timeout, m.a2, m.b2)
        else
          |a| <= LineModeLimit || |b| <= LineModeLimit || DistinctLines(a, b) < Capacity)
  }

  /** The texts are equal, or get through without their common ends. */
  ghost predicate Safe(timeout: real, a: Text, b: Text)
    decreases |a| + |b|, 1
  {
    a == b || SafeCore(timeout, Core(a, a, b), Core(b, a, b))
  }

  lemma PartsShorter(timeout: real, a: Text, b: Text)
    ensures var m := HalfMatchFor(timeout, a, b);
            m.Match? ==> m.mid != [] && |m.a1| + |m.b1| < |a| + |b| && |m.a2| + |m.b2| < |a| + |b|
  {
    hide HasHalf;
    HalfMatchIsGood(timeout, a, b);
  }

  /** How many units a diff of texts without common ends edits at most, whatever the deadline: one text contained in the
      other is kept, and so is the middle of a half match; the rest may be replaced as a whole. */
  ghost function MostCore(timeout: real, a: Text, b: Text): nat
    decreases |a| + |b|, 0
  {
    if a == [] || b == [] then |a| + |b|
    else if Contained(a, b) then Max(|a| - |b|, |b| - |a|)
    else
      var m := HalfMatchFor(timeout, a, b);
      if |a| > 1 && |b| > 1 && m.Match? then
        PartsShorter(timeout, a, b);
        Most(timeout, m.a1, m.b1) + Most(timeout, m.a2, m.b2)
      else
        |a| + |b|
  }

  /** The same for any two texts: common ends are kept. */
  ghost function Most(timeout: real, a: Text, b: Text): nat
    decreases |a| + |b|, 1
  {
    if a == b then 0 else MostCore(timeout, Core(a, a, b), Core(b, a, b))
  }

  /** The first text is right or falls behind; if it is right, so does the second. */
  ghost predicate Honest(a: Text, b: Text, s: seq<Diff>) {
    KeptOrBehind(a, Text1(s)) && (Text1(s) == a ==> KeptOrBehind(b, Text2(s)))
  }

  /** What a diff of two texts is worth; `safe` says when line mode gets it right, `most` how many units it then edits at most. */
  ghost predicate Delivers(a: Text, b: Text, checklines: bool, timeout: real, deadline: Deadline, safe: bool, most: nat, hangs: bool, s: seq<Diff>) {
    && (!hangs && Right(a, b, s) <==> (checklines ==> safe))
    && (!hangs ==> Honest(a, b, s))
    && (!hangs && Right(a, b, s) ==> EditChars(s) <= most)
    && (timeout <= 0.0 && deadline.Never? && (!checklines || |a| <= LineModeLimit || |b| <= LineModeLimit) ==>
          Tight(a, b, s))
  }

  ghost predicate NoCommonEnds(a: Text, b: Text) {
    a == [] || b == [] || (a[0] != b[0] && a[|a| - 1] != b[|b| - 1])
  }

  // ----- what the recursion makes

  /** The shorter text occurs in the longer one at `k`: one edit on either side. */
  function AroundContained(op: Op, long: Text, short: Text, k: nat): seq<Diff>
    requires OccursAt(long, short, k)
  {
    [Diff(op, long[..k]), Diff(Equal, short), Diff(op, long[k + |short|..])]
  }

  /** What `diff_main` may make of two texts: how it depends on the clock is left open. */
  ghost predicate MainMakes(checklines: bool, timeout: real, deadline: Deadline, a: Text, b: Text, s: seq<Diff>)
    decreases if checklines then 2 else 0, |a| + |b|, 2
  {
    if a == b then s == EqualUnlessEmpty(a)
    else
      exists t :: ComputeMakes(checklines, timeout, deadline, Core(a, a, b), Core(b, a, b), t)
                  && s == Normalized(EqualUnlessEmpty(a[..Front(a, b)]) + t + EqualUnlessEmpty(a[|a| - Back(a, b)..]))
  }

  /** The same for `diff_compute_`: the short cuts, both sides of the half match, line mode, or bisection. */
  ghost predicate ComputeMakes(checklines: bool, timeout: real, deadline: Deadline, a: Text, b: Text, s: seq<Diff>)
    decreases if checklines then 2 else 0, |a| + |b|, 1
  {
    var long, short := if |a| > |b| then a else b, if |a| > |b| then b else a;
    var k := IndexOf(long, short, 0);
    var m := HalfMatchFor(timeout, a, b);
    if a == [] then s == [Diff(Insert, b)]
    else if b == [] then s == [Diff(Delete, a)]
    else if k != -1 then s == AroundContained(if |a| > |b| then Delete else Insert, long, short, k)
    else if |short| == 1 then s == [Diff(Delete, a), Diff(Insert, b)]
    else if m.Match? then
      PartsShorter(timeout, a, b);
      exists x, y :: MainMakes(checklines, timeout, deadline, m.a1, m.b1, x) && MainMakes(checklines, timeout, deadline, m.a2, m.b2, y)
                     && s == x + [Diff(Equal, m.mid)] + y
    else if checklines && LineModeLimit < |a| && LineModeLimit < |b| then
      exists w :: MadeByLines(a, b, timeout, deadline, w, s)
    else
      s == [Diff(Delete, a), Diff(Insert, b)] || exists i, j :: SplitMakes(timeout, deadline, a, b, i, j, s)
  }

  /** The two parts of a shortest path, which is split at a point that is no corner. */
  ghost predicate SplitMakes(timeout: real, deadline: Deadline, a: Text, b: Text, i: int, j: int, s: seq<Diff>)
    decreases 0, |a| + |b|, 0
  {
    && 0 <= i <= |a| && 0 <= j <= |b| && 0 < i + j < |a| + |b| && GoodSplit(a, b, i, j)
    && exists x, y :: MainMakes(false, timeout, deadline, a[..i], b[..j], x) && MainMakes(false, timeout, deadline, a[i..], b[j..], y) && s == x + y
  }

  const Terminator := Diff(Equal, [])

  /** The runs of edits of a list, each with the equality behind it. */
  function Woven(runs: seq<seq<Diff>>, eqs: seq<Diff>): seq<Diff>
    requires |runs| == |eqs|
  {
    if runs == [] then [] else Woven(runs[..|runs| - 1], eqs[..|eqs| - 1]) + runs[|runs| - 1] + [eqs[|eqs| - 1]]
  }

  /** The run `r` is compared again if it holds a deletion and an insertion, which gives `x`, and stays otherwise. */
  ghost predicate Recompared(timeout: real, deadline: Deadline, r: seq<Diff>, x: seq<Diff>)
    decreases 1, 0, 0
  {
    if Holds(r, Delete) && Holds(r, Insert) then
      var f, g := Text1(r), Text2(r);
      MainMakes(false, timeout, deadline, f, g, x) && Right(f, g, x) && Canonical(x) && EditChars(x) <= Most(timeout, f, g) && (timeout <= 0.0 && deadline.Never? ==> Tight(f, g, x))
    else
      x == r
  }

  /** The list `n` is the list `o`, cut at its equalities, with every run of edits compared again. */
  ghost predicate Rediffed(timeout: real, deadline: Deadline, o: seq<Diff>, n: seq<Diff>, runs: seq<seq<Diff>>, news: seq<seq<Diff>>, eqs: seq<Diff>)
    decreases 1, 0, 1
  {
    && |runs| == |news| == |eqs| && o == Woven(runs, eqs) && n == Woven(news, eqs)
    && forall k :: 0 <= k < |runs| ==> eqs[k].op == Equal && !Holds(runs[k], Equal) && Recompared(timeout, deadline, runs[k], news[k])
  }

  /** How line mode comes to its diff: the codes of the texts with their dictionary, the diff of the codes, the clean-up
      of that diff with the codes replaced by their lines, and the runs compared again. */
  datatype ByLines = ByLines(
    chars1: Text, chars2: Text, lines: seq<Text>, coded: seq<Diff>,
    chain: seq<seq<Diff>>, thinned: seq<Diff>, merged: seq<Diff>, cleaned: seq<Diff>,
    runs: seq<seq<Diff>>, news: seq<seq<Diff>>, eqs: seq<Diff>)

  /** The diff `s` of the texts `a` and `b` comes about in this way. */
  ghost predicate MadeByLines(a: Text, b: Text, timeout: real, deadline: Deadline, w: ByLines, s: seq<Diff>)
    decreases 1, 0, 2
  {
    && Table(w.lines) && ReadableDiff(w.coded, w.lines)
    && (DistinctLines(a, b) < Capacity ==> Encodes(w.chars1, w.lines, a) && Encodes(w.chars2, w.lines, b))
    && MainMakes(false, timeout, deadline, w.chars1, w.chars2, w.coded)
    && Right(w.chars1, w.chars2, w.coded) && EditChars(w.coded) <= Most(timeout, w.chars1, w.chars2)
    && (timeout <= 0.0 && deadline.Never? ==> Tight(w.chars1, w.chars2, w.coded))
    && CleanedUp(DecodeDiff(w.coded, w.lines), w.chain, w.thinned, w.merged, w.cleaned)
    && Rediffed(timeout, deadline, w.cleaned + [Terminator], s + [Terminator], w.runs, w.news, w.eqs)
  }

  ghost predicate Encodes(chars: Text, lines: seq<Text>, a: Text) {
    Readable(chars, lines) && Decode(chars, lines) == a
  }

  // ----- how much is edited at most

  lemma {:induction false} MostWithin(timeout: real, a: Text, b: Text)
    ensures Most(timeout, a, b) <= |a| + |b| - 2 * (Front(a, b) + Back(a, b))
    decreases |a| + |b|, 1
  {
    hide Front, Back, MostCore;
    if a != b {
      MostCoreWithin(timeout, Core(a, a, b), Core(b, a, b));
    } else {
      FrontOfSame(a);
    }
  }

  lemma {:induction false} FrontOfSame(a: Text)
    ensures Front(a, a) == |a| && Back(a, a) == 0
  {
  }

  /** The middle of a half match is kept. */
  lemma {:induction false} MostCoreWithin(timeout: real, a: Text, b: Text)
    ensures MostCore(timeout, a, b) <= |a| + |b|
    ensures var m := HalfMatchFor(timeout, a, b);
            m.Match? && |a| > 1 && |b| > 1 && !Contained(a, b) ==> MostCore(timeout, a, b) + 2 * |m.mid| <= |a| + |b|
    decreases |a| + |b|, 0
  {
    hide HalfMatchFor, Most, Contained, Front, Back, HasHalfMatch;
    var m := HalfMatchFor(timeout, a, b);
    if m.Match? {
      PartsShorter(timeout, a, b);
      HalfMatchIsGood(timeout, a, b);
      MostWithin(timeout, m.a1, m.b1);
      MostWithin(timeout, m.a2, m.b2);
    }
  }

  /** A text contained in another one is kept: that is still so without their common ends. */
  lemma {:induction false} ContainedKept(timeout: real, a: Text, b: Text)
    requires Contained(a, b)
    ensures Most(timeout, a, b) == Max(|a| - |b|, |b| - |a|) && Safe(timeout, a, b)
  {
    hide Front, Back;
    if a != b {
      var long, short := if |a| > |b| then a else b, if |a| > |b| then b else a;
      var k: nat :| OccursAt(long, short, k);
      ContainedCore(a, b, k);
    }
  }

  lemma {:induction false} ContainedCore(a: Text, b: Text, k: nat)
    requires OccursAt(if |a| > |b| then a else b, if |a| > |b| then b else a, k)
    ensures var a', b' := Core(a, a, b), Core(b, a, b);
            OccursAt(if |a'| > |b'| then a' else b', if |a'| > |b'| then b' else a', k)
  {
    hide Front, Back;
    var g, h := Front(a, b), Back(a, b);
    var long, short := if |a| > |b| then a else b, if |a| > |b| then b else a;
    CutInside(long, short, k, g, h);
  }

  lemma CutInside(long: Text, short: Text, k: nat, g: nat, h: nat)
    requires OccursAt(long, short, k) && g + h <= |short|
    ensures OccursAt(long[g..|long| - h], short[g..|short| - h], k)
  {
    var l, s := long[g..|long| - h], short[g..|short| - h];
    assert long[k..k + |short|] == short;
    forall i | 0 <= i < |s|
      ensures l[k + i] == s[i]
    {
      assert long[k..k + |short|][g + i] == long[k + g + i];
    }
  }

  // ----- few lines are safe

  lemma PartsPlain(p: Text, a: Text, s: Text, q: Text, b: Text, t: Text)
    ensures Plain(p + a + s, q + b + t, true) ==> Plain(a, b, true)
  {
    NewlinesConcat(p + a, s);
    NewlinesConcat(p, a);
    NewlinesConcat(q + b, t);
    NewlinesConcat(q, b);
  }

  /** Where line mode is out of reach, or the texts have few line breaks, they get through. */
  lemma {:induction false} PlainIsSafe(timeout: real, a: Text, b: Text)
    requires Plain(a, b, true)
    ensures Safe(timeout, a, b)
    decreases |a| + |b|, 1
  {
    hide Core, SafeCore, Plain, Front, Back;
    if a != b {
      CutEnds(a, b);
      var p, q := a[..Front(a, b)], a[|a| - Back(a, b)..];
      var a', b' := Core(a, a, b), Core(b, a, b);
      PartsPlain(p, a', q, p, b', q);
      assert |p + a' + q| == |p| + |a'| + |q| && |p + b' + q| == |p| + |b'| + |q|;
      PlainIsSafeCore(timeout, a', b');
    }
  }

  lemma {:induction false} PlainIsSafeCore(timeout: real, a: Text, b: Text)
    requires Plain(a, b, true)
    ensures SafeCore(timeout, a, b)
    decreases |a| + |b|, 0
  {
    hide Safe, Contained, HalfMatchFor, Newlines, DistinctLines, HasHalfMatch;
    var m := HalfMatchFor(timeout, a, b);
    HalfMatchIsGood(timeout, a, b);
    PartsShorter(timeout, a, b);
    FewLines(a, b);
    if m.Match? {
      MatchPlain(a, b, m);
      PlainIsSafe(timeout, m.a1, m.b1);
      PlainIsSafe(timeout, m.a2, m.b2);
    }
  }

  lemma MatchPlain(a: Text, b: Text, m: HalfMatch)
    requires GoodMatch(a, b, m) && Plain(a, b, true)
    ensures Plain(m.a1, m.b1, true) && Plain(m.a2, m.b2, true)
  {
    hide Newlines, Plain;
    PartsPlain([], m.a1, m.mid + m.a2, [], m.b1, m.mid + m.b2);
    PartsPlain(m.a1 + m.mid, m.a2, [], m.b1 + m.mid, m.b2, []);
    assert a == [] + m.a1 + (m.mid + m.a2) == m.a1 + m.mid + m.a2 + [];
    assert b == [] + m.b1 + (m.mid + m.b2) == m.b1 + m.mid + m.b2 + [];
  }

  // ----- the short cuts of diff_compute_

  /** Deleting and inserting everything. */
  lemma Replacement(a: Text, b: Text)
    ensures var s := [Diff(Delete, a), Diff(Insert, b)]; Right(a, b, s) && EditChars(s) == |a| + |b|
  {
    Pair(Diff(Delete, a), Diff(Insert, b));
    Single(Diff(Delete, a));
    Single(Diff(Insert, b));
  }

  lemma OccursParts(h: Text, n: Text, k: int)
    requires OccursAt(h, n, k)
    ensures h == h[..k] + n + h[k + |n|..]
  {
  }

  lemma AroundContainedTexts(op: Op, long: Text, short: Text, k: nat)
    requires OccursAt(long, short, k) && op != Equal
    ensures var s := AroundContained(op, long, short, k);
            && (if op == Delete then Right(long, short, s) else Right(short, long, s))
            && EditChars(s) == |long| - |short|
  {
    hide Text1, Text2, EditChars;
    var x, y, z := Diff(op, long[..k]), Diff(Equal, short), Diff(op, long[k + |short|..]);
    Triple(x, y, z);
    Single(x);
    Single(y);
    Single(z);
    OccursParts(long, short, k);
    assert [] + short + [] == short;
  }

  /** A unit that does not occur in a text cannot be kept. */
  lemma {:induction false} MissingUnit(a: Text, b: Text)
    requires |a| == 1 && forall i :: 0 <= i < |b| ==> b[i] != a[0]
    ensures Dist(a, b) == 1 + |b|
    decreases |b|
  {
    if b != [] {
      MissingUnit(a, b[1..]);
      assert a[1..] == [];
    }
  }

  lemma {:induction false} NotContained(a: Text, b: Text)
    requires a != [] && b != [] && (|a| == 1 || |b| == 1) && !Contained(a, b)
    ensures Dist(a, b) == |a| + |b|
  {
    var long, short := if |a| > |b| then a else b, if |a| > |b| then b else a;
    DistSymmetric(a, b);
    assert |short| == 1;
    forall i | 0 <= i < |long|
      ensures long[i] != short[0]
    {
      assert long[i..i + 1] == [long[i]] && short == [short[0]];
      assert !OccursAt(long, short, i);
    }
    MissingUnit(short, long);
  }

  // ----- putting results together

  lemma {:induction false} Around(a: Text, b: Text, s: seq<Diff>, t: seq<Diff>)
    requires var g, h := Front(a, b), Back(a, b);
             t == EqualUnlessEmpty(a[..g]) + s + EqualUnlessEmpty(a[|a| - h..])
    ensures Right(a, b, t) <==> Right(Core(a, a, b), Core(b, a, b), s)
    ensures Honest(Core(a, a, b), Core(b, a, b), s) ==> Honest(a, b, t)
    ensures EditChars(t) == EditChars(s)
    ensures Dist(a, b) == Dist(Core(a, a, b), Core(b, a, b))
  {
    hide Text1, Text2, EditChars, Core, Front, Back, EqualUnlessEmpty, Dist, KeptOrBehind;
    var p, q := a[..Front(a, b)], a[|a| - Back(a, b)..];
    BetweenEqualities(p, s, q);
    CutEnds(a, b);
    CommonEndsFree(p, Core(a, a, b), Core(b, a, b), q);
    SameMiddle(p, Text1(s), Core(a, a, b), q);
    SameMiddle(p, Text2(s), Core(b, a, b), q);
    if Honest(Core(a, a, b), Core(b, a, b), s) {
      InContext(p, Core(a, a, b), Text1(s), q);
      if Text1(s) == Core(a, a, b) {
        InContext(p, Core(b, a, b), Text2(s), q);
      }
    }
  }

  lemma {:induction false} BetweenEqualities(p: Text, s: seq<Diff>, q: Text)
    ensures var t := EqualUnlessEmpty(p) + s + EqualUnlessEmpty(q);
            Text1(t) == p + Text1(s) + q && Text2(t) == p + Text2(s) + q && EditChars(t) == EditChars(s)
  {
    EqualUnlessEmptyTexts(p);
    EqualUnlessEmptyTexts(q);
    NoEdits(p);
    NoEdits(q);
    hide Text1, Text2, EditChars, EqualUnlessEmpty;
    Concat3(EqualUnlessEmpty(p), s, EqualUnlessEmpty(q));
  }

  lemma NoEdits(p: Text)
    ensures EditChars(EqualUnlessEmpty(p)) == 0
  {
    if p != [] {
      Single(Diff(Equal, p));
    }
  }

  lemma SameMiddle(p: Text, x: Text, y: Text, q: Text)
    ensures p + x + q == p + y + q <==> x == y
  {
    if p + x + q == p + y + q {
      assert |x| == |y|;
      ThreeParts(p, x, q);
      ThreeParts(p, y, q);
    }
  }

  /** Merging keeps a tight diff tight. */
  lemma {:induction false} StillTight(a: Text, b: Text, s: seq<Diff>, t: seq<Diff>)
    requires SameTexts(t, s) && EditChars(t) <= EditChars(s) && Right(a, b, s) && Tight(a, b, s)
    ensures Tight(a, b, t)
  {
    EditsCoverDistance(t);
  }

  /** The diffs of the two parts beside a half match: the whole is right exactly when both are. */
  lemma {:induction false} JoinedAtMiddle(a: Text, b: Text, m: HalfMatch, s: seq<Diff>, t: seq<Diff>)
    requires GoodMatch(a, b, m) && Honest(m.a1, m.b1, s) && Honest(m.a2, m.b2, t)
    ensures var u := s + [Diff(Equal, m.mid)] + t;
            Honest(a, b, u) && (Right(a, b, u) <==> Right(m.a1, m.b1, s) && Right(m.a2, m.b2, t))
            && EditChars(u) == EditChars(s) + EditChars(t)
  {
    hide Text1, Text2, EditChars, KeptOrBehind, Max;
    Concat3(s, [Diff(Equal, m.mid)], t);
    Single(Diff(Equal, m.mid));
    NoMakingUp(m.a1, Text1(s), m.mid, m.a2, Text1(t));
    if Text1(s) == m.a1 && Text1(t) == m.a2 {
      NoMakingUp(m.b1, Text2(s), m.mid, m.b2, Text2(t));
    }
  }

  lemma RightIsHonest(a: Text, b: Text, s: seq<Diff>)
    requires Right(a, b, s)
    ensures Honest(a, b, s)
  {
  }

  lemma {:induction false} JoinedAtSplit(a: Text, b: Text, x: nat, y: nat, s: seq<Diff>, t: seq<Diff>)
    requires x <= |a| && y <= |b| && Right(a[..x], b[..y], s) && Right(a[x..], b[y..], t)
    ensures Right(a, b, s + t) && EditChars(s + t) == EditChars(s) + EditChars(t)
  {
    Concat(s, t);
    assert a == a[..x] + a[x..] && b == b[..y] + b[y..];
  }

  lemma {:induction false} SameText(a: Text, checklines: bool, timeout: real, deadline: Deadline)
    ensures var s := EqualUnlessEmpty(a);
            Delivers(a, a, checklines, timeout, deadline, Safe(timeout, a, a), Most(timeout, a, a), false, s) && Canonical(s)
  {
    EqualUnlessEmptyTexts(a);
    assert EditChars(EqualUnlessEmpty(a)) == 0;
    DistSame(a);
  }

  lemma {:induction false} Trimmed(a: Text, b: Text, f: nat, f': nat, x: Text, y: Text)
    requires f == Lcp(a, b) && x == a[f..] && y == b[f..] && f' == Lcs(x, y)
    ensures f == Front(a, b) && f' == Back(a, b) && f' <= |x| <= |a| && f' <= |y| <= |b|
    ensures x[..|x| - f'] == Core(a, a, b) && y[..|y| - f'] == Core(b, a, b)
    ensures x[|x| - f'..] == a[|a| - f'..]
    ensures NoCommonEnds(Core(a, a, b), Core(b, a, b))
  {
    hide Lcp, Lcs;
    CoresDiffer(a, b);
    CoreIs(a, a, b, f, f');
    CoreIs(b, a, b, f, f');
    hide Core, Front, Back;
    DropDrop(a, f, f', x);
    DropDrop(b, f, f', y);
  }

  lemma CoreIs(s: Text, a: Text, b: Text, f: nat, f': nat)
    requires (s == a || s == b) && f == Front(a, b) && f' == Back(a, b)
    ensures Core(s, a, b) == s[f..|s| - f']
  {
    hide Lcp, Lcs;
  }

  /** From the diff of the cores to the diff of the whole texts. */
  lemma {:induction false} WholeDelivers(a: Text, b: Text, checklines: bool, timeout: real, deadline: Deadline, hangs: bool, s: seq<Diff>, t: seq<Diff>, u: seq<Diff>)
    requires a != b
    requires var a', b' := Core(a, a, b), Core(b, a, b);
             && Delivers(a', b', checklines, timeout, deadline, SafeCore(timeout, a', b'), MostCore(timeout, a', b'), hangs, s)
             && (!hangs ==>
                   && (Right(a, b, t) <==> Right(a', b', s)) && (Honest(a', b', s) ==> Honest(a, b, t))
                   && EditChars(t) == EditChars(s) && Dist(a, b) == Dist(a', b')
                   && SameTexts(u, t) && EditChars(u) <= EditChars(t))
    ensures Delivers(a, b, checklines, timeout, deadline, Safe(timeout, a, b), Most(timeout, a, b), hangs, u)
  {
    hide Lcp, Lcs, Core, Text1, Text2, EditChars, Dist, SafeCore, MostCore, KeptOrBehind;
    var a', b' := Core(a, a, b), Core(b, a, b);
    CutEnds(a, b);
    assert |a'| <= |a| && |b'| <= |b|;
    if timeout <= 0.0 && deadline.Never? && (!checklines || |a| <= LineModeLimit || |b| <= LineModeLimit) {
      ShortIsSafe(timeout, a', b');
      StillTight(a, b, t, u);
    }
  }

  lemma {:induction false} ShortIsSafe(timeout: real, a: Text, b: Text)
    ensures timeout <= 0.0 && (|a| <= LineModeLimit || |b| <= LineModeLimit) ==> SafeCore(timeout, a, b)
  {
    hide Contained, DistinctLines, Safe, OccursIn;
  }

  // ----- the recursion

  /** Cuts off what the texts share at the front and, of the rest, at the back. */
  method TrimEnds(a: Text, b: Text) returns (c: Text, a': Text, b': Text, g: Text)
    ensures c == a[..Front(a, b)] && g == a[|a| - Back(a, b)..]
    ensures a' == Core(a, a, b) && b' == Core(b, a, b) && |a'| + |b'| <= |a| + |b|
    ensures NoCommonEnds(a', b')
  {
    hide Lcp, Lcs, Front, Back, Core, NoCommonEnds;
    var f := CommonPrefix(a, b);
    c, a', b' := a[..f], a[f..], b[f..];
    var f' := CommonSuffix(a', b');
    Trimmed(a, b, f, f', a', b');
    g := a'[|a'| - f'..];
    a', b' := a'[..|a'| - f'], b'[..|b'| - f'];
  }

  /** `diff_main`. Without line mode the diff is right, with line mode exactly where that is safe, whatever the
      deadline; with no time limit and without line mode it is shortest. */
  method MainDiff(a: Text, b: Text, checklines: bool, timeout: real, deadline: Deadline) returns (d: DiffList, hangs: bool)
    ensures fresh(d)
    ensures Delivers(a, b, checklines, timeout, deadline, Safe(timeout, a, b), Most(timeout, a, b), hangs, d.s)
    ensures !hangs ==> Canonical(d.s) && MainMakes(checklines, timeout, deadline, a, b, d.s)
    decreases if checklines then 1 else 0, |a| + |b|, 4
  {
    hide Text1, Text2, EditChars, Dist, Canonical, Right, Delivers, Safe, SafeCore, Most, MostCore, ComputeMakes, EqualUnlessEmpty, Normalized, Lcp, Lcs, Front, Back, Core;
    hangs := false;
    if a == b {
      d := new DiffList(if a != [] then [Diff(Equal, a)] else []);
      EqualUnlessEmptyIs(a);
      SameText(a, checklines, timeout, deadline);
      return;
    }
    var c, a', b', g := TrimEnds(a, b);
    d, hangs := Compute(a', b', checklines, timeout, deadline);
    ghost var s := d.s;
    if hangs {
      WholeDelivers(a, b, checklines, timeout, deadline, hangs, s, s, s);
      return;
    }
    if c != [] {
      d.s := [Diff(Equal, c)] + d.s;
    }
    if g != [] {
      d.s := d.s + [Diff(Equal, g)];
    }
    ghost var t := d.s;
    EqualUnlessEmptyIs(c);
    EqualUnlessEmptyIs(g);
    assert t == EqualUnlessEmpty(c) + s + EqualUnlessEmpty(g);
    Around(a, b, s, t);
    CleanupMerge(d);
    WholeDelivers(a, b, checklines, timeout, deadline, hangs, s, t, d.s);
  }

  lemma EqualUnlessEmptyIs(t: Text)
    ensures EqualUnlessEmpty(t) == if t != [] then [Diff(Equal, t)] else []
  {
  }

  lemma {:induction false} ShortcutDelivers(a: Text, b: Text, checklines: bool, timeout: real, deadline: Deadline, s: seq<Diff>)
    requires SafeCore(timeout, a, b) && Right(a, b, s) && EditChars(s) <= Dist(a, b) && EditChars(s) <= MostCore(timeout, a, b)
    ensures Delivers(a, b, checklines, timeout, deadline, SafeCore(timeout, a, b), MostCore(timeout, a, b), false, s)
  {
    hide SafeCore, MostCore, KeptOrBehind;
    RightIsHonest(a, b, s);
    EditsCoverDistance(s);
  }

  lemma {:induction false} SingleIsSafe(timeout: real, a: Text, b: Text)
    requires |a| == 1 || |b| == 1
    ensures SafeCore(timeout, a, b)
    ensures a != [] && b != [] && !Contained(a, b) ==> MostCore(timeout, a, b) == |a| + |b|
  {
  }

  /** No diff edits more than both of its texts. */
  lemma {:induction false} EditsWithin(s: seq<Diff>)
    ensures EditChars(s) <= |Text1(s)| + |Text2(s)|
  {
    if s != [] {
      EditsWithin(s[1..]);
    }
  }

  lemma ContainedIffFound(a: Text, b: Text)
    ensures var long, short := if |a| > |b| then a else b, if |a| > |b| then b else a;
            Contained(a, b) <==> IndexOf(long, short, 0) != -1
  {
  }

  /** `diff_compute_`: the short cuts, then half match, line mode or bisection. */
  method Compute(a: Text, b: Text, checklines: bool, timeout: real, deadline: Deadline) returns (d: DiffList, hangs: bool)
    requires NoCommonEnds(a, b)
    ensures fresh(d)
    ensures Delivers(a, b, checklines, timeout, deadline, SafeCore(timeout, a, b), MostCore(timeout, a, b), hangs, d.s)
    ensures !hangs ==> ComputeMakes(checklines, timeout, deadline, a, b, d.s)
    decreases if checklines then 1 else 0, |a| + |b|, 3
  {
    hide Text1, Text2, EditChars, Dist, Right, Delivers, Contained, IndexOf, DistinctLines, SafeCore, Safe, MostCore, Most, HalfMatchFor, HasHalf, GoodMatch, MainMakes, MadeByLines, SplitMakes;
    hangs := false;
    LengthBound(a, b);
    if a == [] {
      d := new DiffList([Diff(Insert, b)]);
      OneSidedDelivers(a, b, checklines, timeout, deadline);
      return;
    }
    if b == [] {
      d := new DiffList([Diff(Delete, a)]);
      OneSidedDelivers(a, b, checklines, timeout, deadline);
      return;
    }
    var long, short := if |a| > |b| then a else b, if |a| > |b| then b else a;
    var g := IndexOf(long, short, 0);
    ContainedIffFound(a, b);
    if g != -1 {
      var op := if |a| > |b| then Delete else Insert;
      d := new DiffList([Diff(op, long[..g]), Diff(Equal, short), Diff(op, long[g + |short|..])]);
      ContainedDelivers(a, b, op, g, checklines, timeout, deadline);
      return;
    }
    if |short| == 1 {
      d := new DiffList([Diff(Delete, a), Diff(Insert, b)]);
      Replacement(a, b);
      NotContained(a, b);
      SingleIsSafe(timeout, a, b);
      ShortcutDelivers(a, b, checklines, timeout, deadline, d.s);
      return;
    }
    var m := HalfMatchOf(timeout, a, b);
    if m.Match? {
      PartsShorter(timeout, a, b);
      SafeAtMatch(timeout, a, b, m);
      d, hangs := AtHalfMatch(a, b, m, checklines, timeout, deadline);
    } else if checklines && LineModeLimit < |a| && LineModeLimit < |b| {
      ghost var w;
      d, hangs, w := LineMode(a, b, timeout, deadline);
      LineModeDelivers(a, b, timeout, deadline, hangs, d.s);
    } else {
      d := Bisection(a, b, timeout, deadline);
      BisectionDelivers(a, b, checklines, timeout, deadline, d.s);
    }
  }

  lemma {:induction false} OneSidedDelivers(a: Text, b: Text, checklines: bool, timeout: real, deadline: Deadline)
    requires a == [] || b == []
    ensures a == [] ==> Delivers(a, b, checklines, timeout, deadline, SafeCore(timeout, a, b), MostCore(timeout, a, b), false, [Diff(Insert, b)])
    ensures b == [] ==> Delivers(a, b, checklines, timeout, deadline, SafeCore(timeout, a, b), MostCore(timeout, a, b), false, [Diff(Delete, a)])
  {
    Single(Diff(Insert, b));
    Single(Diff(Delete, a));
  }

  lemma {:induction false} ContainedDelivers(a: Text, b: Text, op: Op, k: nat, checklines: bool, timeout: real, deadline: Deadline)
    requires op == if |a| > |b| then Delete else Insert
    requires OccursAt(if |a| > |b| then a else b, if |a| > |b| then b else a, k)
    ensures var long, short := if |a| > |b| then a else b, if |a| > |b| then b else a;
            Delivers(a, b, checklines, timeout, deadline, SafeCore(timeout, a, b), MostCore(timeout, a, b), false, AroundContained(op, long, short, k))
  {
    hide EditChars, Dist, Text1, Text2, Delivers;
    var long, short := if |a| > |b| then a else b, if |a| > |b| then b else a;
    AroundContainedTexts(op, long, short, k);
    LengthBound(a, b);
    ContainedMost(timeout, a, b, k);
    ShortcutDelivers(a, b, checklines, timeout, deadline, AroundContained(op, long, short, k));
  }

  lemma {:induction false} ContainedMost(timeout: real, a: Text, b: Text, k: nat)
    requires OccursAt(if |a| > |b| then a else b, if |a| > |b| then b else a, k)
    ensures Contained(a, b) && MostCore(timeout, a, b) == Max(|a| - |b|, |b| - |a|)
  {
  }

  lemma {:induction false} LineModeDelivers(a: Text, b: Text, timeout: real, deadline: Deadline, hangs: bool, s: seq<Diff>)
    requires !hangs && Right(a, b, s) <==> DistinctLines(a, b) < Capacity
    requires !hangs ==> Honest(a, b, s)
    requires |a| > LineModeLimit && |b| > LineModeLimit && !Contained(a, b) && HalfMatchFor(timeout, a, b).NoMatch?
    ensures Delivers(a, b, true, timeout, deadline, SafeCore(timeout, a, b), MostCore(timeout, a, b), hangs, s)
  {
    hide Text1, Text2, EditChars, Dist, DistinctLines, Honest, Contained, HalfMatchFor;
    EditsWithin(s);
  }

  lemma {:induction false} BisectionDelivers(a: Text, b: Text, checklines: bool, timeout: real, deadline: Deadline, s: seq<Diff>)
    requires Right(a, b, s) && (timeout <= 0.0 && deadline.Never? ==> Tight(a, b, s))
    requires a != [] && b != [] && !Contained(a, b) && HalfMatchFor(timeout, a, b).NoMatch? && (checklines ==> |a| <= LineModeLimit || |b| <= LineModeLimit)
    ensures Delivers(a, b, checklines, timeout, deadline, SafeCore(timeout, a, b), MostCore(timeout, a, b), false, s)
  {
    hide HalfMatchFor, KeptOrBehind;
    RightIsHonest(a, b, s);
    EditsWithin(s);
  }

  /** Once neither text is short or contained in the other, and they have a half match, both parts are to get through. */
  lemma {:induction false} SafeAtMatch(timeout: real, a: Text, b: Text, m: HalfMatch)
    requires m == HalfMatchFor(timeout, a, b) && m.Match? && |a| > 1 && |b| > 1 && !Contained(a, b)
    ensures SafeCore(timeout, a, b) <==> Safe(timeout, m.a1, m.b1) && Safe(timeout, m.a2, m.b2)
    ensures MostCore(timeout, a, b) == Most(timeout, m.a1, m.b1) + Most(timeout, m.a2, m.b2)
  {
    hide Contained, HalfMatchFor, Safe, Most;
  }

  /** The two sides of a half match, one after the other. */
  method AtHalfMatch(a: Text, b: Text, m: HalfMatch, checklines: bool, timeout: real, deadline: Deadline) returns (d: DiffList, hangs: bool)
    requires GoodMatch(a, b, m) && m.mid != [] && timeout > 0.0
    ensures fresh(d)
    ensures Delivers(a, b, checklines, timeout, deadline, Safe(timeout, m.a1, m.b1) && Safe(timeout, m.a2, m.b2), Most(timeout, m.a1, m.b1) + Most(timeout, m.a2, m.b2), hangs, d.s)
    ensures !hangs ==> exists x, y :: MainMakes(checklines, timeout, deadline, m.a1, m.b1, x) && MainMakes(checklines, timeout, deadline, m.a2, m.b2, y)
                                      && d.s == x + [Diff(Equal, m.mid)] + y
    decreases if checklines then 1 else 0, |a| + |b|, 1
  {
    hide Text1, Text2, EditChars, Dist, Right, SafeCore, Safe, Canonical, Honest, Tight, Most, Max, MainMakes;
    assert |a| == |m.a1| + |m.mid| + |m.a2| && |b| == |m.b1| + |m.mid| + |m.b2|;
    d, hangs := MainDiff(m.a1, m.b1, checklines, timeout, deadline);
    if hangs {
      return;
    }
    var c;
    c, hangs := MainDiff(m.a2, m.b2, checklines, timeout, deadline);
    if hangs {
      return;
    }
    JoinedAtMiddle(a, b, m, d.s, c.s);
    d := new DiffList(d.s + [Diff(Equal, m.mid)] + c.s);
  }

  /** `diff_bisect_` with `diff_bisectSplit_`: the two parts of a shortest path, or everything replaced. */
  method Bisection(a: Text, b: Text, timeout: real, deadline: Deadline) returns (d: DiffList)
    requires NoCommonEnds(a, b) && |a| >= 2 && |b| >= 2
    ensures fresh(d) && Right(a, b, d.s)
    ensures timeout <= 0.0 && deadline.Never? ==> Tight(a, b, d.s)
    ensures d.s == [Diff(Delete, a), Diff(Insert, b)] || exists i, j :: SplitMakes(timeout, deadline, a, b, i, j, d.s)
    decreases 0, |a| + |b|, 1
  {
    hide Text1, Text2, EditChars, Dist, Right, SafeCore, Safe, Newlines, Canonical, MainMakes;
    var found, x, y := FindSplit(a, b, deadline);
    if found {
      var hangs;
      d, hangs := MainDiff(a[..x], b[..y], false, timeout, deadline);
      var c;
      c, hangs := MainDiff(a[x..], b[y..], false, timeout, deadline);
      JoinedAtSplit(a, b, x, y, d.s, c.s);
      d := new DiffList(d.s + c.s);
      assert SplitMakes(timeout, deadline, a, b, x, y, d.s);
    } else {
      d := new DiffList([Diff(Delete, a), Diff(Insert, b)]);
      Replacement(a, b);
    }
  }

  // ----- line mode

  lemma {:induction false} WovenMore(runs: seq<seq<Diff>>, eqs: seq<Diff>, r: seq<Diff>, q: Diff)
    requires |runs| == |eqs|
    ensures Woven(runs + [r], eqs + [q]) == Woven(runs, eqs) + r + [q]
  {
    assert (runs + [r])[..|runs|] == runs && (eqs + [q])[..|eqs|] == eqs;
  }

  lemma {:induction false} RediffedMore(timeout: real, deadline: Deadline, o: seq<Diff>, n: seq<Diff>, runs: seq<seq<Diff>>, news: seq<seq<Diff>>, eqs: seq<Diff>,
                                        r: seq<Diff>, x: seq<Diff>, q: Diff)
    requires Rediffed(timeout, deadline, o, n, runs, news, eqs) && q.op == Equal && !Holds(r, Equal) && Recompared(timeout, deadline, r, x)
    ensures Rediffed(timeout, deadline, o + r + [q], n + x + [q], runs + [r], news + [x], eqs + [q])
  {
    hide Recompared, Holds, Woven;
    WovenMore(runs, eqs, r, q);
    WovenMore(news, eqs, x, q);
  }

  /** No two edits of one run have a unit in common. */
  ghost predicate RunsShareNothing(s: seq<Diff>) {
    forall i, k :: 0 <= i <= k <= |s| && !Holds(s[i..k], Equal) ==> ShareNothing(s[i..k])
  }

  /** Deleting the one text and inserting the other is as short as it gets. */
  ghost predicate ShareNothing(s: seq<Diff>) {
    Dist(Text1(s), Text2(s)) == |Text1(s)| + |Text2(s)|
  }

  /** A stretch of a tight diff is tight. */
  lemma {:induction false} TightInside(s: seq<Diff>, i: nat, k: nat)
    requires i <= k <= |s| && EditChars(s) <= Dist(Text1(s), Text2(s))
    ensures EditChars(s[i..k]) == Dist(Text1(s[i..k]), Text2(s[i..k]))
  {
    hide Text1, Text2, EditChars, Dist;
    var u, v, w := s[..i], s[i..k], s[k..];
    assert s == u + v + w;
    Concat3(u, v, w);
    Subadditive(Text1(u) + Text1(v), Text2(u) + Text2(v), Text1(w), Text2(w));
    Subadditive(Text1(u), Text2(u), Text1(v), Text2(v));
    EditsCoverDistance(u);
    EditsCoverDistance(v);
    EditsCoverDistance(w);
  }

  lemma {:induction false} RunTotals(s: seq<Diff>)
    requires !Holds(s, Equal)
    ensures EditChars(s) == |Text1(s)| + |Text2(s)|
    ensures !Holds(s, Delete) ==> Text1(s) == []
    ensures !Holds(s, Insert) ==> Text2(s) == []
  {
    if s != [] {
      RestHolds(s);
      assert Holds(s, s[0].op);
      RunTotals(s[1..]);
    }
  }

  lemma RestHolds(s: seq<Diff>)
    requires s != []
    ensures forall op :: Holds(s[1..], op) ==> Holds(s, op)
  {
    forall op | Holds(s[1..], op)
      ensures Holds(s, op)
    {
      var i :| 0 <= i < |s[1..]| && s[1..][i].op == op;
      assert s[i + 1].op == op;
    }
  }

  lemma StretchHolds(s: seq<Diff>, i: nat, k: nat, op: Op)
    requires i <= k <= |s| && Holds(s[i..k], op)
    ensures Holds(s, op)
  {
    var m :| 0 <= m < |s[i..k]| && s[i..k][m].op == op;
    assert s[i + m].op == op;
  }

  /** With no time limit, what a run has become shares nothing. */
  lemma {:induction false} RecomparedShares(timeout: real, deadline: Deadline, r: seq<Diff>, x: seq<Diff>, i: nat, k: nat)
    requires Recompared(timeout, deadline, r, x) && !Holds(r, Equal) && timeout <= 0.0 && deadline.Never?
    requires i <= k <= |x| && !Holds(x[i..k], Equal)
    ensures ShareNothing(x[i..k])
  {
    hide Text1, Text2, EditChars, Dist, Canonical, Most, Holds, MainMakes;
    RunTotals(x[i..k]);
    if Holds(r, Delete) && Holds(r, Insert) {
      TightInside(x, i, k);
    } else {
      var v := x[i..k];
      if Holds(v, Delete) {
        StretchHolds(x, i, k, Delete);
      }
      if Holds(v, Insert) {
        StretchHolds(x, i, k, Insert);
      }
      LengthBound(Text1(v), Text2(v));
    }
  }

  /** With no time limit, no two edits of a run have a unit in common after the runs have been compared again. */
  lemma {:induction false} RediffedShares(timeout: real, deadline: Deadline, o: seq<Diff>, n: seq<Diff>, runs: seq<seq<Diff>>, news: seq<seq<Diff>>, eqs: seq<Diff>)
    requires Rediffed(timeout, deadline, o, n, runs, news, eqs) && timeout <= 0.0 && deadline.Never?
    ensures RunsShareNothing(n)
    decreases |runs|
  {
    hide ShareNothing, Recompared, RunsShareNothing, Holds;
    if runs == [] {
      NothingShared();
    } else {
      var l := |runs| - 1;
      var o', n', x := Woven(runs[..l], eqs[..l]), Woven(news[..l], eqs[..l]), news[l];
      assert Rediffed(timeout, deadline, o', n', runs[..l], news[..l], eqs[..l]);
      RediffedShares(timeout, deadline, o', n', runs[..l], news[..l], eqs[..l]);
      EndsEqual(news[..l], eqs[..l]);
      forall i, k | 0 <= i <= k <= |x| && !Holds(x[i..k], Equal)
        ensures ShareNothing(x[i..k])
      {
        RecomparedShares(timeout, deadline, runs[l], x, i, k);
      }
      assert RunsShareNothing(x) by { SharesEverywhere(x); }
      SharesOneMore(n', x, eqs[l]);
    }
  }

  lemma SharesEverywhere(s: seq<Diff>)
    requires forall i, k :: 0 <= i <= k <= |s| && !Holds(s[i..k], Equal) ==> ShareNothing(s[i..k])
    ensures RunsShareNothing(s)
  {
    hide ShareNothing, Holds;
  }

  lemma SharesOneMore(p: seq<Diff>, x: seq<Diff>, q: Diff)
    requires RunsShareNothing(p) && RunsShareNothing(x)
    requires q.op == Equal && (p == [] || p[|p| - 1].op == Equal)
    ensures RunsShareNothing(p + x + [q])
  {
    hide ShareNothing, Holds;
    var n := p + x + [q];
    NothingShared();
    forall i, k | 0 <= i <= k <= |n| && !Holds(n[i..k], Equal)
      ensures ShareNothing(n[i..k])
    {
      WithinOne(p, x, q, i, k);
      if k <= |p| {
        assert n[i..k] == p[i..k];
      } else if i == k {
        assert n[i..k] == [];
      } else {
        StretchInside(p, x, q, i, k);
      }
    }
  }

  lemma StretchInside(p: seq<Diff>, x: seq<Diff>, q: Diff, i: nat, k: nat)
    requires |p| <= i <= k <= |p| + |x|
    ensures (p + x + [q])[i..k] == x[i - |p|..k - |p|]
  {
    var u, v := (p + x + [q])[i..k], x[i - |p|..k - |p|];
    assert forall m :: 0 <= m < |u| ==> u[m] == v[m];
  }

  lemma NothingShared()
    ensures ShareNothing([]) && RunsShareNothing([])
  {
  }

  lemma {:induction false} EndsEqual(runs: seq<seq<Diff>>, eqs: seq<Diff>)
    requires |runs| == |eqs| && forall k :: 0 <= k < |eqs| ==> eqs[k].op == Equal
    ensures var n := Woven(runs, eqs); n == [] || n[|n| - 1].op == Equal
  {
  }

  /** A stretch without equalities does not reach over one. */
  lemma WithinOne(p: seq<Diff>, x: seq<Diff>, q: Diff, i: nat, k: nat)
    requires var n := p + x + [q]; i <= k <= |n| && !Holds(n[i..k], Equal)
    requires q.op == Equal && (p == [] || p[|p| - 1].op == Equal)
    ensures k <= |p| || i == k || (k <= |p| + |x| && |p| <= i)
  {
    hide Holds;
    var n := p + x + [q];
    if i < k == |n| {
      HoldsAt(n, i, k, k - 1);
    } else if i < |p| < k {
      HoldsAt(n, i, k, |p| - 1);
    }
  }

  lemma HoldsAt(s: seq<Diff>, i: nat, k: nat, m: nat)
    requires i <= m < k <= |s|
    ensures Holds(s[i..k], s[m].op)
  {
    assert s[i..k][m - i] == s[m];
  }

  lemma DecodedReady(a: Text, b: Text, s: seq<Diff>, lines: seq<Text>)
    requires Right(a, b, s) && Canonical(s) && Solid(a, lines) && Solid(b, lines)
    ensures ReadableDiff(s, lines) && Ready(DecodeDiff(s, lines), 1)
  {
    hide Text1, Text2, Decode, Tidy;
    CanonicalIsReady(s);
    DiffSolid(s, lines);
    forall i | 0 <= i < |s|
      ensures Readable(s[i].text, lines)
    {
    }
    var r := DecodeDiff(s, lines);
    forall k | 1 <= k < |r| - 1 && Enclosed(r, k)
      ensures r[k].text != [] || r[k + 1].text != []
    {
      assert Enclosed(s, k);
      if s[k].text != [] {
        DecodeSolid(s[k].text, lines);
      } else {
        DecodeSolid(s[k + 1].text, lines);
      }
    }
  }

  /** `diff_lineMode_`: a diff of whole lines, cleaned up, and then every replaced stretch compared again unit by unit; with
      no time limit no deletion then has a unit in common with an insertion of the same run. */
  method LineMode(a: Text, b: Text, timeout: real, deadline: Deadline) returns (d: DiffList, hangs: bool, ghost w: ByLines)
    ensures fresh(d)
    ensures !hangs && Right(a, b, d.s) <==> DistinctLines(a, b) < Capacity
    ensures !hangs ==> Honest(a, b, d.s) && MadeByLines(a, b, timeout, deadline, w, d.s)
    ensures !hangs && timeout <= 0.0 && deadline.Never? ==> RunsShareNothing(d.s)
    decreases 1, |a| + |b|, 2
  {
    hide Text1, Text2, EditChars, Dist, SafeCore, Safe, Most, Newlines, Canonical, DistinctLines, Ready, Readable, ReadableDiff, DecodeDiff, Decode, Solid, CleanedUp, Eliminated, Straightened, PulledAll, GetsStuck, KeptOrBehind, Rediffed, RunsShareNothing, Table, MainMakes;
    var chars1, chars2, lines := LinesToChars(a, b);
    d, hangs := MainDiff(chars1, chars2, false, timeout, deadline);
    ghost var coded := d.s;
    DecodeCommutes(d.s, lines);
    if DistinctLines(a, b) < Capacity {
      DecodedReady(chars1, chars2, d.s, lines);
    }
    CharsToLines(d, lines);
    assert Right(Decode(chars1, lines), Decode(chars2, lines), d.s);
    ghost var chain, m, n;
    hangs, chain, m, n := CleanupSemantic(d);
    w := ByLines(chars1, chars2, lines, coded, chain, m, n, d.s, [], [], []);
    if hangs {
      return;
    }
    ghost var runs, news, eqs := RediffAll(d, timeout, deadline);
    w := w.(runs := runs, news := news, eqs := eqs);
    if timeout <= 0.0 && deadline.Never? {
      RediffedShares(timeout, deadline, w.cleaned + [Terminator], d.s + [Terminator], runs, news, eqs);
      SharesInFront(d.s, Terminator);
    }
  }

  /** The second half of `diff_lineMode_`, with the terminator there for its time. */
  method RediffAll(a: DiffList, timeout: real, deadline: Deadline)
    returns (ghost runs: seq<seq<Diff>>, ghost news: seq<seq<Diff>>, ghost eqs: seq<Diff>)
    modifies a
    ensures SameTexts(a.s, old(a.s))
    ensures Rediffed(timeout, deadline, old(a.s) + [Terminator], a.s + [Terminator], runs, news, eqs)
    decreases 1, 0, 1
  {
    hide Text1, Text2, Rediffed;
    TerminatorFree(a.s);
    a.s := a.s + [Terminator];
    runs, news, eqs := Rediff(a, timeout, deadline);
    TerminatorFree(a.s[..|a.s| - 1]);
    assert a.s == a.s[..|a.s| - 1] + [Terminator];
    a.s := a.s[..|a.s| - 1];
  }

  lemma SharesInFront(s: seq<Diff>, x: Diff)
    requires RunsShareNothing(s + [x])
    ensures RunsShareNothing(s)
  {
    hide Holds, ShareNothing;
    forall i, k | 0 <= i <= k <= |s| && !Holds(s[i..k], Equal)
      ensures ShareNothing(s[i..k])
    {
      assert (s + [x])[i..k] == s[i..k];
    }
  }

  lemma TerminatorFree(s: seq<Diff>)
    ensures SameTexts(s + [Terminator], s)
  {
    Concat(s, [Terminator]);
    Single(Terminator);
  }

  /** Puts the entries of `x` in front of position `b`, the last one first. */
  method InsertAll(a: DiffList, b: nat, x: seq<Diff>)
    requires b <= |a.s|
    modifies a
    ensures a.s == old(a.s)[..b] + x + old(a.s)[b..]
  {
    var e := |x| - 1;
    while 0 <= e
      invariant -1 <= e < |x|
      invariant a.s == old(a.s)[..b] + x[e + 1..] + old(a.s)[b..]
      decreases e
    {
      a.s := Splice(a.s, b, 0, [x[e]]);
      assert x[e..] == [x[e]] + x[e + 1..];
      e := e - 1;
    }
  }

  /** Between two entries of the loop: `p` is done, `r` is the open run, `t` is to come. */
  ghost predicate Rediffing(s: seq<Diff>, o: seq<Diff>, p: seq<Diff>, r: seq<Diff>, t: seq<Diff>, d: nat, e: nat, f: Text, g: Text) {
    && s == p + r + t && SameTexts(s, o) && RunOf(r, d, e, f, g) && s != [] && s[|s| - 1] == Terminator
    && (d >= 1 <==> Holds(r, Delete)) && (e >= 1 <==> Holds(r, Insert)) && !Holds(r, Equal)
  }

  lemma ExchangeRun(s: seq<Diff>, o: seq<Diff>, p: seq<Diff>, r: seq<Diff>, t: seq<Diff>, d: nat, e: nat, f: Text, g: Text, x: seq<Diff>)
    requires Rediffing(s, o, p, r, t, d, e, f, g) && t != [] && Right(f, g, x)
    ensures SameTexts(p + x + t, o)
  {
    Concat3(p, r, t);
    Concat3(p, x, t);
  }

  lemma NextEntry(s: seq<Diff>, o: seq<Diff>, p: seq<Diff>, r: seq<Diff>, t: seq<Diff>, d: nat, e: nat, f: Text, g: Text)
    requires Rediffing(s, o, p, r, t, d, e, f, g) && t != []
    ensures t[0].op == Delete ==> Rediffing(s, o, p, r + [t[0]], t[1..], d + 1, e, f + t[0].text, g)
    ensures t[0].op == Insert ==> Rediffing(s, o, p, r + [t[0]], t[1..], d, e + 1, f, g + t[0].text)
    ensures t[0].op == Equal ==> Rediffing(s, o, p + r + [t[0]], [], t[1..], 0, 0, [], [])
  {
    hide SameTexts, Text1, Text2, RunOf, Holds;
    HoldsMore(r, t[0]);
    if t[0].op != Equal {
      RunGrows(r, d, e, f, g, t[0]);
      assert p + r + t == p + (r + [t[0]]) + t[1..];
    } else {
      EmptyRun();
      assert p + r + t == (p + r + [t[0]]) + [] + t[1..];
    }
  }

  /** The loop of `diff_lineMode_` over a list that ends in the terminator: every run with a deletion and an insertion is
      compared again, and nothing else changes. */
  method Rediff(a: DiffList, timeout: real, deadline: Deadline)
    returns (ghost runs: seq<seq<Diff>>, ghost news: seq<seq<Diff>>, ghost eqs: seq<Diff>)
    requires a.s != [] && a.s[|a.s| - 1] == Terminator
    modifies a
    ensures SameTexts(a.s, old(a.s)) && a.s != [] && a.s[|a.s| - 1] == Terminator
    ensures Rediffed(timeout, deadline, old(a.s), a.s, runs, news, eqs)
    decreases 1, 0, 0
  {
    hide Text1, Text2, EditChars, Dist, SafeCore, Safe, Newlines, Canonical, RunOf, SameTexts, Rediffed, Recompared, Holds;
    ghost var o := a.s;
    var b, d, e := 0, 0, 0;
    var f: Text, g: Text := [], [];
    ghost var p, r, t := [], [], a.s;
    ghost var q: seq<Diff> := [];
    runs, news, eqs := [], [], [];
    StartRediff(a.s, timeout, deadline);
    while b < |a.s|
      invariant Rediffing(a.s, o, p, r, t, d, e, f, g) && b == |p| + |r|
      invariant o == q + r + t && Rediffed(timeout, deadline, q, p, runs, news, eqs)
      invariant t == [] ==> r == []
      decreases |t|
    {
      assert a.s[b] == t[0] && t == [t[0]] + t[1..];
      LastIsTerminator(p + r, t);
      NextEntry(a.s, o, p, r, t, d, e, f, g);
      OneOn(q, r, t);
      match a.s[b].op {
        case Insert =>
          e := e + 1;
          g := g + a.s[b].text;
          r, t := r + [t[0]], t[1..];
        case Delete =>
          d := d + 1;
          f := f + a.s[b].text;
          r, t := r + [t[0]], t[1..];
        case Equal =>
          ghost var x;
          b, x := EndRun(a, b, d, e, f, g, timeout, deadline, o, p, r, t);
          RediffedMore(timeout, deadline, q, p, runs, news, eqs, r, x, t[0]);
          runs, news, eqs := runs + [r], news + [x], eqs + [t[0]];
          d, e, f, g := 0, 0, [], [];
          q := q + r + [t[0]];
          p, r, t := p + x + [t[0]], [], t[1..];
      }
      b := b + 1;
    }
    assert p + r + t == p && q + r + t == q;
  }

  /** What the loop does at the equality behind the run `r`. */
  method EndRun(a: DiffList, b0: nat, d: nat, e: nat, f: Text, g: Text, timeout: real, deadline: Deadline,
                ghost o: seq<Diff>, ghost p: seq<Diff>, ghost r: seq<Diff>, ghost t: seq<Diff>)
    returns (b: nat, ghost x: seq<Diff>)
    requires Rediffing(a.s, o, p, r, t, d, e, f, g) && b0 == |p| + |r| && t != [] && t[0].op == Equal
    modifies a
    ensures b == |p| + |x| && Rediffing(a.s, o, p + x + [t[0]], [], t[1..], 0, 0, [], [])
    ensures Recompared(timeout, deadline, r, x)
    decreases 0, |f| + |g|, 6
  {
    hide Text1, Text2, RunOf, SameTexts, Recompared, Holds;
    NextEntry(a.s, o, p, r, t, d, e, f, g);
    b, x := b0, r;
    if 1 <= d && 1 <= e {
      b, x := RediffRun(a, b, d, e, f, g, timeout, deadline, o, p, r, t);
    } else {
      Untouched(timeout, deadline, r);
    }
  }

  /** Edits are followed by something. */
  lemma LastIsTerminator(s: seq<Diff>, t: seq<Diff>)
    requires t != [] && (s + t)[|s + t| - 1] == Terminator
    ensures t[0].op != Equal ==> t[1..] != []
  {
    assert (s + t)[|s + t| - 1] == t[|t| - 1];
  }

  lemma OneOn(q: seq<Diff>, r: seq<Diff>, t: seq<Diff>)
    requires t != []
    ensures q + r + t == q + (r + [t[0]]) + t[1..] == (q + r + [t[0]]) + [] + t[1..]
  {
    assert t == [t[0]] + t[1..];
  }

  lemma {:induction false} Untouched(timeout: real, deadline: Deadline, r: seq<Diff>)
    requires !(Holds(r, Delete) && Holds(r, Insert))
    ensures Recompared(timeout, deadline, r, r)
  {
  }

  lemma {:induction false} StartRediff(s: seq<Diff>, timeout: real, deadline: Deadline)
    requires s != [] && s[|s| - 1] == Terminator
    ensures Rediffing(s, s, [], [], s, 0, 0, [], []) && s == [] + [] + s
    ensures Rediffed(timeout, deadline, [], [], [], [], [])
  {
    hide Text1, Text2, RunOf;
    EmptyRun();
    assert [] + s == s;
  }

  /** Compares the texts of a run of deletions and insertions again and puts the new entries in its place. */
  method RediffRun(a: DiffList, b0: nat, d: nat, e: nat, f: Text, g: Text, timeout: real, deadline: Deadline,
                   ghost o: seq<Diff>, ghost p: seq<Diff>, ghost r: seq<Diff>, ghost t: seq<Diff>)
    returns (b: nat, ghost x: seq<Diff>)
    requires Rediffing(a.s, o, p, r, t, d, e, f, g) && b0 == |p| + |r| && t != [] && t[0].op == Equal
    modifies a
    requires d >= 1 && e >= 1
    ensures b == |p| + |x| && Rediffing(a.s, o, p + x + [t[0]], [], t[1..], 0, 0, [], [])
    ensures Recompared(timeout, deadline, r, x)
    decreases 0, |f| + |g|, 5
  {
    hide Text1, Text2, EditChars, Dist, SafeCore, Safe, Newlines, Canonical, RunOf, SameTexts, Holds, Most, MainMakes;
    RunTexts(r, d, e, f, g);
    HoldsMore([], Terminator);
    RunFacts(r, d, e, f, g);
    RunOut(p, r, t);
    a.s := Splice(a.s, b0 - d - e, d + e, []);
    b := b0 - d - e;
    var c, hangs := MainDiff(f, g, false, timeout, deadline);
    x := c.s;
    ExchangeRun(p + r + t, o, p, r, t, d, e, f, g, x);
    InsertAll(a, b, c.s);
    b := b + |c.s|;
    RunIn(p, x, t);
    EmptyRun();
  }

  lemma {:induction false} RunTexts(r: seq<Diff>, d: nat, e: nat, f: Text, g: Text)
    requires RunOf(r, d, e, f, g)
    ensures Text1(r) == f && Text2(r) == g
  {
  }

  lemma RunOut(p: seq<Diff>, r: seq<Diff>, t: seq<Diff>)
    ensures Splice(p + r + t, |p|, |r|, []) == p + t
  {
  }

  /** With the new entries `x` in place of the run, the list goes on behind the equality after it. */
  lemma RunIn(p: seq<Diff>, x: seq<Diff>, t: seq<Diff>)
    requires t != []
    ensures (p + t)[..|p|] + x + (p + t)[|p|..] == p + x + t == (p + x + [t[0]]) + [] + t[1..]
  {
    assert t == [t[0]] + t[1..];
  }
}
