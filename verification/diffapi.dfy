/** `diff_main` as its callers see it, and a pair of texts that it gets wrong. */
module DiffApi {
  import opened Texts
  import opened Clock
  import opened Common
  import opened Distance
  import opened Diffs
  import opened Merge
  import opened HalfMatches
  import opened LineBreaks
  import opened Lines
  import opened DiffMain

  /** What `diff_main` makes of two texts when the deadline is left to the time limit. */
  ghost predicate DiffMakes(checklines: bool, timeout: real, a: Text, b: Text, s: seq<Diff>) {
    exists deadline :: (timeout <= 0.0 ==> deadline == Never) && MainMakes(checklines, timeout, deadline, a, b, s)
  }

  /** `diff_main` with the deadline left to the time limit. In line mode it is right exactly for safe texts. A right diff
      keeps, whatever the deadline, common ends, the middles of half matches, and a text contained in the other one. */
  method DiffTexts(a: Text, b: Text, checklines: bool, timeout: real) returns (d: DiffList, hangs: bool)
    ensures fresh(d)
    ensures !hangs && Right(a, b, d.s) <==> (checklines ==> Safe(timeout, a, b))
    ensures !hangs ==> Canonical(d.s) && DiffMakes(checklines, timeout, a, b, d.s)
    ensures !hangs && Right(a, b, d.s) ==> Dist(a, b) <= EditChars(d.s) <= Most(timeout, a, b)
    ensures Contained(a, b) ==> !hangs && Right(a, b, d.s) && EditChars(d.s) == Max(|a| - |b|, |b| - |a|)
    ensures timeout <= 0.0 && (!checklines || |a| <= LineModeLimit || |b| <= LineModeLimit) ==> Minimal(d.s)
  {
    hide Dist, EditChars, Text1, Text2, Safe, Most, Canonical, Minimal, Honest, Contained, MainMakes;
    var deadline := Never;
    if timeout > 0.0 {
      var ms: int := *;
      deadline := Until(ms);
    }
    d, hangs := MainDiff(a, b, checklines, timeout, deadline);
    if Plain(a, b, true) {
      PlainIsSafe(timeout, a, b);
    }
    EditsCoverDistance(d.s);
    LengthBound(a, b);
    if Contained(a, b) {
      ContainedKept(timeout, a, b);
    }
    if Right(a, b, d.s) && Tight(a, b, d.s) {
      MinimalWhenTight(d.s);
    }
  }

  // ----- a text with 65536 different lines

  function ManyUnit(k: nat): Unit
    requires k < 3 * Capacity
  {
    if k % 3 == 2 then NewLine
    else if k % 3 == 0 then (11 + k / 3 / 1000) as Unit
    else (11 + k / 3 % 1000) as Unit
  }

  /** Line `i` is made of the thousands of `i`, the rest of `i`, and a line break. */
  function ManyLines(): (r: Text)
    ensures |r| == 3 * Capacity
    ensures forall k :: 0 <= k < 3 * Capacity ==> r[k] == ManyUnit(k)
  {
    seq(3 * Capacity, k requires 0 <= k < 3 * Capacity => ManyUnit(k))
  }

  function ManyLine(i: nat): Text
    requires i < Capacity
  {
    [(11 + i / 1000) as Unit, (11 + i % 1000) as Unit, NewLine]
  }

  lemma ManyUnits(i: nat)
    requires i < Capacity
    ensures ManyUnit(3 * i) == (11 + i / 1000) as Unit
    ensures ManyUnit(3 * i + 1) == (11 + i % 1000) as Unit
    ensures ManyUnit(3 * i + 2) == NewLine
  {
    assert (3 * i + 1) / 3 == i && (3 * i + 1) % 3 == 1 && (3 * i) / 3 == i && (3 * i) % 3 == 0 && (3 * i + 2) % 3 == 2;
  }

  lemma ThirdEnds(a: Text, k: nat)
    requires k + 3 <= |a| && a[k] != NewLine && a[k + 1] != NewLine && a[k + 2] == NewLine
    ensures LineEnd(a, k) == k + 3
  {
    hide IndexOf;
    assert a[k..k + 1] == [a[k]] && a[k + 1..k + 2] == [a[k + 1]] && a[k + 2..k + 3] == [a[k + 2]];
    assert !OccursAt(a, [NewLine], k) && !OccursAt(a, [NewLine], k + 1) && OccursAt(a, [NewLine], k + 2);
  }

  lemma ManyLineAt(i: nat)
    requires i < Capacity
    ensures ManyLines()[3 * i..3 * i + 3] == ManyLine(i)
    ensures LineEnd(ManyLines(), 3 * i) == 3 * i + 3
  {
    hide ManyLines, ManyUnit, LineEnd;
    var a := ManyLines();
    ManyUnits(i);
    assert a[3 * i] == ManyUnit(3 * i) && a[3 * i + 1] == ManyUnit(3 * i + 1) && a[3 * i + 2] == ManyUnit(3 * i + 2);
    ThirdEnds(a, 3 * i);
  }

  lemma ManyLinesDiffer(i: nat, k: nat)
    requires i < k < Capacity
    ensures ManyLine(i) != ManyLine(k)
  {
    if i / 1000 == k / 1000 {
      assert i % 1000 != k % 1000;
    }
  }

  /** All of them are lines of the text, from line `i` on. */
  ghost predicate LaterLines(i: nat, lines: set<Text>) {
    forall x :: x in lines ==> exists k :: i <= k < Capacity && x == ManyLine(k)
  }

  lemma {:induction false} ManyLinesCounted(i: nat)
    requires i <= Capacity
    ensures |LineSet(ManyLines(), 3 * i)| == Capacity - i && LaterLines(i, LineSet(ManyLines(), 3 * i))
    decreases Capacity - i
  {
    hide ManyLines, ManyLine, LaterLines, LineSet, LineEnd;
    if i < Capacity {
      ManyLineAt(i);
      ManyLinesCounted(i + 1);
      NextLineSet(i);
      OneMoreLine(i, LineSet(ManyLines(), 3 * i + 3));
    } else {
      NoLineSet(i);
    }
  }

  lemma {:induction false} NoLineSet(i: nat)
    requires i == Capacity
    ensures LineSet(ManyLines(), 3 * i) == {} && LaterLines(i, {})
  {
    hide ManyLines;
  }

  lemma {:induction false} NextLineSet(i: nat)
    requires i < Capacity && LineEnd(ManyLines(), 3 * i) == 3 * i + 3 && ManyLines()[3 * i..3 * i + 3] == ManyLine(i)
    ensures LineSet(ManyLines(), 3 * i) == {ManyLine(i)} + LineSet(ManyLines(), 3 * i + 3)
  {
    hide ManyLines, ManyLine, LineEnd;
  }

  lemma OneMoreLine(i: nat, rest: set<Text>)
    requires LaterLines(i + 1, rest) && i < Capacity
    ensures |{ManyLine(i)} + rest| == |rest| + 1 && LaterLines(i, {ManyLine(i)} + rest)
  {
    hide ManyLine;
    if ManyLine(i) in rest {
      var k :| i + 1 <= k < Capacity && ManyLine(i) == ManyLine(k);
      ManyLinesDiffer(i, k);
    }
  }

  function Sevens(): (r: Text)
    ensures |r| == 101 && forall k :: 0 <= k < 101 ==> r[k] == 7
  {
    seq(101, k => 7)
  }

  /** A text of 65536 different lines and one without any of them have no half match, whatever the time limit, and come to line mode. */
  lemma {:induction false} ManyLinesUnsafe(timeout: real)
    ensures !Safe(timeout, ManyLines(), Sevens())
  {
    hide Lcp, Lcs, ManyLines, Sevens, LineSet, Core, SeedMatch;
    var a, b := ManyLines(), Sevens();
    EndsOfMany();
    NothingTrimmed(a, b);
    NoSevens();
    ManyLinesCounted(0);
    Larger(LineSet(a, 0), LineSet(b, 0));
    assert HalfMatchFor(timeout, a, b) == NoMatch;
  }

  /** Whatever the time limit, `diff_main` hangs on these two texts or gives a diff of others. */
  method DiffManyLines(timeout: real) returns (d: DiffList, hangs: bool)
    ensures hangs || !Right(ManyLines(), Sevens(), d.s)
  {
    hide *;
    d, hangs := DiffTexts(ManyLines(), Sevens(), true, timeout);
    ManyLinesUnsafe(timeout);
  }

  lemma EndsOfMany()
    ensures var a, b := ManyLines(), Sevens(); a[0] != b[0] && a[|a| - 1] != b[|b| - 1]
  {
    hide ManyLines;
    var a := ManyLines();
    assert a[0] == ManyUnit(0) && a[3 * Capacity - 1] == ManyUnit(3 * Capacity - 1);
  }

  lemma FirstUnit(h: Text, n: Text, k: int)
    requires OccursAt(h, n, k) && n != []
    ensures h[k] == n[0]
  {
    assert h[k..k + |n|][0] == h[k];
  }

  lemma NoSevens()
    ensures !OccursIn(ManyLines(), Sevens())
  {
    hide ManyLines, Sevens;
    var a, b := ManyLines(), Sevens();
    forall k
      ensures !OccursAt(a, b, k)
    {
      if OccursAt(a, b, k) {
        FirstUnit(a, b, k);
      }
    }
  }

  lemma NothingTrimmed(a: Text, b: Text)
    requires a != [] && b != [] && a[0] != b[0] && a[|a| - 1] != b[|b| - 1]
    ensures Core(a, a, b) == a && Core(b, a, b) == b
  {
    hide Lcp, Lcs;
    assert Front(a, b) == 0 && a[0..] == a && b[0..] == b;
    assert Back(a, b) == 0;
  }

  lemma Larger(x: set<Text>, y: set<Text>)
    ensures |x + y| >= |x|
  {
    assert x + y == x + (y - x);
  }
}
