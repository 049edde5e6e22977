/** `compareSessions` of the user interface, up to the markup: the diff of two sessions' outputs, made readable. */
module Compare {
  import opened Texts
  import opened Distance
  import opened Diffs
  import opened Merge
  import opened Lossless
  import opened Semantic
  import opened DiffMain
  import opened DiffApi

  const Timeout: real := 100.0

  /** Right exactly for texts that line mode gets through: the clean-up, which gets the list `o` in the normal form, neither
      hangs nor spoils anything. What is shown is the diff cleaned up. */
  method CompareSessions(a: Text, b: Text)
    returns (d: DiffList, hangs: bool, ghost o: seq<Diff>, ghost chain: seq<seq<Diff>>, ghost m: seq<Diff>, ghost n: seq<Diff>)
    ensures fresh(d)
    ensures !hangs && Right(a, b, d.s) <==> Safe(Timeout, a, b)
    ensures !hangs ==> Canonical(o) && DiffMakes(true, Timeout, a, b, o) && SameTexts(d.s, o) && CleanedUp(o, chain, m, n, d.s)
    ensures !hangs && Right(a, b, o) ==> Dist(a, b) <= EditChars(o) <= Most(Timeout, a, b)
  {
    hide Text1, Text2, EditChars, Dist, Canonical, Ready, GetsStuck, CleanedUp, Straightened, Safe, Most, Minimal, Contained, DiffMakes;
    d, hangs := DiffTexts(a, b, true, Timeout);
    o, chain, m, n := d.s, [], [], [];
    if !hangs {
      CanonicalIsReady(d.s);
      hangs, chain, m, n := CleanupSemantic(d);
      assert !hangs;
    }
  }
}
