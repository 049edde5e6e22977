/** How much is edited next to an equality: what the maximal run of edits before or after
    a place deletes or inserts. */
module Runs {
  import opened Diffs

  /** What is measured of a run: the units its deletions (insertions) hold, or how many there are. */
  datatype Measure = Units(op: Op) | Entries(op: Op)

  function Size(w: Measure, x: Diff): nat {
    if x.op != w.op then 0 else if w.Units? then |x.text| else 1
  }

  /** The measure of the run of edits at the front of `s`. */
  function Lead(w: Measure, s: seq<Diff>): nat {
    if s == [] || s[0].op == Equal then 0 else Size(w, s[0]) + Lead(w, s[1..])
  }

  /** The measure of the run of edits at the end of `s`. */
  function Trail(w: Measure, s: seq<Diff>): nat {
    if s == [] || s[|s| - 1].op == Equal then 0 else Trail(w, s[..|s| - 1]) + Size(w, s[|s| - 1])
  }

  lemma {:induction false} TrailGrows(w: Measure, s: seq<Diff>, f: nat)
    requires f < |s|
    ensures Trail(w, s[..f + 1]) == if s[f].op == Equal then 0 else Trail(w, s[..f]) + Size(w, s[f])
  {
    assert s[..f + 1][..f] == s[..f];
  }

  /** Between an equality and the next one (or the end) lies one run, read either way. */
  lemma {:induction false} LeadIsTrail(w: Measure, s: seq<Diff>, p: nat, f: nat)
    requires p < f <= |s| && s[p].op == Equal && (f == |s| || s[f].op == Equal)
    requires forall k :: p < k < f ==> s[k].op != Equal
    ensures Lead(w, s[p + 1..]) == Trail(w, s[..f])
  {
    LeadAndTrail(w, s, p, f, p + 1);
    TrailGrows(w, s, p);
  }

  lemma {:induction false} LeadAndTrail(w: Measure, s: seq<Diff>, p: nat, f: nat, k: nat)
    requires p < k <= f <= |s| && s[p].op == Equal && (f == |s| || s[f].op == Equal)
    requires forall k :: p < k < f ==> s[k].op != Equal
    ensures Trail(w, s[..k]) + Lead(w, s[k..]) == Trail(w, s[..f])
    decreases f - k
  {
    if k < f {
      TrailGrows(w, s, k);
      assert s[k..][1..] == s[k + 1..];
      LeadAndTrail(w, s, p, f, k + 1);
    }
  }

  /** What has been read of a run is no more than the run. */
  lemma {:induction false} LeadCovers(w: Measure, s: seq<Diff>, p: nat, f: nat)
    requires p < f <= |s| && s[p].op == Equal && forall k :: p < k < f ==> s[k].op != Equal
    ensures Lead(w, s[p + 1..]) >= Trail(w, s[..f])
  {
    LeadCoversFrom(w, s, p, f, p + 1);
    TrailGrows(w, s, p);
  }

  lemma {:induction false} LeadCoversFrom(w: Measure, s: seq<Diff>, p: nat, f: nat, k: nat)
    requires p < k <= f <= |s| && s[p].op == Equal && forall k :: p < k < f ==> s[k].op != Equal
    ensures Trail(w, s[..k]) + Lead(w, s[k..]) >= Trail(w, s[..f])
    decreases f - k
  {
    if k < f {
      TrailGrows(w, s, k);
      assert s[k..][1..] == s[k + 1..];
      LeadCoversFrom(w, s, p, f, k + 1);
    }
  }

  /** A run depends only on the entries up to the next equality. */
  lemma {:induction false} LeadLocal(w: Measure, s: seq<Diff>, t: seq<Diff>, k: nat, m: nat)
    requires k <= m < |s| && m < |t| && s[..m + 1] == t[..m + 1] && s[m].op == Equal
    ensures Lead(w, s[k..]) == Lead(w, t[k..])
    decreases m - k
  {
    assert s[k] == s[..m + 1][k] == t[..m + 1][k] == t[k];
    if k < m {
      assert s[k..][1..] == s[k + 1..] && t[k..][1..] == t[k + 1..];
      LeadLocal(w, s, t, k + 1, m);
    }
  }

  /** An entry of the run at the end (at the front) counts. */
  lemma {:induction false} TrailSees(s: seq<Diff>, k: nat, f: nat)
    requires k < f <= |s| && forall i :: k <= i < f ==> s[i].op != Equal
    ensures Trail(Entries(s[k].op), s[..f]) > 0
    decreases f
  {
    TrailGrows(Entries(s[k].op), s, f - 1);
    if k < f - 1 {
      TrailSees(s, k, f - 1);
    }
  }

  lemma {:induction false} LeadSees(s: seq<Diff>, q: nat, k: nat)
    requires q <= k < |s| && forall i :: q <= i <= k ==> s[i].op != Equal
    ensures Lead(Entries(s[k].op), s[q..]) > 0
    decreases k - q
  {
    if q < k {
      assert s[q..][1..] == s[q + 1..];
      LeadSees(s, q + 1, k);
    }
  }
}
