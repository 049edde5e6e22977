/** Diffs: lists of deletions, insertions and equalities, and the two texts each list stands for. */
module Diffs {
  import opened Texts
  import opened Distance

  datatype Op = Delete | Insert | Equal

  datatype Diff = Diff(op: Op, text: Text)

  /** A diff list as the clean-up passes receive it: they rewrite it in place. */
  class DiffList {
    var s: seq<Diff>

    constructor (items: seq<Diff>)
      ensures s == items
    {
      s := items;
    }
  }

  /** `a.splice(i, n, ...items)`. */
  function Splice(s: seq<Diff>, i: nat, n: nat, items: seq<Diff>): seq<Diff>
    requires i + n <= |s|
  {
    s[..i] + items + s[i + n..]
  }

  /** The old text: `diff_text1`. */
  function Text1(s: seq<Diff>): Text {
    if s == [] then [] else (if s[0].op == Insert then [] else s[0].text) + Text1(s[1..])
  }

  /** The new text: `diff_text2`. */
  function Text2(s: seq<Diff>): Text {
    if s == [] then [] else (if s[0].op == Delete then [] else s[0].text) + Text2(s[1..])
  }

  /** The number of units in deletions and insertions. */
  function EditChars(s: seq<Diff>): nat {
    if s == [] then 0 else (if s[0].op == Equal then 0 else |s[0].text|) + EditChars(s[1..])
  }

  /** The number of equalities. */
  function Equalities(s: seq<Diff>): nat {
    if s == [] then 0 else (if s[0].op == Equal then 1 else 0) + Equalities(s[1..])
  }

  /** The entry lies between two equalities. */
  predicate Enclosed(s: seq<Diff>, i: int) {
    0 < i < |s| - 1 && s[i - 1].op == Equal && s[i + 1].op == Equal
  }

  ghost predicate SameTexts(s: seq<Diff>, t: seq<Diff>) {
    Text1(s) == Text1(t) && Text2(s) == Text2(t)
  }

  /** One entry before the rest of a list. */
  lemma {:induction false} Before(x: Diff, r: seq<Diff>)
    ensures Text1([x] + r) == (if x.op == Insert then [] else x.text) + Text1(r)
    ensures Text2([x] + r) == (if x.op == Delete then [] else x.text) + Text2(r)
    ensures EditChars([x] + r) == (if x.op == Equal then 0 else |x.text|) + EditChars(r)
    ensures Equalities([x] + r) == (if x.op == Equal then 1 else 0) + Equalities(r)
  {
    assert ([x] + r)[1..] == r;
  }

  lemma {:induction false} NoEntries()
    ensures Text1([]) == Text2([]) == [] && EditChars([]) == Equalities([]) == 0
  {
  }

  lemma {:induction false} Concat(s: seq<Diff>, t: seq<Diff>)
    ensures Text1(s + t) == Text1(s) + Text1(t)
    ensures Text2(s + t) == Text2(s) + Text2(t)
    ensures EditChars(s + t) == EditChars(s) + EditChars(t)
    ensures Equalities(s + t) == Equalities(s) + Equalities(t)
  {
    hide Text1, Text2, EditChars, Equalities;
    if s == [] {
      NoEntries();
      assert s + t == t && [] + Text1(t) == Text1(t) && [] + Text2(t) == Text2(t);
    } else {
      var x, r := s[0], s[1..];
      Concat(r, t);
      Before(x, r);
      Before(x, r + t);
      assert s == [x] + r && s + t == [x] + (r + t);
      Associated(if x.op == Insert then [] else x.text, Text1(r), Text1(t));
      Associated(if x.op == Delete then [] else x.text, Text2(r), Text2(t));
    }
  }

  lemma Associated(x: Text, y: Text, z: Text)
    ensures x + (y + z) == x + y + z
  {
  }

  lemma {:induction false} Concat3(s: seq<Diff>, t: seq<Diff>, u: seq<Diff>)
    ensures Text1(s + t + u) == Text1(s) + Text1(t) + Text1(u)
    ensures Text2(s + t + u) == Text2(s) + Text2(t) + Text2(u)
    ensures EditChars(s + t + u) == EditChars(s) + EditChars(t) + EditChars(u)
    ensures Equalities(s + t + u) == Equalities(s) + Equalities(t) + Equalities(u)
  {
    Concat(s, t);
    Concat(s + t, u);
  }

  lemma Single(x: Diff)
    ensures Text1([x]) == (if x.op == Insert then [] else x.text)
    ensures Text2([x]) == (if x.op == Delete then [] else x.text)
    ensures EditChars([x]) == if x.op == Equal then 0 else |x.text|
    ensures Equalities([x]) == if x.op == Equal then 1 else 0
  {
  }

  lemma Pair(x: Diff, y: Diff)
    ensures Text1([x, y]) == Text1([x]) + Text1([y])
    ensures Text2([x, y]) == Text2([x]) + Text2([y])
    ensures EditChars([x, y]) == EditChars([x]) + EditChars([y])
  {
    assert [x, y] == [x] + [y];
    Concat([x], [y]);
  }

  lemma Triple(x: Diff, y: Diff, z: Diff)
    ensures Text1([x, y, z]) == Text1([x]) + Text1([y]) + Text1([z])
    ensures Text2([x, y, z]) == Text2([x]) + Text2([y]) + Text2([z])
    ensures EditChars([x, y, z]) == EditChars([x]) + EditChars([y]) + EditChars([z])
  {
    assert [x, y, z] == [x] + [y] + [z];
    Concat3([x], [y], [z]);
  }

  /** Replacing a stretch of a diff by another one for the same two texts keeps the texts. */
  lemma {:induction false} ReplaceStretch(s: seq<Diff>, i: nat, n: nat, items: seq<Diff>)
    requires i + n <= |s| && SameTexts(s[i..i + n], items)
    ensures SameTexts(Splice(s, i, n, items), s)
    ensures EditChars(Splice(s, i, n, items)) == EditChars(s) - EditChars(s[i..i + n]) + EditChars(items)
    ensures Equalities(Splice(s, i, n, items)) == Equalities(s) - Equalities(s[i..i + n]) + Equalities(items)
  {
    assert s == s[..i] + s[i..i + n] + s[i + n..];
    Concat3(s[..i], s[i..i + n], s[i + n..]);
    Concat3(s[..i], items, s[i + n..]);
  }

  /** No diff of two texts edits fewer units than their distance. */
  lemma {:induction false} EditsCoverDistance(s: seq<Diff>)
    ensures Dist(Text1(s), Text2(s)) <= EditChars(s)
  {
    if s != [] {
      EditsCoverDistance(s[1..]);
      Single(s[0]);
      Concat([s[0]], s[1..]);
      assert s == [s[0]] + s[1..];
      DistSame(s[0].text);
      Subadditive(Text1([s[0]]), Text2([s[0]]), Text1(s[1..]), Text2(s[1..]));
    }
  }

  /** A diff that edits no more units than any other diff of the same two texts. */
  ghost predicate Minimal(s: seq<Diff>) {
    forall t :: SameTexts(s, t) ==> EditChars(s) <= EditChars(t)
  }

  lemma {:induction false} MinimalWhenTight(s: seq<Diff>)
    requires EditChars(s) <= Dist(Text1(s), Text2(s))
    ensures Minimal(s)
  {
    forall t | SameTexts(s, t)
      ensures EditChars(s) <= EditChars(t)
    {
      EditsCoverDistance(t);
    }
  }
}
