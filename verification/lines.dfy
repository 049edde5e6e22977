/** `diff_linesToChars_` and `diff_charsToLines_`: whole lines stand as single units while a
    line-by-line diff is made. A unit has 16 bits, so a dictionary of more
    than 65536 entries wraps around; exactly then the way back is lost. */
module Lines {
  import opened Texts
  import opened Diffs
  import opened LineBreaks

  const Capacity: nat := 0x1_0000

  /** A line: not empty, and no line break before its last unit. */
  predicate IsLine(s: Text) {
    s != [] && forall i :: 0 <= i < |s| - 1 ==> s[i] != NewLine
  }

  /** Entry 0 is the empty text; the others are lines, all different. */
  ghost predicate Table(lines: seq<Text>) {
    && |lines| > 0 && lines[0] == []
    && (forall k :: 1 <= k < |lines| ==> IsLine(lines[k]))
    && forall k, l :: 1 <= k < l < |lines| ==> lines[k] != lines[l]
  }

  /** The lines with the given numbers, one after the other. */
  function Join(lines: seq<Text>, codes: seq<nat>): Text
    requires forall i :: 0 <= i < |codes| ==> codes[i] < |lines|
  {
    if codes == [] then [] else lines[codes[0]] + Join(lines, codes[1..])
  }

  /** `String.fromCharCode`: only the low 16 bits survive. */
  function Wrap(codes: seq<nat>): (r: Text)
    ensures |r| == |codes|
    ensures forall i :: 0 <= i < |codes| ==> r[i] as int == codes[i] % Capacity
  {
    seq(|codes|, i requires 0 <= i < |codes| => (codes[i] % Capacity) as Unit)
  }

  ghost predicate Readable(chars: Text, lines: seq<Text>) {
    forall i :: 0 <= i < |chars| ==> chars[i] as int < |lines|
  }

  /** Every unit replaced by the line it stands for. */
  function Decode(chars: Text, lines: seq<Text>): Text
    requires Readable(chars, lines)
  {
    if chars == [] then [] else lines[chars[0] as int] + Decode(chars[1..], lines)
  }

  /** The numbers `codes` spell out `a` line by line. */
  ghost predicate Spells(lines: seq<Text>, codes: seq<nat>, a: Text) {
    && (forall i :: 0 <= i < |codes| ==> 1 <= codes[i] < |lines|)
    && (forall i :: 0 <= i < |codes| - 1 ==> Ended(lines[codes[i]]))
    && Join(lines, codes) == a
  }

  /** The end of the line that starts at `from`. */
  function LineEnd(a: Text, from: nat): (to: nat)
    requires from < |a|
    ensures from < to <= |a|
  {
    var e := IndexOf(a, [NewLine], from);
    if e == -1 then |a| else e + 1
  }

  /** The different lines of a text, from a line start on. */
  ghost function LineSet(a: Text, from: nat): set<Text>
    requires from <= |a|
    decreases |a| - from
  {
    if from == |a| then {} else {a[from..LineEnd(a, from)]} + LineSet(a, LineEnd(a, from))
  }

  /** How many different lines two texts have. */
  ghost function DistinctLines(a: Text, b: Text): nat {
    |LineSet(a, 0) + LineSet(b, 0)|
  }

  /** There are no more different lines than line breaks and an open last line. */
  lemma {:induction false} FewerLines(a: Text, from: nat)
    requires from <= |a|
    ensures |LineSet(a, from)| <= Newlines(a[from..]) + if from == |a| then 0 else 1
    decreases |a| - from
  {
    hide Newlines, IndexOf;
    if from < |a| {
      var to := LineEnd(a, from);
      LineFound(a, from, to - 1);
      FewerLines(a, to);
    }
  }

  lemma {:induction false} FewLines(a: Text, b: Text)
    ensures DistinctLines(a, b) <= Newlines(a) + Newlines(b) + 2
  {
    hide LineSet, Newlines;
    FewerLines(a, 0);
    FewerLines(b, 0);
    assert a[0..] == a && b[0..] == b;
    UnionBound(LineSet(a, 0), LineSet(b, 0));
  }

  lemma UnionBound(x: set<Text>, y: set<Text>)
    ensures |x + y| <= |x| + |y|
  {
    assert x + y == x + (y - x);
  }

  ghost function Entries(lines: seq<Text>): set<Text> {
    set k | 1 <= k < |lines| :: lines[k]
  }

  /** The entries of a dictionary are all different. */
  lemma {:induction false} EntriesCounted(lines: seq<Text>)
    requires Table(lines)
    ensures |Entries(lines)| == |lines| - 1
    decreases |lines|
  {
    if |lines| > 1 {
      var init, x := lines[..|lines| - 1], lines[|lines| - 1];
      EntriesCounted(init);
      EntriesGrow(init, x);
      assert lines == init + [x];
      assert x !in Entries(init);
    } else {
      assert Entries(lines) == {};
    }
  }

  lemma EntriesGrow(lines: seq<Text>, x: Text)
    requires lines != []
    ensures Entries(lines + [x]) == Entries(lines) + {x}
  {
    assert (lines + [x])[|lines|] == x;
    forall y | y in Entries(lines)
      ensures y in Entries(lines + [x])
    {
      var k :| 1 <= k < |lines| && lines[k] == y;
      assert (lines + [x])[k] == y;
    }
  }

  // ----- joining and decoding

  lemma {:induction false} JoinConcat(lines: seq<Text>, x: seq<nat>, y: seq<nat>)
    requires forall i :: 0 <= i < |x| ==> x[i] < |lines|
    requires forall i :: 0 <= i < |y| ==> y[i] < |lines|
    ensures Join(lines, x + y) == Join(lines, x) + Join(lines, y)
  {
    if x == [] {
      assert x + y == y;
    } else {
      assert (x + y)[1..] == x[1..] + y;
      JoinConcat(lines, x[1..], y);
    }
  }

  lemma {:induction false} DecodeConcat(x: Text, y: Text, lines: seq<Text>)
    requires Readable(x, lines) && Readable(y, lines)
    ensures Readable(x + y, lines) && Decode(x + y, lines) == Decode(x, lines) + Decode(y, lines)
  {
    if x == [] {
      assert x + y == y;
    } else {
      assert (x + y)[1..] == x[1..] + y;
      DecodeConcat(x[1..], y, lines);
    }
  }

  lemma {:induction false} JoinGrows(lines: seq<Text>, lines': seq<Text>, codes: seq<nat>)
    requires lines <= lines' && forall i :: 0 <= i < |codes| ==> codes[i] < |lines|
    ensures Join(lines, codes) == Join(lines', codes)
  {
    if codes != [] {
      JoinGrows(lines, lines', codes[1..]);
    }
  }

  lemma WrapRest(codes: seq<nat>)
    requires codes != []
    ensures Wrap(codes)[0] as int == codes[0] % Capacity && Wrap(codes)[1..] == Wrap(codes[1..])
  {
  }

  /** Numbers below the capacity survive the wrapping. */
  lemma {:induction false} DecodeWrapped(lines: seq<Text>, codes: seq<nat>)
    requires forall i :: 0 <= i < |codes| ==> codes[i] < |lines| && codes[i] < Capacity
    ensures Readable(Wrap(codes), lines) && Decode(Wrap(codes), lines) == Join(lines, codes)
  {
    hide Wrap;
    WrappedReadable(lines, codes);
    if codes != [] {
      WrapRest(codes);
      assert Wrap(codes)[0] as int == codes[0];
      DecodeWrapped(lines, codes[1..]);
    }
  }

  lemma WrappedReadable(lines: seq<Text>, codes: seq<nat>)
    requires forall i :: 0 <= i < |codes| ==> codes[i] < |lines|
    ensures Readable(Wrap(codes), lines)
  {
  }

  // ----- counting line breaks

  lemma {:induction false} LineHasOne(s: Text)
    requires IsLine(s)
    ensures Newlines(s) == if Ended(s) then 1 else 0
    decreases |s|
  {
    if |s| > 1 {
      LineHasOne(s[1..]);
    }
  }

  /** A decoded text has at most one line break for every unit, and if it has one for every
      unit it ends in a line break. */
  lemma {:induction false} DecodedNewlines(chars: Text, lines: seq<Text>)
    requires Table(lines) && Readable(chars, lines)
    ensures Newlines(Decode(chars, lines)) <= |chars|
    ensures chars != [] && Newlines(Decode(chars, lines)) == |chars| ==> Ended(Decode(chars, lines))
  {
    if chars != [] {
      var x := lines[chars[0] as int];
      DecodedNewlines(chars[1..], lines);
      NewlinesConcat(x, Decode(chars[1..], lines));
      if x != [] {
        LineHasOne(x);
      }
    }
  }

  /** A spelled text has a line break for every line but perhaps the last. */
  lemma {:induction false} SpelledNewlines(lines: seq<Text>, codes: seq<nat>, a: Text)
    requires Table(lines) && Spells(lines, codes, a) && codes != []
    ensures Newlines(a) >= |codes| - 1
    ensures Newlines(a) == |codes| <==> Ended(a)
    ensures Newlines(a) <= |codes|
    decreases |codes|
  {
    var x, rest := lines[codes[0]], codes[1..];
    LineHasOne(x);
    NewlinesConcat(x, Join(lines, rest));
    if rest == [] {
      assert a == x;
    } else {
      SpelledNewlines(lines, rest, Join(lines, rest));
      SpelledNotEmpty(lines, rest);
      assert Ended(x);
    }
  }

  lemma {:induction false} SpelledNotEmpty(lines: seq<Text>, codes: seq<nat>)
    requires Table(lines) && codes != [] && forall i :: 0 <= i < |codes| ==> 1 <= codes[i] < |lines|
    ensures Join(lines, codes) != []
  {
  }

  /** Reading nothing for the first line of a text falls behind it. */
  lemma {:induction false} LostLine(lines: seq<Text>, y: seq<nat>, a: Text)
    requires Table(lines) && Spells(lines, y, a) && y != []
    ensures Readable(Wrap(y[1..]), lines) && Behind(a, Decode(Wrap(y[1..]), lines))
  {
    hide Join, Decode, Newlines, IsLine;
    var z := y[1..];
    WrappedReadable(lines, z);
    SpelledNewlines(lines, y, a);
    SpelledNotEmpty(lines, y);
    DecodedNewlines(Wrap(z), lines);
    DecodeNothing(lines);
    var x := Decode(Wrap(z), lines);
    if Newlines(x) >= Newlines(a) {
      assert Tail(x) == 0 < Tail(a);
      ShorterAt(a, x, []);
      assert a + [] == a && x + [] == x;
    }
  }

  /** When the wrapping hits an entry of a text, the text that is read back falls behind. */
  lemma {:induction false} WrappedIsLost(lines: seq<Text>, codes: seq<nat>, a: Text, i: nat)
    requires Table(lines) && Spells(lines, codes, a)
    requires i < |codes| && codes[i] == Capacity && forall j :: 0 <= j < i ==> codes[j] < Capacity
    ensures Readable(Wrap(codes), lines) && Behind(a, Decode(Wrap(codes), lines))
  {
    hide Join, Decode, Table, Behind;
    var x, y, z := codes[..i], codes[i..], codes[i + 1..];
    assert codes == x + y && y[1..] == z;
    WrappedReadable(lines, codes);
    WrapAt(codes, i);
    DecodeWrapped(lines, x);
    JoinConcat(lines, x, y);
    Spelled(lines, codes, a, i);
    LostLine(lines, y, Join(lines, y));
    DecodeZero(lines);
    DecodeConcat([0], Wrap(z), lines);
    DecodeConcat(Wrap(x), [0] + Wrap(z), lines);
    assert [] + Decode(Wrap(z), lines) == Decode(Wrap(z), lines);
    BehindAfter(Join(lines, x), Join(lines, x), Join(lines, y), Decode(Wrap(z), lines));
  }

  lemma WrapAt(codes: seq<nat>, i: nat)
    requires i < |codes| && codes[i] == Capacity
    ensures Wrap(codes) == Wrap(codes[..i]) + ([0] + Wrap(codes[i + 1..]))
  {
  }

  lemma {:induction false} DecodeZero(lines: seq<Text>)
    requires Table(lines)
    ensures Readable([0], lines) && Decode([0], lines) == []
  {
    assert [0 as Unit][1..] == [];
  }

  lemma {:induction false} DecodeNothing(lines: seq<Text>)
    ensures Readable([], lines) && Decode([], lines) == []
  {
  }

  lemma {:induction false} Spelled(lines: seq<Text>, codes: seq<nat>, a: Text, i: nat)
    requires Spells(lines, codes, a) && i <= |codes|
    ensures Spells(lines, codes[i..], Join(lines, codes[i..]))
  {
  }

  // ----- the dictionary

  /** Entry `k` is first met after entries below it only. */
  ghost predicate FirstMet(codes: seq<nat>, k: nat) {
    exists i :: 0 <= i < |codes| && codes[i] == k && forall j :: 0 <= j < i ==> codes[j] < k
  }

  /** The numbers spell the part of the text read so far; the entries from `n0` on are met in order. */
  ghost predicate ReadSoFar(lines: seq<Text>, codes: seq<nat>, done: Text, n0: nat) {
    && (forall i :: 0 <= i < |codes| ==> 1 <= codes[i] < |lines|)
    && Join(lines, codes) == done
    && forall k :: n0 <= k < |lines| ==> FirstMet(codes, k)
  }

  lemma ReadLine(lines: seq<Text>, codes: seq<nat>, done: Text, n0: nat, r: Text, k: nat)
    requires ReadSoFar(lines, codes, done, n0) && lines != []
    requires (1 <= k < |lines| && lines[k] == r) || k == |lines|
    ensures ReadSoFar(if k == |lines| then lines + [r] else lines, codes + [k], done + r, n0)
  {
    hide FirstMet;
    var lines' := if k == |lines| then lines + [r] else lines;
    JoinGrows(lines, lines', codes);
    JoinConcat(lines', codes, [k]);
    JoinOne(lines', k);
    forall l | n0 <= l < |lines'|
      ensures FirstMet(codes + [k], l)
    {
      if l < |lines| {
        MetBefore(codes, k, l);
      } else {
        MetNow(codes, k);
      }
    }
  }

  lemma {:induction false} JoinOne(lines: seq<Text>, k: nat)
    requires k < |lines|
    ensures Join(lines, [k]) == lines[k]
  {
    assert [k][1..] == [];
  }

  lemma MetBefore(codes: seq<nat>, k: nat, l: nat)
    requires FirstMet(codes, l)
    ensures FirstMet(codes + [k], l)
  {
    var i :| 0 <= i < |codes| && codes[i] == l && forall j :: 0 <= j < i ==> codes[j] < l;
    assert (codes + [k])[i] == l;
  }

  lemma MetNow(codes: seq<nat>, k: nat)
    requires forall i :: 0 <= i < |codes| ==> codes[i] < k
    ensures FirstMet(codes + [k], k)
  {
    assert (codes + [k])[|codes|] == k;
  }

  class LineTable {
    var lines: seq<Text>
    var index: map<Text, nat>

    ghost predicate Valid()
      reads this
      ensures Valid() ==> lines != []
    {
      && Table(lines)
      && (forall r :: r in index ==> 1 <= index[r] < |lines| && lines[index[r]] == r)
      && forall k :: 1 <= k < |lines| ==> lines[k] in index
    }

    constructor ()
      ensures Valid() && lines == [[]]
    {
      lines, index := [[]], map[];
    }

    /** The number of the line `r`, which is entered when it is new. */
    method Number(r: Text) returns (k: nat)
      requires Valid() && IsLine(r)
      modifies this
      ensures Valid()
      ensures (1 <= k < |old(lines)| && lines == old(lines) && lines[k] == r)
           || (k == |old(lines)| && lines == old(lines) + [r])
      ensures Entries(lines) == Entries(old(lines)) + {r}
    {
      EntriesGrow(lines, r);
      if r in index {
        k := index[r];
      } else {
        k := |lines|;
        index := index[r := k];
        lines := lines + [r];
      }
    }

    /** Reads a text line by line into the dictionary; `codes` are the numbers before wrapping. */
    method Munge(a: Text) returns (chars: Text, ghost codes: seq<nat>)
      requires Valid()
      modifies this
      ensures Valid() && old(lines) <= lines
      ensures |lines| <= |old(lines)| + Newlines(a) + 1
      ensures Entries(lines) == Entries(old(lines)) + LineSet(a, 0)
      ensures chars == Wrap(codes) && Spells(lines, codes, a)
      ensures forall k :: |old(lines)| <= k < |lines| ==> FirstMet(codes, k)
    {
      hide Newlines, FirstMet, IsLine, Ended, ReadSoFar, EndedLines, IndexOf, Wrap, Spells, Valid, Entries;
      chars, codes := [], [];
      var lineStart, lineEnd := 0, -1;
      ghost var n0 := |lines|;
      ReadNothing(lines);
      assert a[..0] == [] && a[0..] == a;
      while lineEnd < |a| - 1
        invariant Valid() && old(lines) <= lines && lines != []
        invariant 0 <= lineStart == lineEnd + 1 <= |a|
        invariant ReadSoFar(lines, codes, a[..lineStart], n0) && chars == Wrap(codes)
        invariant |lines| + Newlines(a[lineStart..]) <= n0 + Newlines(a) + (if lineStart == |a| then 1 else 0)
        invariant EndedLines(lines, codes, lineStart < |a|)
        invariant Entries(lines) + LineSet(a, lineStart) == Entries(old(lines)) + LineSet(a, 0)
        decreases |a| - lineStart
      {
        lineEnd := IndexOf(a, [NewLine], lineStart);
        if lineEnd == -1 {
          lineEnd := |a| - 1;
        }
        LineFound(a, lineStart, lineEnd);
        assert lineEnd + 1 == LineEnd(a, lineStart);
        var r := a[lineStart..lineEnd + 1];
        ghost var was := lines;
        var k := Number(r);
        assert was <= lines && lines[k] == r;
        ReadLine(was, codes, a[..lineStart], n0, r, k);
        WrapMore(codes, k);
        EndedMore(was, lines, codes, k, r, lineEnd + 1 < |a|);
        assert a[..lineEnd + 1] == a[..lineStart] + r;
        chars := chars + [(k % Capacity) as Unit];
        codes := codes + [k];
        lineStart := lineEnd + 1;
      }
      AllRead(lines, codes, a, n0);
    }
  }

  lemma WrapMore(codes: seq<nat>, k: nat)
    ensures Wrap(codes + [k]) == Wrap(codes) + [(k % Capacity) as Unit]
  {
  }

  lemma ReadNothing(lines: seq<Text>)
    ensures Wrap([]) == []
    ensures ReadSoFar(lines, [], [], |lines|) && EndedLines(lines, [], true) && EndedLines(lines, [], false)
  {
  }

  /** All lines read so far end in a line break; the last one may not when nothing is left. */
  ghost predicate EndedLines(lines: seq<Text>, codes: seq<nat>, more: bool) {
    forall i :: 0 <= i < (if more then |codes| else |codes| - 1) ==> codes[i] < |lines| && Ended(lines[codes[i]])
  }

  lemma EndedMore(lines: seq<Text>, lines': seq<Text>, codes: seq<nat>, k: nat, r: Text, more: bool)
    requires EndedLines(lines, codes, true) && lines <= lines'
    requires k < |lines'| && lines'[k] == r && (more ==> Ended(r))
    ensures EndedLines(lines', codes + [k], more)
  {
    hide Ended;
  }

  lemma AllRead(lines: seq<Text>, codes: seq<nat>, a: Text, n0: nat)
    requires ReadSoFar(lines, codes, a[..|a|], n0) && EndedLines(lines, codes, false)
    ensures Spells(lines, codes, a)
    ensures forall k :: n0 <= k < |lines| ==> FirstMet(codes, k)
  {
    hide FirstMet, Ended;
    assert a[..|a|] == a;
  }

  /** What the search for the next line break finds is a line, closed unless it is the last. */
  lemma {:induction false} LineFound(a: Text, from: nat, to: int)
    requires from < |a|
    requires var e := IndexOf(a, [NewLine], from); to == if e == -1 then |a| - 1 else e
    ensures from <= to < |a| && IsLine(a[from..to + 1])
    ensures to + 1 < |a| ==> Ended(a[from..to + 1])
    ensures Newlines(a[from..]) >= Newlines(a[to + 1..]) + (if to + 1 < |a| then 1 else 0)
  {
    hide Newlines, IndexOf;
    var r := a[from..to + 1];
    NoBreakBefore(a, from, to);
    if to + 1 < |a| {
      assert a[to..to + 1] == [NewLine];
      assert r[|r| - 1] == a[to];
    }
    LineHasOne(r);
    assert a[from..] == r + a[to + 1..];
    NewlinesConcat(r, a[to + 1..]);
  }

  lemma NoBreakBefore(a: Text, from: nat, to: int)
    requires from <= to < |a|
    requires forall k :: from <= k && OccursAt(a, [NewLine], k) ==> k >= to
    ensures IsLine(a[from..to + 1])
  {
    var r := a[from..to + 1];
    forall i | 0 <= i < |r| - 1
      ensures r[i] != NewLine
    {
      assert OccursAt(a, [NewLine], from + i) <==> a[from + i] == NewLine;
    }
  }

  /** `diff_linesToChars_`. Both texts can be read back if and only if they have fewer than 65536 different
      lines. Otherwise the first text falls behind when it is read back or, if it does not, the second. */
  method LinesToChars(a: Text, b: Text) returns (chars1: Text, chars2: Text, lines: seq<Text>)
    ensures Table(lines)
    ensures Readable(chars1, lines) && Readable(chars2, lines)
    ensures (Decode(chars1, lines) == a && Decode(chars2, lines) == b) <==> DistinctLines(a, b) < Capacity
    ensures KeptOrBehind(a, Decode(chars1, lines))
    ensures Decode(chars1, lines) == a ==> KeptOrBehind(b, Decode(chars2, lines))
    ensures DistinctLines(a, b) < Capacity ==> Solid(chars1, lines) && Solid(chars2, lines)
  {
    hide Join, Decode, Wrap, Newlines, FirstMet, Spells, LineSet, Entries, Readable, Behind;
    var table := new LineTable();
    assert Entries([[]]) == {} by { EntriesCounted([[]]); }
    ghost var codes1, codes2;
    chars1, codes1 := table.Munge(a);
    ghost var lines1 := table.lines;
    chars2, codes2 := table.Munge(b);
    lines := table.lines;
    assert Entries(lines) == LineSet(a, 0) + LineSet(b, 0);
    EntriesCounted(lines);
    SpellsGrows(lines1, lines, codes1, a);
    ReadBack(lines1, lines, codes1, a);
    ReadBack(lines, lines, codes2, b);
    if Capacity < |lines1| {
      Lost(lines, codes1, a);
      BehindDiffers(a, Decode(chars1, lines));
    } else if Capacity < |lines| {
      Lost(lines, codes2, b);
      BehindDiffers(b, Decode(chars2, lines));
    }
  }

  /** Every unit stands for some text. */
  ghost predicate Solid(chars: Text, lines: seq<Text>) {
    forall i :: 0 <= i < |chars| ==> chars[i] as int < |lines| && lines[chars[i] as int] != []
  }

  lemma SpellsGrows(lines: seq<Text>, lines': seq<Text>, codes: seq<nat>, a: Text)
    requires Spells(lines, codes, a) && lines <= lines'
    ensures Spells(lines', codes, a)
  {
    JoinGrows(lines, lines', codes);
  }

  /** Texts whose lines are among the first 65535 are read back. */
  lemma {:induction false} ReadBack(lines: seq<Text>, lines': seq<Text>, codes: seq<nat>, a: Text)
    requires Spells(lines, codes, a) && lines <= lines' && Table(lines')
    ensures Readable(Wrap(codes), lines')
    ensures |lines| <= Capacity ==> Decode(Wrap(codes), lines') == a && Solid(Wrap(codes), lines')
  {
    SpellsGrows(lines, lines', codes, a);
    WrappedReadable(lines', codes);
    if |lines| <= Capacity {
      DecodeWrapped(lines', codes);
      WrappedSolid(lines, lines', codes, a);
    }
  }

  lemma WrappedSolid(lines: seq<Text>, lines': seq<Text>, codes: seq<nat>, a: Text)
    requires Spells(lines, codes, a) && lines <= lines' && Table(lines') && |lines| <= Capacity
    ensures Solid(Wrap(codes), lines')
  {
    hide Join;
    forall i | 0 <= i < |codes|
      ensures Wrap(codes)[i] as int < |lines'| && lines'[Wrap(codes)[i] as int] != []
    {
      assert 1 <= codes[i] < |lines| && IsLine(lines'[codes[i]]);
    }
  }

  lemma {:induction false} Lost(lines: seq<Text>, codes: seq<nat>, a: Text)
    requires Table(lines) && Spells(lines, codes, a) && FirstMet(codes, Capacity)
    ensures Readable(Wrap(codes), lines) && Behind(a, Decode(Wrap(codes), lines))
  {
    var i :| 0 <= i < |codes| && codes[i] == Capacity && forall j :: 0 <= j < i ==> codes[j] < Capacity;
    WrappedIsLost(lines, codes, a, i);
  }

  // ----- decoding a diff

  ghost predicate ReadableDiff(s: seq<Diff>, lines: seq<Text>) {
    forall i :: 0 <= i < |s| ==> Readable(s[i].text, lines)
  }

  ghost function DecodeDiff(s: seq<Diff>, lines: seq<Text>): (r: seq<Diff>)
    requires ReadableDiff(s, lines)
    ensures |r| == |s|
    ensures forall i :: 0 <= i < |s| ==> r[i] == Diff(s[i].op, Decode(s[i].text, lines))
  {
    seq(|s|, i requires 0 <= i < |s| => Diff(s[i].op, Decode(s[i].text, lines)))
  }

  lemma {:induction false} DecodeRest(s: seq<Diff>, lines: seq<Text>)
    requires s != [] && ReadableDiff(s, lines)
    ensures ReadableDiff(s[1..], lines) && DecodeDiff(s, lines)[1..] == DecodeDiff(s[1..], lines)
    ensures DecodeDiff(s, lines)[0] == Diff(s[0].op, Decode(s[0].text, lines))
  {
    hide Decode;
  }

  lemma {:induction false} DecodeCommutes1(s: seq<Diff>, lines: seq<Text>)
    requires ReadableDiff(s, lines)
    ensures Readable(Text1(s), lines) && Text1(DecodeDiff(s, lines)) == Decode(Text1(s), lines)
  {
    hide Decode, DecodeDiff;
    DecodeNothing(lines);
    if s != [] {
      DecodeRest(s, lines);
      DecodeCommutes1(s[1..], lines);
      DecodeConcat(if s[0].op == Insert then [] else s[0].text, Text1(s[1..]), lines);
    }
  }

  lemma {:induction false} DecodeCommutes2(s: seq<Diff>, lines: seq<Text>)
    requires ReadableDiff(s, lines)
    ensures Readable(Text2(s), lines) && Text2(DecodeDiff(s, lines)) == Decode(Text2(s), lines)
  {
    hide Decode, DecodeDiff;
    DecodeNothing(lines);
    if s != [] {
      DecodeRest(s, lines);
      DecodeCommutes2(s[1..], lines);
      DecodeConcat(if s[0].op == Delete then [] else s[0].text, Text2(s[1..]), lines);
    }
  }

  /** Decoding a diff of encoded texts gives a diff of the decoded texts. */
  lemma {:induction false} DecodeCommutes(s: seq<Diff>, lines: seq<Text>)
    requires Readable(Text1(s), lines) && Readable(Text2(s), lines)
    ensures ReadableDiff(s, lines)
    ensures Text1(DecodeDiff(s, lines)) == Decode(Text1(s), lines)
    ensures Text2(DecodeDiff(s, lines)) == Decode(Text2(s), lines)
  {
    DiffReadable(s, lines);
    DecodeCommutes1(s, lines);
    DecodeCommutes2(s, lines);
  }

  /** Every unit of a diff occurs in one of its texts. */
  lemma {:induction false} DiffReadable(s: seq<Diff>, lines: seq<Text>)
    requires Readable(Text1(s), lines) && Readable(Text2(s), lines)
    ensures ReadableDiff(s, lines)
  {
    if s != [] {
      var x, t1, t2 := s[0], Text1(s[1..]), Text2(s[1..]);
      ReadableParts(if x.op == Insert then [] else x.text, t1, lines);
      ReadableParts(if x.op == Delete then [] else x.text, t2, lines);
      DiffReadable(s[1..], lines);
      assert forall i :: 1 <= i < |s| ==> s[i] == s[1..][i - 1];
    }
  }

  lemma ReadableParts(x: Text, y: Text, lines: seq<Text>)
    requires Readable(x + y, lines)
    ensures Readable(x, lines) && Readable(y, lines)
  {
    assert forall i :: 0 <= i < |x| ==> (x + y)[i] == x[i];
    assert forall i :: 0 <= i < |y| ==> (x + y)[|x| + i] == y[i];
  }

  method DecodeText(d: Text, lines: seq<Text>) returns (r: Text)
    requires Readable(d, lines)
    ensures r == Decode(d, lines)
  {
    r := [];
    for f := 0 to |d|
      invariant Readable(d[..f], lines) && r == Decode(d[..f], lines)
    {
      DecodeConcat(d[..f], [d[f]], lines);
      assert d[..f + 1] == d[..f] + [d[f]];
      assert [d[f]][1..] == [];
      r := r + lines[d[f] as int];
    }
    assert d[..|d|] == d;
  }

  /** `diff_charsToLines_`: decodes a diff in place. */
  method CharsToLines(a: DiffList, lines: seq<Text>)
    requires ReadableDiff(a.s, lines)
    modifies a
    ensures a.s == DecodeDiff(old(a.s), lines)
  {
    hide Decode;
    for c := 0 to |a.s|
      invariant |a.s| == |old(a.s)|
      invariant forall i :: 0 <= i < c ==> a.s[i] == DecodeDiff(old(a.s), lines)[i]
      invariant forall i :: c <= i < |a.s| ==> a.s[i] == old(a.s)[i]
    {
      var d := DecodeText(a.s[c].text, lines);
      a.s := a.s[c := Diff(a.s[c].op, d)];
    }
  }

  lemma {:induction false} DecodeSolid(chars: Text, lines: seq<Text>)
    requires Solid(chars, lines) && chars != []
    ensures Readable(chars, lines) && Decode(chars, lines) != []
  {
  }

  /** Parts of solid texts are solid. */
  lemma {:induction false} DiffSolid(s: seq<Diff>, lines: seq<Text>)
    requires Solid(Text1(s), lines) && Solid(Text2(s), lines)
    ensures forall i :: 0 <= i < |s| ==> Solid(s[i].text, lines)
  {
    if s != [] {
      var x, t1, t2 := s[0], Text1(s[1..]), Text2(s[1..]);
      SolidParts(if x.op == Insert then [] else x.text, t1, lines);
      SolidParts(if x.op == Delete then [] else x.text, t2, lines);
      DiffSolid(s[1..], lines);
      assert forall i :: 1 <= i < |s| ==> s[i] == s[1..][i - 1];
    }
  }

  lemma SolidParts(x: Text, y: Text, lines: seq<Text>)
    requires Solid(x + y, lines)
    ensures Solid(x, lines) && Solid(y, lines)
  {
    assert forall i :: 0 <= i < |x| ==> (x + y)[i] == x[i];
    assert forall i :: 0 <= i < |y| ==> (x + y)[|x| + i] == y[i];
  }
}
