/** What patches are for: made from one text to another, they turn the one into the other. */
module PatchLaw {
  import opened Texts
  import opened Diffs
  import opened DiffMain
  import opened Patches
  import opened PatchMake
  import opened PatchApply

  /** For every diff list: the patches made from it and its old text turn the old text into the new one, and all succeed. */
  method DiffAsPatches(fuzzy: Matcher, s: seq<Diff>, timeout: real) returns (t: Text, flags: seq<bool>)
    ensures t == Text2(s) && false !in flags
  {
    hide Text1, Text2, Chain, RootedEnds;
    var c;
    ghost var cuts;
    c, cuts := MakeFromDiff(Text1(s), s);
    ghost var parts, steps;
    t, flags, parts, steps := Apply(fuzzy, c, Text1(s), timeout, Text2(s));
  }

  /** For every two texts that line mode gets through: the patches made from `a` and `b` turn `a` into `b`, and all succeed. */
  method MakeAndApply(fuzzy: Matcher, a: Text, b: Text, timeout: real) returns (t: Text, flags: seq<bool>, hangs: bool)
    ensures Safe(timeout, a, b) ==> !hangs && t == b && false !in flags
  {
    hide Safe, Chain, RootedEnds;
    t, flags := [], [];
    var c;
    ghost var w, cuts;
    c, hangs, w, cuts := MakeFromTexts(a, b, timeout);
    if !hangs {
      ghost var parts, steps;
      t, flags, parts, steps := Apply(fuzzy, c, a, timeout, b);
    }
  }
}
