/** `diff_toDelta` and `diff_fromDelta`: a diff as a line of text against its old text. */
module Delta {
  import opened Texts
  import opened Diffs
  import opened Uri

  const Tab: Unit := 9
  const Plus: Unit := 43
  const Minus: Unit := 45
  const Equals: Unit := 61

  // ----- numbers

  /** A natural number in decimal digits. */
  function Decimal(n: nat): (t: Text)
    ensures t != [] && forall k :: 0 <= k < |t| ==> Digit(t[k])
  {
    if n < 10 then [(48 + n) as Unit] else Decimal(n / 10) + [(48 + n % 10) as Unit]
  }

  datatype Number = NaN | Int(value: int)

  function SkipBlanks(t: Text): Text {
    if t != [] && WhiteSpace(t[0]) then SkipBlanks(t[1..]) else t
  }

  /** The value of the leading digits of `t`, behind digits worth `acc`. */
  function DigitsValue(t: Text, acc: nat): nat {
    if t == [] || !Digit(t[0]) then acc else DigitsValue(t[1..], 10 * acc + (t[0] as int - 48))
  }

  /** `parseInt(t, 10)`: leading blanks and what follows the digits are passed over. */
  function ParseInt(t: Text): Number {
    var u := SkipBlanks(t);
    var signed := u != [] && (u[0] == Plus || u[0] == Minus);
    var v := if signed then u[1..] else u;
    if v == [] || !Digit(v[0]) then NaN
    else
      var n: int := DigitsValue(v, 0);
      Int(if signed && u[0] == Minus then -n else n)
  }

  /** Blanks before a numeral are passed over, and so is what follows its digits; a minus sign counts, a plus sign does not. */
  lemma {:induction false} SignedReadBack(blanks: Text, n: nat, rest: Text)
    requires forall k :: 0 <= k < |blanks| ==> WhiteSpace(blanks[k])
    requires rest == [] || !Digit(rest[0])
    ensures ParseInt(blanks + (Decimal(n) + rest)) == Int(n)
    ensures ParseInt(blanks + ([Plus] + (Decimal(n) + rest))) == Int(n)
    ensures ParseInt(blanks + ([Minus] + (Decimal(n) + rest))) == Int(-(n as int))
  {
    var d := Decimal(n) + rest;
    assert d[0] == Decimal(n)[0];
    DecimalValue(n);
    DigitsEnd(Decimal(n), rest, 0);
    BlanksSkipped(blanks, d);
    BlanksSkipped(blanks, [Plus] + d);
    BlanksSkipped(blanks, [Minus] + d);
    assert ([Plus] + d)[1..] == d && ([Minus] + d)[1..] == d;
  }

  /** Anything else is not a number. */
  lemma {:induction false} NotANumber(blanks: Text, rest: Text)
    requires forall k :: 0 <= k < |blanks| ==> WhiteSpace(blanks[k])
    requires rest == [] || !(Digit(rest[0]) || WhiteSpace(rest[0]))
    ensures rest == [] || !(rest[0] == Plus || rest[0] == Minus) ==> ParseInt(blanks + rest) == NaN
    ensures rest != [] && (|rest| == 1 || !Digit(rest[1])) ==> ParseInt(blanks + rest) == NaN
  {
    BlanksSkipped(blanks, rest);
  }

  lemma {:induction false} BlanksSkipped(blanks: Text, t: Text)
    requires forall k :: 0 <= k < |blanks| ==> WhiteSpace(blanks[k])
    requires t == [] || !WhiteSpace(t[0])
    ensures SkipBlanks(blanks + t) == t
  {
    if blanks == [] {
      assert blanks + t == t;
    } else {
      assert (blanks + t)[1..] == blanks[1..] + t;
      BlanksSkipped(blanks[1..], t);
    }
  }

  lemma {:induction false} DigitsEnd(t: Text, rest: Text, acc: nat)
    requires forall k :: 0 <= k < |t| ==> Digit(t[k])
    requires rest == [] || !Digit(rest[0])
    ensures DigitsValue(t + rest, acc) == DigitsValue(t, acc)
    decreases |t|
  {
    if t == [] {
      assert t + rest == rest;
    } else {
      assert (t + rest)[1..] == t[1..] + rest;
      DigitsEnd(t[1..], rest, 10 * acc + (t[0] as int - 48));
    }
  }

  lemma {:induction false} OneMoreDigit(t: Text, d: Unit, acc: nat)
    requires Digit(d) && forall k :: 0 <= k < |t| ==> Digit(t[k])
    ensures DigitsValue(t + [d], acc) == 10 * DigitsValue(t, acc) + (d as int - 48)
  {
    if t == [] {
      assert [] + [d] == [d] && [d][1..] == [];
    } else {
      assert (t + [d])[1..] == t[1..] + [d];
      OneMoreDigit(t[1..], d, 10 * acc + (t[0] as int - 48));
    }
  }

  lemma {:induction false} DecimalValue(n: nat)
    ensures DigitsValue(Decimal(n), 0) == n
  {
    if n < 10 {
      assert Decimal(n)[1..] == [];
    } else {
      DecimalValue(n / 10);
      OneMoreDigit(Decimal(n / 10), (48 + n % 10) as Unit, 0);
    }
  }

  lemma {:induction false} DecimalReadBack(n: nat)
    ensures ParseInt(Decimal(n)) == Int(n)
  {
    DecimalValue(n);
    assert Digit(Decimal(n)[0]);
  }

  // ----- blanks instead of escapes

  const EscapedSpace: Text := [Percent, 50, 48]

  /** `t.replace(/%20/g, " ")`. */
  function Spaced(t: Text): Text {
    if t == [] then []
    else if EscapedSpace <= t then [Space] + Spaced(t[3..])
    else [t[0]] + Spaced(t[1..])
  }

  lemma {:induction false} SpacedOther(c: Unit, t: Text)
    requires c != Percent
    ensures Spaced([c] + t) == [c] + Spaced(t)
  {
    assert ([c] + t)[0] == c && ([c] + t)[1..] == t;
  }

  lemma {:induction false} SpacedEscape(b: int, t: Text)
    requires 0 <= b < 256
    ensures Spaced(Escape(b) + t) == (if b == 0x20 then [Space] else Escape(b)) + Spaced(t)
  {
    var x, y := HexDigit(b / 16), HexDigit(b % 16);
    var e := Escape(b) + t;
    if b == 0x20 {
      assert e[..3] == EscapedSpace && e[3..] == t;
    } else {
      assert e[1] != 50 || e[2] != 48;
      assert e[1..] == [x] + ([y] + t);
      SpacedOther(x, [y] + t);
      SpacedOther(y, t);
      assert Escape(b) + Spaced(t) == [Percent] + ([x] + ([y] + Spaced(t)));
    }
  }

  lemma {:induction false} SpacedEscapes(os: seq<int>, t: Text)
    requires forall k :: 0 <= k < |os| ==> 0 <= os[k] < 256 && os[k] != 0x20
    ensures Spaced(EscapeAll(os) + t) == EscapeAll(os) + Spaced(t)
  {
    hide Escape, Spaced;
    if os == [] {
      assert [] + t == t && [] + Spaced(t) == Spaced(t);
    } else {
      var e, r := Escape(os[0]), EscapeAll(os[1..]);
      assert e + r + t == e + (r + t) && e + r + Spaced(t) == e + (r + Spaced(t));
      SpacedEscape(os[0], r + t);
      SpacedEscapes(os[1..], t);
    }
  }

  /** A text without escapes is left alone. */
  lemma {:induction false} SpacedPlain(t: Text)
    requires Percent !in t
    ensures Spaced(t) == t
  {
    if t != [] {
      assert !(EscapedSpace <= t) by {
        assert t[0] != EscapedSpace[0];
      }
      SpacedPlain(t[1..]);
    }
  }

  /** An escaped blank never straddles a tab. */
  lemma {:induction false} SpacedAtTab(t: Text, u: Text)
    ensures Spaced(t + [Tab] + u) == Spaced(t) + [Tab] + Spaced(u)
    decreases |t|
  {
    var w := t + [Tab] + u;
    if t == [] {
      assert w == [Tab] + u;
      SpacedOther(Tab, u);
      assert [] + [Tab] + Spaced(u) == [Tab] + Spaced(u);
    } else if EscapedSpace <= t {
      assert w[..3] == t[..3] == EscapedSpace && w[3..] == t[3..] + [Tab] + u;
      SpacedAtTab(t[3..], u);
      Behind(Space, Spaced(t[3..]), Spaced(u));
    } else {
      NotAcross(t, u);
      assert w[0] == t[0] && w[1..] == t[1..] + [Tab] + u;
      SpacedAtTab(t[1..], u);
      Behind(t[0], Spaced(t[1..]), Spaced(u));
    }
  }

  lemma NotAcross(t: Text, u: Text)
    ensures EscapedSpace <= t + [Tab] + u ==> EscapedSpace <= t
  {
    TabBehind(t, u);
    if |t| >= 3 {
      assert (t + [Tab] + u)[..3] == t[..3];
    }
  }

  lemma TabBehind(t: Text, u: Text)
    ensures |t + [Tab] + u| > |t| && (t + [Tab] + u)[|t|] == Tab
  {
  }

  lemma Behind(c: Unit, t: Text, u: Text)
    ensures [c] + (t + [Tab] + u) == [c] + t + [Tab] + u
  {
  }

  // ----- insertions read back

  lemma NoBlankOctets(v: int)
    requires Scalar(v) && v != 0x20
    ensures forall k :: 0 <= k < |Octets(v)| ==> Octets(v)[k] != 0x20
  {
  }

  /** The front of a text, encoded and with blanks put in, is read back as that front. */
  lemma {:induction false} FrontReadBack(v: int, r: Text)
    requires Scalar(v)
    ensures var e := if v == 0x20 then [Space] else EncodedPoint(v);
            && Spaced(EncodedPoint(v) + r) == e + Spaced(r)
            && e != [] && FrontPiece(e + Spaced(r)) == Piece(UnitsOf(v), |e|)
  {
    hide Spaced, Octets, EscapeAll, CodePoint, Announced;
    if v < 0x10000 && Unescaped(v as Unit) {
      SpacedOther(v as Unit, r);
    } else if v == 0x20 {
      BlankOctets();
      SpacedEscape(0x20, r);
    } else {
      NoBlankOctets(v);
      SpacedEscapes(Octets(v), r);
      PointReadBack(v, Spaced(r));
      EscapesReadBack([], Octets(v), [], 0);
    }
  }

  lemma BlankOctets()
    ensures EscapeAll(Octets(0x20)) == Escape(0x20)
  {
    assert EscapeAll([0x20]) == Escape(0x20) + EscapeAll([]);
  }

  lemma {:induction false} FrontUnits(t: Text)
    requires t != [] && WellFormed(t)
    ensures FrontWidth(t) <= |t| && WellFormed(t[FrontWidth(t)..]) && UnitsOf(FrontPoint(t)) == t[..FrontWidth(t)]
  {
    hide UnitsOf, Scalar, WellFormed;
    FrontWhole(t);
    if High(t[0]) {
      PairUnits(t[0], t[1]);
      assert t[..2] == [t[0], t[1]];
    } else {
      SingleUnit(t[0]);
      assert t[..1] == [t[0]];
    }
  }

  lemma {:induction false} FrontWhole(t: Text)
    requires t != [] && WellFormed(t)
    ensures FrontWidth(t) <= |t| && WellFormed(t[FrontWidth(t)..])
    ensures if High(t[0]) then Low(t[1]) else !Low(t[0])
  {
  }

  lemma SingleUnit(x: Unit)
    requires !High(x) && !Low(x)
    ensures Scalar(x as int) && UnitsOf(x as int) == [x]
  {
  }

  lemma PairUnits(x: Unit, y: Unit)
    requires High(x) && Low(y)
    ensures var v := (x as int - 0xD800) * 1024 + (y as int - 0xDC00) + 0x10000; Scalar(v) && UnitsOf(v) == [x, y]
  {
    PairParts(x as int - 0xD800, y as int - 0xDC00);
  }

  lemma PairParts(x: int, y: int)
    requires 0 <= x < 1024 && 0 <= y < 1024
    ensures (x * 1024 + y) / 1024 == x && (x * 1024 + y) % 1024 == y
  {
  }

  lemma {:induction false} InsertionReadBack(t: Text)
    requires WellFormed(t)
    ensures EncodeURI(t).Done? && DecodeURI(Spaced(EncodeURI(t).value)) == Done(t)
    decreases |t|
  {
    hide FrontPiece, EncodedPoint, UnitsOf, Scalar;
    if t != [] {
      var v, n := FrontPoint(t), FrontWidth(t);
      FrontUnits(t);
      InsertionReadBack(t[n..]);
      var r := EncodeURI(t[n..]).value;
      FrontReadBack(v, r);
      var e := if v == 0x20 then [Space] else EncodedPoint(v);
      assert (e + Spaced(r))[|e|..] == Spaced(r);
      assert t == t[..n] + t[n..];
    }
  }

  // ----- lines of tokens

  /** `ts.join("\t")`. */
  function JoinTabs(ts: seq<Text>): Text {
    if ts == [] then []
    else if |ts| == 1 then ts[0]
    else ts[0] + [Tab] + JoinTabs(ts[1..])
  }

  /** `t.split(/\t/g)`. */
  function SplitTabs(t: Text): (ts: seq<Text>)
    ensures ts != []
  {
    if t == [] then [[]]
    else
      var ts := SplitTabs(t[1..]);
      if t[0] == Tab then [[]] + ts else [[t[0]] + ts[0]] + ts[1..]
  }

  lemma {:induction false} SplitAtTab(x: Text, t: Text)
    requires Tab !in x
    ensures SplitTabs(x + [Tab] + t) == [x] + SplitTabs(t)
  {
    var w := x + [Tab] + t;
    if x == [] {
      assert w[0] == Tab && w[1..] == t;
    } else {
      SplitAtTab(x[1..], t);
      assert w[0] == x[0] && w[1..] == x[1..] + [Tab] + t;
      assert x == [x[0]] + x[1..];
    }
  }

  lemma {:induction false} SplitNoTab(x: Text)
    requires Tab !in x
    ensures SplitTabs(x) == [x]
  {
    if x != [] {
      SplitNoTab(x[1..]);
      assert x == [x[0]] + x[1..];
    }
  }

  lemma {:induction false} SplitJoined(ts: seq<Text>)
    requires ts != [] && forall k :: 0 <= k < |ts| ==> Tab !in ts[k]
    ensures SplitTabs(JoinTabs(ts)) == ts
  {
    hide SplitTabs;
    if |ts| == 1 {
      SplitNoTab(ts[0]);
    } else {
      SplitJoined(ts[1..]);
      SplitAtTab(ts[0], JoinTabs(ts[1..]));
    }
  }

  function EachSpaced(ts: seq<Text>): (us: seq<Text>)
    ensures |us| == |ts| && forall k :: 0 <= k < |ts| ==> us[k] == Spaced(ts[k])
  {
    seq(|ts|, k requires 0 <= k < |ts| => Spaced(ts[k]))
  }

  lemma {:induction false} SpacedJoined(ts: seq<Text>)
    ensures Spaced(JoinTabs(ts)) == JoinTabs(EachSpaced(ts))
  {
    if ts == [] {
    } else if |ts| == 1 {
      assert EachSpaced(ts) == [Spaced(ts[0])];
    } else {
      SpacedJoined(ts[1..]);
      hide Spaced;
      SpacedAtTab(ts[0], JoinTabs(ts[1..]));
      assert EachSpaced(ts)[1..] == EachSpaced(ts[1..]);
    }
  }

  // ----- writing

  /** One entry: an insertion with its text, a deletion or an equality with its length. */
  function Token(x: Diff): Outcome<Text> {
    match x.op
    case Insert => (match EncodeURI(x.text)
                    case Done(t) => Done([Plus] + t)
                    case Thrown => Thrown)
    case Delete => Done([Minus] + Decimal(|x.text|))
    case Equal => Done([Equals] + Decimal(|x.text|))
  }

  function Tokens(s: seq<Diff>): Outcome<seq<Text>> {
    if s == [] then Done([])
    else match Token(s[0])
         case Thrown => Thrown
         case Done(t) =>
           match Tokens(s[1..])
           case Thrown => Thrown
           case Done(ts) => Done([t] + ts)
  }

  function Delta(s: seq<Diff>): Outcome<Text> {
    match Tokens(s)
    case Done(ts) => Done(Spaced(JoinTabs(ts)))
    case Thrown => Thrown
  }

  /** `diff_toDelta`. */
  method ToDelta(a: DiffList) returns (r: Outcome<Text>)
    ensures r == Delta(a.s)
    ensures r.Done? <==> forall k :: 0 <= k < |a.s| && a.s[k].op == Insert ==> WellFormed(a.s[k].text)
  {
    hide WellFormed, EncodeURI, Spaced, JoinTabs, Token;
    DeltaExists(a.s);
    var b: seq<Text> := [];
    var c := 0;
    assert a.s[0..] == a.s;
    PrependedOne([], [], Tokens(a.s));
    while c < |a.s|
      invariant 0 <= c <= |a.s|
      invariant Tokens(a.s) == Prepended(b, Tokens(a.s[c..]))
    {
      assert a.s[c..][0] == a.s[c] && a.s[c..][1..] == a.s[c + 1..];
      var t := WriteToken(a.s[c]);
      if t.Thrown? {
        return Thrown;
      }
      PrependedOne(b, t.value, Tokens(a.s[c + 1..]));
      b := b + [t.value];
      c := c + 1;
    }
    assert b + [] == b;
    r := Done(Spaced(JoinTabs(b)));
  }

  method WriteToken(x: Diff) returns (t: Outcome<Text>)
    ensures t == Token(x)
  {
    match x.op {
      case Insert =>
        var e := EncodeURI(x.text);
        t := if e.Thrown? then Thrown else Done([Plus] + e.value);
      case Delete =>
        t := Done([Minus] + Decimal(|x.text|));
      case Equal =>
        t := Done([Equals] + Decimal(|x.text|));
    }
  }

  function Prepended(b: seq<Text>, r: Outcome<seq<Text>>): Outcome<seq<Text>> {
    match r
    case Done(ts) => Done(b + ts)
    case Thrown => Thrown
  }

  lemma PrependedOne(b: seq<Text>, t: Text, r: Outcome<seq<Text>>)
    ensures Prepended(b, Prepended([t], r)) == Prepended(b + [t], r)
    ensures Prepended([], r) == r
  {
    if r.Done? {
      assert b + ([t] + r.value) == b + [t] + r.value && [] + r.value == r.value;
    }
  }

  lemma {:induction false} TokensExist(s: seq<Diff>)
    ensures Tokens(s).Done? <==> forall k :: 0 <= k < |s| && s[k].op == Insert ==> WellFormed(s[k].text)
  {
    hide WellFormed, EncodeURI;
    if s != [] {
      EncodesWellFormed(s[0].text);
      TokensExist(s[1..]);
      assert forall k :: 1 <= k < |s| ==> s[k] == s[1..][k - 1];
      if Tokens(s).Thrown? && Token(s[0]).Done? {
        var k :| 0 <= k < |s[1..]| && s[1..][k].op == Insert && !WellFormed(s[1..][k].text);
        assert s[k + 1] == s[1..][k];
      }
    }
  }

  /** A diff has a delta exactly when no insertion holds half a surrogate pair. */
  lemma DeltaExists(s: seq<Diff>)
    ensures Delta(s).Done? <==> forall k :: 0 <= k < |s| && s[k].op == Insert ==> WellFormed(s[k].text)
  {
    hide WellFormed, Spaced, JoinTabs;
    TokensExist(s);
  }

  // ----- reading

  datatype DeltaError = IllegalEscape(t: Text) | InvalidNumber(t: Text) | InvalidOperation(t: Text) | WrongLength(e: nat, n: nat)

  datatype Parsed = Parsed(s: seq<Diff>, e: nat) | Illegal(error: DeltaError)

  /** One token, read at place `e` of the old text `a`; an empty one stands for nothing. */
  function ReadToken(a: Text, t: Text, e: nat): Parsed {
    var h := Substring(t, 1, |t|);
    var c := CharAt(t, 0);
    if c == [Plus] then
      match DecodeURI(h)
      case Done(x) => Parsed([Diff(Insert, x)], e)
      case Thrown => Illegal(IllegalEscape(h))
    else if c == [Minus] || c == [Equals] then
      var i := ParseInt(h);
      if i.NaN? || 0 > i.value then Illegal(InvalidNumber(h))
      else Parsed([Diff(if c == [Equals] then Equal else Delete, Substring(a, e, e + i.value))], e + i.value)
    else if t != [] then Illegal(InvalidOperation(t))
    else Parsed([], e)
  }

  function ReadTokens(a: Text, ts: seq<Text>, e: nat): Parsed {
    if ts == [] then Parsed([], e)
    else match ReadToken(a, ts[0], e)
         case Illegal(x) => Illegal(x)
         case Parsed(s, f) =>
           match ReadTokens(a, ts[1..], f)
           case Illegal(x) => Illegal(x)
           case Parsed(r, g) => Parsed(s + r, g)
  }

  /** The diff that a delta stands for against the old text `a`. */
  function ReadDelta(a: Text, delta: Text): Parsed {
    match ReadTokens(a, SplitTabs(delta), 0)
    case Illegal(x) => Illegal(x)
    case Parsed(s, e) => if e != |a| then Illegal(WrongLength(e, |a|)) else Parsed(s, e)
  }

  function Added(c: seq<Diff>, r: Parsed): Parsed {
    match r
    case Illegal(x) => Illegal(x)
    case Parsed(s, e) => Parsed(c + s, e)
  }

  /** `diff_fromDelta`. */
  method FromDelta(a: Text, b: Text) returns (r: Parsed)
    ensures r == ReadDelta(a, b)
    ensures r.Parsed? ==> Text1(r.s) == a
  {
    hide Text1, DecodeURI, SplitTabs, ParseInt, Substring;
    if ReadDelta(a, b).Parsed? {
      DeltaFitsText(a, b);
    }
    var c: seq<Diff> := [];
    var e := 0;
    var f := SplitTabs(b);
    var g := 0;
    assert f[0..] == f;
    while g < |f|
      invariant 0 <= g <= |f| && e >= 0
      invariant ReadTokens(a, f, 0) == Added(c, ReadTokens(a, f[g..], e))
    {
      assert f[g..][0] == f[g] && f[g..][1..] == f[g + 1..];
      var x := ParseToken(a, f[g], e);
      if x.Illegal? {
        return x;
      }
      AddedTwice(c, x.s, ReadTokens(a, f[g + 1..], x.e));
      c, e := c + x.s, x.e;
      g := g + 1;
    }
    if e != |a| {
      return Illegal(WrongLength(e, |a|));
    }
    r := Parsed(c, e);
  }

  lemma AddedTwice(c: seq<Diff>, s: seq<Diff>, r: Parsed)
    ensures Added(c, Added(s, r)) == Added(c + s, r)
  {
    if r.Parsed? {
      assert c + (s + r.s) == c + s + r.s;
    }
  }

  method ParseToken(a: Text, t: Text, e: nat) returns (r: Parsed)
    ensures r == ReadToken(a, t, e)
  {
    hide DecodeURI, ParseInt, Substring;
    var h := Substring(t, 1, |t|);
    if CharAt(t, 0) == [Plus] {
      var x := DecodeURI(h);
      r := if x.Thrown? then Illegal(IllegalEscape(h)) else Parsed([Diff(Insert, x.value)], e);
    } else if CharAt(t, 0) == [Minus] || CharAt(t, 0) == [Equals] {
      var i := ParseInt(h);
      if i.NaN? || 0 > i.value {
        return Illegal(InvalidNumber(h));
      }
      h := Substring(a, e, e + i.value);
      r := Parsed([Diff(if CharAt(t, 0) == [Equals] then Equal else Delete, h)], e + i.value);
    } else if t != [] {
      r := Illegal(InvalidOperation(t));
    } else {
      r := Parsed([], e);
    }
  }

  // ----- what an accepted delta says

  lemma TokenFitsText(a: Text, t: Text, e: nat)
    requires ReadToken(a, t, e).Parsed? && ReadToken(a, t, e).e <= |a|
    ensures var r := ReadToken(a, t, e); e <= r.e && Text1(r.s) == a[e..r.e]
  {
    hide DecodeURI, ParseInt;
    var r := ReadToken(a, t, e);
    assert a[e..e] == [];
    if r.s != [] {
      assert r.s == [r.s[0]];
      Single(r.s[0]);
    }
  }

  lemma {:induction false} TokensFitText(a: Text, ts: seq<Text>, e: nat)
    requires ReadTokens(a, ts, e).Parsed? && ReadTokens(a, ts, e).e <= |a|
    ensures var r := ReadTokens(a, ts, e); e <= r.e && Text1(r.s) == a[e..r.e]
    decreases |ts|
  {
    hide ReadToken, Text1, EditChars, Equalities;
    var r := ReadTokens(a, ts, e);
    if ts == [] {
      NoText();
      assert a[e..e] == [];
    } else {
      var x := ReadToken(a, ts[0], e);
      var y := ReadTokens(a, ts[1..], x.e);
      TokensFitText(a, ts[1..], x.e);
      TokenFitsText(a, ts[0], e);
      Concat(x.s, y.s);
      assert a[e..r.e] == a[e..x.e] + a[x.e..r.e];
    }
  }

  lemma NoText()
    ensures Text1([]) == []
  {
  }

  /** Whatever delta is accepted, the diff read from it has the given text as its old text. */
  lemma DeltaFitsText(a: Text, delta: Text)
    requires ReadDelta(a, delta).Parsed?
    ensures Text1(ReadDelta(a, delta).s) == a
  {
    hide SplitTabs;
    TokensFitText(a, SplitTabs(delta), 0);
    assert a[0..|a|] == a;
  }

  // ----- the round trip

  lemma TokenReadBack(p: Text, x: Diff, q: Text)
    requires Token(x).Done?
    ensures var o := if x.op == Insert then [] else x.text;
            ReadToken(p + o + q, Spaced(Token(x).value), |p|) == Parsed([x], |p + o|)
  {
    hide Spaced, DecodeURI, ParseInt, EncodeURI, WellFormed, Decimal;
    var c := if x.op == Insert then Plus else if x.op == Delete then Minus else Equals;
    var t := Token(x).value[1..];
    assert Token(x).value == [c] + t;
    SpacedOther(c, t);
    TokenText([c] + Spaced(t), c, Spaced(t));
    if x.op == Insert {
      EncodesWellFormed(x.text);
      InsertionReadBack(x.text);
    } else {
      NoPercent(|x.text|);
      SpacedPlain(t);
      DecimalReadBack(|x.text|);
      StretchOf(p, x.text, q);
    }
  }

  lemma TokenText(t: Text, c: Unit, u: Text)
    requires t == [c] + u
    ensures Substring(t, 1, |t|) == u && CharAt(t, 0) == [c]
  {
  }

  lemma {:induction false} NoPercent(n: nat)
    ensures Percent !in Decimal(n)
  {
    assert !Digit(Percent);
  }

  lemma StretchOf(p: Text, o: Text, q: Text)
    ensures Substring(p + o + q, |p|, |p| + |o|) == o
  {
  }

  lemma NoTokens()
    ensures Tokens([]) == Done([]) && EachSpaced([]) == []
  {
  }

  lemma {:induction false} RestOfTokens(s: seq<Diff>)
    requires s != [] && Tokens(s).Done?
    ensures Token(s[0]).Done? && Tokens(s[1..]).Done?
    ensures var us := EachSpaced(Tokens(s).value);
            us != [] && us[0] == Spaced(Token(s[0]).value) && us[1..] == EachSpaced(Tokens(s[1..]).value)
  {
    hide Token, Spaced;
  }

  lemma {:induction false} TokensReadBack(p: Text, s: seq<Diff>)
    requires Tokens(s).Done?
    ensures ReadTokens(p + Text1(s), EachSpaced(Tokens(s).value), |p|) == Parsed(s, |p + Text1(s)|)
    decreases |s|
  {
    hide ReadToken, Token, Spaced, Tokens, EachSpaced;
    if s == [] {
      NoTokens();
      assert p + [] == p;
    } else {
      var o, r := if s[0].op == Insert then [] else s[0].text, s[1..];
      RestOfTokens(s);
      TokenReadBack(p, s[0], Text1(r));
      TokensReadBack(p + o, r);
      assert p + (o + Text1(r)) == p + o + Text1(r);
      assert s == [s[0]] + r;
    }
  }

  lemma {:induction false} TokensWithoutTabs(s: seq<Diff>)
    requires Tokens(s).Done?
    ensures |Tokens(s).value| == |s| && forall k :: 0 <= k < |s| ==> Tab !in Spaced(Tokens(s).value[k])
  {
    hide Token, Spaced;
    if s != [] {
      TokenWithoutTab(s[0]);
      TokensWithoutTabs(s[1..]);
    }
  }

  lemma TokenWithoutTab(x: Diff)
    requires Token(x).Done?
    ensures Tab !in Spaced(Token(x).value)
  {
    hide Spaced, EncodeURI, Decimal;
    var t := Token(x).value;
    if x.op == Insert {
      EncodedWithoutTab(x.text);
    } else {
      assert !Digit(Tab);
    }
    SpacedKeepsOut(t);
  }

  lemma {:induction false} SpacedKeepsOut(t: Text)
    requires Tab !in t
    ensures Tab !in Spaced(t)
    decreases |t|
  {
    if t == [] {
    } else if EscapedSpace <= t {
      SpacedKeepsOut(t[3..]);
    } else {
      SpacedKeepsOut(t[1..]);
    }
  }

  lemma {:induction false} EncodedWithoutTab(t: Text)
    requires EncodeURI(t).Done?
    ensures Tab !in EncodeURI(t).value
    decreases |t|
  {
    hide EncodedPoint;
    if t != [] {
      EncodedWithoutTab(t[FrontWidth(t)..]);
      var v := if High(t[0]) then (t[0] as int - 0xD800) * 1024 + (t[1] as int - 0xDC00) + 0x10000 else t[0] as int;
      PointWithoutTab(v);
    }
  }

  lemma PointWithoutTab(v: int)
    requires Scalar(v)
    ensures Tab !in EncodedPoint(v)
  {
    hide Octets;
    EscapesWithoutTab(Octets(v));
  }

  lemma {:induction false} EscapesWithoutTab(os: seq<int>)
    requires forall k :: 0 <= k < |os| ==> 0 <= os[k] < 256
    ensures Tab !in EscapeAll(os)
  {
    if os != [] {
      EscapesWithoutTab(os[1..]);
    }
  }

  /** Reading the delta of a diff against its old text gives the diff back, entry by entry. */
  lemma {:induction false} RoundTrip(s: seq<Diff>)
    requires Delta(s).Done?
    ensures ReadDelta(Text1(s), Delta(s).value) == Parsed(s, |Text1(s)|)
  {
    hide ReadToken, Token, Spaced;
    var ts := Tokens(s).value;
    SpacedJoined(ts);
    TokensReadBack([], s);
    assert [] + Text1(s) == Text1(s);
    if s == [] {
      EmptyDelta();
    } else {
      TokensWithoutTabs(s);
      hide SplitTabs, JoinTabs;
      SplitJoined(EachSpaced(ts));
    }
  }

  lemma EmptyDelta()
    ensures ReadDelta([], Spaced(JoinTabs([]))) == Parsed([], 0)
  {
    assert SplitTabs([]) == [[]];
    assert ReadToken([], [], 0) == Parsed([], 0);
    assert ReadTokens([], [[]], 0) == Parsed([], 0);
  }
}
