/** `encodeURI` and `decodeURI`, sections 15.1.3.3 and 15.1.3.1 of ECMA-262, edition 5.1, on UTF-16 texts. */
module Uri {
  import opened Texts

  datatype Outcome<T> = Done(value: T) | Thrown

  const Percent: Unit := 37
  const Space: Unit := 32

  /** The marks `- _ . ! ~ * ' ( )`. */
  predicate Mark(c: Unit) {
    c == 45 || c == 95 || c == 46 || c == 33 || c == 126 || 39 <= c <= 42
  }

  /** `; / ? : @ & = + $ ,` and `#`, which decoding leaves escaped. */
  predicate Reserved(c: Unit) {
    c == 59 || c == 47 || c == 63 || c == 58 || c == 64 || c == 38 || c == 61 || c == 43 || c == 36 || c == 44 || c == 35
  }

  predicate Unescaped(c: Unit) {
    Letter(c) || Digit(c) || Mark(c) || Reserved(c)
  }

  const Marks := "-_.!~*'()"
  const ReservedMarks := ";/?:@&=+$,#"

  predicate IsOneOf(c: Unit, s: string) {
    exists k :: 0 <= k < |s| && c as int == s[k] as int
  }

  predicate InRange(c: Unit, x: char, y: char) {
    x as int <= c as int <= y as int
  }

  /** The units that `encodeURI` leaves alone, one by one: sections 2.2 and 2.3 of RFC 2396 with the number sign. */
  lemma UnescapedAre(c: Unit)
    ensures Reserved(c) <==> IsOneOf(c, ReservedMarks)
    ensures Unescaped(c) <==> InRange(c, 'A', 'Z') || InRange(c, 'a', 'z') || InRange(c, '0', '9') || IsOneOf(c, Marks) || IsOneOf(c, ReservedMarks)
  {
    MarksAre(c);
    ReservedAre(c);
  }

  lemma MarksAre(c: Unit)
    ensures Mark(c) <==> IsOneOf(c, Marks)
  {
    var s := Marks;
    assert |s| == 9;
    assert s[0] as int == 45 && s[1] as int == 95 && s[2] as int == 46 && s[3] as int == 33 && s[4] as int == 126;
    assert s[5] as int == 42 && s[6] as int == 39 && s[7] as int == 40 && s[8] as int == 41;
  }

  lemma ReservedAre(c: Unit)
    ensures Reserved(c) <==> IsOneOf(c, ReservedMarks)
  {
    var s := ReservedMarks;
    assert |s| == 11;
    assert s[0] as int == 59 && s[1] as int == 47 && s[2] as int == 63 && s[3] as int == 58 && s[4] as int == 64 && s[5] as int == 38;
    assert s[6] as int == 61 && s[7] as int == 43 && s[8] as int == 36 && s[9] as int == 44 && s[10] as int == 35;
  }

  predicate High(c: Unit) {
    0xD800 <= c <= 0xDBFF
  }

  predicate Low(c: Unit) {
    0xDC00 <= c <= 0xDFFF
  }

  /** No half of a surrogate pair stands alone. */
  predicate WellFormed(t: Text) {
    if t == [] then true
    else if High(t[0]) then |t| >= 2 && Low(t[1]) && WellFormed(t[2..])
    else !Low(t[0]) && WellFormed(t[1..])
  }

  // ----- UTF-8

  /** A code point that is no surrogate. */
  predicate Scalar(v: int) {
    0 <= v <= 0x10FFFF && !(0xD800 <= v <= 0xDFFF)
  }

  /** Surrogates alone are no texts, and every other unit is one. */
  lemma ScalarUnits(c: Unit)
    ensures Scalar(c as int) <==> WellFormed([c])
  {
    assert [c][1..] == [];
  }

  /** The form is the shortest one: section 3 of RFC 3629. */
  lemma OctetsAreFew(v: int)
    requires 0 <= v <= 0x10FFFF
    ensures |Octets(v)| == if v <= 0x7F then 1 else if v <= 0x7FF then 2 else if v <= 0xFFFF then 3 else 4
  {
  }

  function Octets(v: int): (os: seq<int>)
    requires 0 <= v <= 0x10FFFF
    ensures 1 <= |os| <= 4 && forall k :: 0 <= k < |os| ==> 0 <= os[k] < 256
  {
    if v < 0x80 then [v]
    else if v < 0x800 then [0xC0 + v / 64, 0x80 + v % 64]
    else if v < 0x10000 then [0xE0 + v / 4096, 0x80 + v / 64 % 64, 0x80 + v % 64]
    else [0xF0 + v / 262144, 0x80 + v / 4096 % 64, 0x80 + v / 64 % 64, 0x80 + v % 64]
  }

  /** How many octets the first one announces; 0 if it cannot be a first one. */
  function Announced(b: int): (n: nat)
    ensures n <= 4
  {
    if 0 <= b < 0x80 then 1
    else if 0xC0 <= b < 0xE0 then 2
    else if 0xE0 <= b < 0xF0 then 3
    else if 0xF0 <= b < 0xF8 then 4
    else 0
  }

  predicate Continuation(b: int) {
    0x80 <= b < 0xC0
  }

  /** The code point of a sequence of octets, -1 unless it is the UTF-8 form of one. */
  function CodePoint(os: seq<int>): int {
    var v :=
      if |os| == 1 then os[0]
      else if |os| == 2 then (os[0] - 0xC0) * 64 + (os[1] - 0x80)
      else if |os| == 3 then (os[0] - 0xE0) * 4096 + (os[1] - 0x80) * 64 + (os[2] - 0x80)
      else if |os| == 4 then (os[0] - 0xF0) * 262144 + (os[1] - 0x80) * 4096 + (os[2] - 0x80) * 64 + (os[3] - 0x80)
      else -1;
    if Scalar(v) && Octets(v) == os then v else -1
  }

  /** UTF-8 is read back, and the first octet announces the length. */
  lemma OctetsReadBack(v: int)
    requires Scalar(v)
    ensures var os := Octets(v);
            CodePoint(os) == v && Announced(os[0]) == |os| && forall k :: 0 < k < |os| ==> Continuation(os[k])
  {
    if v >= 0x10000 {
      FourOctets(v);
    } else if v >= 0x800 {
      ThreeOctets(v);
    } else if v >= 0x80 {
      assert v == v / 64 * 64 + v % 64;
    }
  }

  /** The digits of a number to the base 64. */
  lemma Sixties(v: nat)
    ensures v == v / 4096 * 4096 + v / 64 % 64 * 64 + v % 64
    ensures 0 <= v / 64 % 64 < 64 && 0 <= v % 64 < 64
  {
    var w := v / 64;
    assert v == w * 64 + v % 64;
    assert w == w / 64 * 64 + w % 64;
    assert w / 64 == v / 4096;
  }

  lemma ThreeOctets(v: int)
    requires Scalar(v) && 0x800 <= v < 0x10000
    ensures var os := Octets(v);
            CodePoint(os) == v && Announced(os[0]) == |os| && forall k :: 0 < k < |os| ==> Continuation(os[k])
  {
    Sixties(v);
    ThreeDigits(v, v / 4096, v / 64 % 64, v % 64);
  }

  lemma ThreeDigits(v: int, x: int, y: int, z: int)
    requires Scalar(v) && v == x * 4096 + y * 64 + z && 0 <= y < 64 && 0 <= z < 64 && 0 <= x < 16
    requires Octets(v) == [0xE0 + x, 0x80 + y, 0x80 + z]
    ensures var os := Octets(v);
            CodePoint(os) == v && Announced(os[0]) == |os| && forall k :: 0 < k < |os| ==> Continuation(os[k])
  {
    hide Octets;
  }

  lemma FourOctets(v: int)
    requires Scalar(v) && v >= 0x10000
    ensures var os := Octets(v);
            CodePoint(os) == v && Announced(os[0]) == |os| && forall k :: 0 < k < |os| ==> Continuation(os[k])
  {
    Sixties(v);
    var w := v / 4096;
    assert w == w / 64 * 64 + w % 64;
    assert w / 64 == v / 262144;
    FourDigits(v, v / 262144, v / 4096 % 64, v / 64 % 64, v % 64);
  }

  lemma FourDigits(v: int, w: int, x: int, y: int, z: int)
    requires Scalar(v) && v == w * 262144 + x * 4096 + y * 64 + z && 0 <= x < 64 && 0 <= y < 64 && 0 <= z < 64 && 0 <= w < 8
    requires Octets(v) == [0xF0 + w, 0x80 + x, 0x80 + y, 0x80 + z]
    ensures var os := Octets(v);
            CodePoint(os) == v && Announced(os[0]) == |os| && forall k :: 0 < k < |os| ==> Continuation(os[k])
  {
    hide Octets;
  }

  // ----- escapes

  function HexDigit(d: int): Unit
    requires 0 <= d < 16
  {
    if d < 10 then (48 + d) as Unit else (55 + d) as Unit
  }

  function HexValue(c: Unit): (d: int)
    ensures -1 <= d < 16
  {
    if Digit(c) then c as int - 48
    else if 65 <= c <= 70 then c as int - 55
    else if 97 <= c <= 102 then c as int - 87
    else -1
  }

  /** Digits above nine are written as capital letters, and read as capital or small ones. */
  lemma HexDigits(c: Unit, d: int)
    requires 0 <= d < 16
    ensures HexValue(c) == d <==> c == HexDigit(d) || (d > 9 && c as int == HexDigit(d) as int + 32)
    ensures HexDigit(d) as int == "0123456789ABCDEF"[d] as int
  {
  }

  function Escape(b: int): Text
    requires 0 <= b < 256
  {
    [Percent, HexDigit(b / 16), HexDigit(b % 16)]
  }

  function EscapeAll(os: seq<int>): Text
    requires forall k :: 0 <= k < |os| ==> 0 <= os[k] < 256
  {
    if os == [] then [] else Escape(os[0]) + EscapeAll(os[1..])
  }

  /** The octet escaped at `i`, or -1. */
  function OctetAt(t: Text, i: nat): (b: int)
    ensures -1 <= b < 256
  {
    if i + 3 <= |t| && t[i] == Percent && HexValue(t[i + 1]) >= 0 && HexValue(t[i + 2]) >= 0
    then 16 * HexValue(t[i + 1]) + HexValue(t[i + 2])
    else -1
  }

  lemma EscapeReadBack(p: Text, b: int, q: Text)
    requires 0 <= b < 256
    ensures OctetAt(p + Escape(b) + q, |p|) == b
  {
    var t := p + Escape(b) + q;
    assert t[|p|] == Percent && t[|p| + 1] == HexDigit(b / 16) && t[|p| + 2] == HexDigit(b % 16);
    assert b == b / 16 * 16 + b % 16;
  }

  // ----- encoding

  /** The code point at the front of a well-formed text, and how many units it takes. */
  function FrontPoint(t: Text): (v: int)
    requires t != [] && WellFormed(t)
    ensures Scalar(v)
  {
    if High(t[0]) then (t[0] as int - 0xD800) * 1024 + (t[1] as int - 0xDC00) + 0x10000 else t[0] as int
  }

  function FrontWidth(t: Text): nat
    requires t != []
  {
    if High(t[0]) then 2 else 1
  }

  function EncodedPoint(v: int): Text
    requires Scalar(v)
  {
    if v < 0x10000 && Unescaped(v as Unit) then [v as Unit] else EscapeAll(Octets(v))
  }

  /** `encodeURI`. */
  function EncodeURI(t: Text): Outcome<Text> {
    if t == [] then Done([])
    else if Low(t[0]) || (High(t[0]) && (|t| < 2 || !Low(t[1]))) then Thrown
    else
      var v := if High(t[0]) then (t[0] as int - 0xD800) * 1024 + (t[1] as int - 0xDC00) + 0x10000 else t[0] as int;
      match EncodeURI(t[FrontWidth(t)..])
      case Done(r) => Done(EncodedPoint(v) + r)
      case Thrown => Thrown
  }

  /** Encoding fails exactly on lone surrogates. */
  lemma {:induction false} EncodesWellFormed(t: Text)
    ensures EncodeURI(t).Done? <==> WellFormed(t)
  {
    if t != [] {
      if High(t[0]) {
        if |t| >= 2 {
          EncodesWellFormed(t[2..]);
        }
      } else {
        EncodesWellFormed(t[1..]);
      }
    }
  }

  // ----- decoding

  datatype Piece = Piece(units: Text, used: nat) | Bad

  function UnitsOf(v: int): Text
    requires Scalar(v)
  {
    if v < 0x10000 then [v as Unit]
    else [(0xD800 + (v - 0x10000) / 1024) as Unit, (0xDC00 + (v - 0x10000) % 1024) as Unit]
  }

  /** What stands at the front of `t`: a unit, or the escapes of one code point. */
  function FrontPiece(t: Text): (p: Piece)
    requires t != []
    ensures p.Piece? ==> 0 < p.used <= |t|
  {
    if t[0] != Percent then Piece([t[0]], 1)
    else
      var b := OctetAt(t, 0);
      if b < 0 then Bad
      else if b < 0x80 then Piece(if Reserved(b as Unit) then t[..3] else [b as Unit], 3)
      else
        var n := Announced(b);
        if n == 0 || 3 * n > |t| then Bad
        else
          var os := seq(n, k requires 0 <= k < n => OctetAt(t, 3 * k));
          if (exists k :: 0 < k < n && !Continuation(os[k])) || CodePoint(os) < 0 then Bad
          else Piece(UnitsOf(CodePoint(os)), 3 * n)
  }

  /** `decodeURI`. */
  function DecodeURI(t: Text): Outcome<Text>
    decreases |t|
  {
    if t == [] then Done([])
    else match FrontPiece(t)
         case Bad => Thrown
         case Piece(u, n) =>
           match DecodeURI(t[n..])
           case Done(r) => Done(u + r)
           case Thrown => Thrown
  }

  // ----- one escaped code point read back

  lemma {:induction false} EscapesReadBack(p: Text, os: seq<int>, q: Text, k: nat)
    requires (forall i :: 0 <= i < |os| ==> 0 <= os[i] < 256) && k < |os|
    ensures |EscapeAll(os)| == 3 * |os| && OctetAt(p + EscapeAll(os) + q, |p| + 3 * k) == os[k]
    decreases |os|
  {
    hide OctetAt, Escape;
    var e, r := Escape(os[0]), EscapeAll(os[1..]);
    assert |e| == 3 by { EscapeLength(os[0]); }
    if |os| > 1 {
      EscapesReadBack(p + e, os[1..], q, if k == 0 then 0 else k - 1);
    }
    assert p + (e + r) + q == (p + e) + r + q;
    if k == 0 {
      EscapeReadBack(p, os[0], r + q);
      assert p + (e + r) + q == p + e + (r + q);
    }
  }

  lemma EscapeLength(b: int)
    requires 0 <= b < 256
    ensures |Escape(b)| == 3 && Escape(b)[0] == Percent
  {
  }

  /** The octets of `v`, in hexadecimal digits of either case, stand escaped at the front of `t`. */
  ghost predicate EscapedInFront(t: Text, v: int) {
    Scalar(v) && 3 * |Octets(v)| <= |t| && forall k :: 0 <= k < |Octets(v)| ==> OctetAt(t, 3 * k) == Octets(v)[k]
  }

  /** A text that begins with an escape is read there if and only if it begins with all the escapes of some code point. */
  lemma FrontPieceMeans(t: Text)
    requires t != [] && t[0] == Percent
    ensures FrontPiece(t).Piece? <==> exists v :: EscapedInFront(t, v)
  {
    hide Octets, OctetAt, CodePoint, Announced;
    if v :| EscapedInFront(t, v) {
      EscapesAreRead(t, v);
    }
    if FrontPiece(t).Piece? {
      var v := PointInFront(t);
    }
  }

  lemma EscapesAreRead(t: Text, v: int)
    requires t != [] && t[0] == Percent && EscapedInFront(t, v)
    ensures FrontPiece(t) == Piece(if v < 0x80 && Reserved(v as Unit) then t[..3] else UnitsOf(v), 3 * |Octets(v)|)
  {
    hide Octets, Announced, CodePoint, OctetAt;
    var os := Octets(v);
    OctetsReadBack(v);
    assert OctetAt(t, 3 * 0) == os[0];
    if v < 0x80 {
      SmallPoint(v);
    } else {
      LargePoint(v);
      assert os == seq(|os|, k requires 0 <= k < |os| => OctetAt(t, 3 * k));
    }
  }

  lemma SmallPoint(v: int)
    requires 0 <= v < 0x80
    ensures Octets(v) == [v]
  {
  }

  lemma LargePoint(v: int)
    requires 0x80 <= v <= 0x10FFFF
    ensures |Octets(v)| > 1 && Octets(v)[0] >= 0x80
  {
  }

  lemma PointInFront(t: Text) returns (v: int)
    requires t != [] && t[0] == Percent && FrontPiece(t).Piece?
    ensures EscapedInFront(t, v)
  {
    hide Octets, OctetAt, Announced;
    var b := OctetAt(t, 0);
    if b < 0x80 {
      v := b;
      SmallPoint(v);
      EscapeFits(t);
    } else {
      var n := Announced(b);
      var os := seq(n, k requires 0 <= k < n => OctetAt(t, 3 * k));
      v := CodePoint(os);
      assert Octets(v) == os;
    }
  }

  lemma EscapeFits(t: Text)
    ensures OctetAt(t, 0) >= 0 ==> |t| >= 3
  {
  }

  /** The escapes of a code point at the front of a text are read as its units. */
  lemma PointReadBack(v: int, q: Text)
    requires Scalar(v)
    ensures var t := EscapeAll(Octets(v)) + q;
            |t| >= 3 && FrontPiece(t) == Piece(if v < 0x80 && Reserved(v as Unit) then t[..3] else UnitsOf(v), 3 * |Octets(v)|)
  {
    hide Octets, Announced, CodePoint, OctetAt, EscapeAll, Escape;
    var os := Octets(v);
    var t := EscapeAll(os) + q;
    OctetsReadBack(v);
    forall k | 0 <= k < |os|
      ensures |EscapeAll(os)| == 3 * |os| && OctetAt(t, 3 * k) == os[k]
    {
      EscapesReadBack([], os, q, k);
      assert [] + EscapeAll(os) + q == t;
    }
    FrontOfEscapes(os, q);
    SmallPoints(v);
    var all := seq(|os|, k requires 0 <= k < |os| => OctetAt(t, 3 * k));
    assert all == os;
  }

  lemma {:induction false} FrontOfEscapes(os: seq<int>, q: Text)
    requires os != [] && forall i :: 0 <= i < |os| ==> 0 <= os[i] < 256
    ensures EscapeAll(os) + q != [] && (EscapeAll(os) + q)[0] == Percent
  {
  }

  lemma SmallPoints(v: int)
    requires Scalar(v)
    ensures Octets(v)[0] < 0x80 <==> v < 0x80
    ensures v < 0x80 ==> Octets(v) == [v]
  {
  }
}
