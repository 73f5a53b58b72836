/** Text as Unicode scalar values, its UTF-16 form for the matcher and its UTF-8 form for blocks. */
module Utf {
  import opened Prelude
  import opened RegexPrefix

  type scalar = c: int | 0 <= c < 0xD800 || 0xDFFF < c <= 0x10FFFF
  type Text = seq<scalar>

  // ---------------------------------------------------------------------------------------
  // Encodings, character by character
  // ---------------------------------------------------------------------------------------

  function Encode<U>(enc: scalar -> seq<U>, t: Text): seq<U> {
    if t == [] then [] else enc(t[0]) + Encode(enc, t[1..])
  }

  /** Where the i-th character starts in the encoded text. */
  function Offset<U>(enc: scalar -> seq<U>, t: Text, i: nat): nat
    requires i <= |t|
  {
    |Encode(enc, t[..i])|
  }

  lemma {:induction false} EncodeAppend<U>(enc: scalar -> seq<U>, a: Text, b: Text)
    ensures Encode(enc, a + b) == Encode(enc, a) + Encode(enc, b)
  {
    if a == [] {
      assert a + b == b;
    } else {
      EncodeAppend(enc, a[1..], b);
      assert (a + b)[1..] == a[1..] + b;
    }
  }

  lemma EncodeSplit<U>(enc: scalar -> seq<U>, t: Text, i: nat)
    requires i < |t|
    ensures Encode(enc, t) == Encode(enc, t[..i]) + enc(t[i]) + Encode(enc, t[i + 1..])
    ensures Offset(enc, t, i + 1) == Offset(enc, t, i) + |enc(t[i])|
  {
    assert t == t[..i] + t[i..] && t[i..][1..] == t[i + 1..];
    EncodeAppend(enc, t[..i], t[i..]);
    assert t[..i + 1] == t[..i] + [t[i]];
    EncodeAppend(enc, t[..i], [t[i]]);
    assert Encode(enc, [t[i]]) == enc(t[i]) + Encode(enc, []);
  }

  lemma WholeOffset<U>(enc: scalar -> seq<U>, t: Text)
    ensures Offset(enc, t, 0) == 0 && Offset(enc, t, |t|) == |Encode(enc, t)|
  {
    assert t[..|t|] == t;
  }

  predicate SliceAt<U(==)>(hay: seq<U>, o: nat, needle: seq<U>) {
    o + |needle| <= |hay| && hay[o..o + |needle|] == needle
  }

  lemma SliceOfSlice<U>(whole: seq<U>, b: nat, part: seq<U>, o: nat, needle: seq<U>)
    requires SliceAt(whole, b, part) && SliceAt(part, o, needle)
    ensures SliceAt(whole, b + o, needle)
  {
    forall j | 0 <= j < |needle| ensures whole[b + o..b + o + |needle|][j] == needle[j] {
      assert part[o + j] == part[o..o + |needle|][j];
      assert whole[b + o + j] == whole[b..b + |part|][o + j];
    }
  }

  /** A stretch of characters is a stretch of the encoded text. */
  lemma StretchOfCode<U>(enc: scalar -> seq<U>, t: Text, i: nat, literal: Text)
    requires i + |literal| <= |t| && t[i..i + |literal|] == literal
    ensures SliceAt(Encode(enc, t), Offset(enc, t, i), Encode(enc, literal))
  {
    var rest := t[i + |literal|..];
    assert t == t[..i] + (literal + rest);
    EncodeAppend(enc, t[..i], literal + rest);
    EncodeAppend(enc, literal, rest);
  }

  /** Codes start with a lead unit, continue without one, and none is a prefix of another. */
  ghost predicate SelfSynchronising<U>(enc: scalar -> seq<U>, lead: U -> bool) {
    && (forall c: scalar :: enc(c) != [] && lead(enc(c)[0]))
    && (forall c: scalar, j :: 1 <= j < |enc(c)| ==> !lead(enc(c)[j]))
    && (forall c: scalar, d: scalar :: enc(c) <= enc(d) ==> c == d)
  }

  /** A lead unit stands only where a character starts. */
  lemma {:induction false} LeadIsOffset<U>(enc: scalar -> seq<U>, lead: U -> bool, t: Text, o: nat) returns (i: nat)
    requires SelfSynchronising(enc, lead)
    requires o < |Encode(enc, t)| && lead(Encode(enc, t)[o])
    ensures i < |t| && Offset(enc, t, i) == o
  {
    var first := enc(t[0]);
    if o < |first| {
      assert Encode(enc, t)[o] == first[o];
      i := 0;
    } else {
      assert Encode(enc, t)[o] == Encode(enc, t[1..])[o - |first|];
      var j := LeadIsOffset(enc, lead, t[1..], o - |first|);
      i := j + 1;
      assert t[..i][1..] == t[1..][..j];
    }
  }

  lemma {:induction false} PrefixOfCode<U>(enc: scalar -> seq<U>, lead: U -> bool, t: Text, literal: Text)
    requires SelfSynchronising(enc, lead)
    requires Encode(enc, literal) <= Encode(enc, t)
    ensures literal <= t
  {
    if literal != [] {
      var a, b := enc(literal[0]), Encode(enc, literal[1..]);
      assert Encode(enc, literal) == a + b;
      assert t != [];
      var c, d := enc(t[0]), Encode(enc, t[1..]);
      assert Encode(enc, t) == c + d;
      var all := Encode(enc, t);
      assert a == Encode(enc, literal)[..|a|] == all[..|a|] && c == all[..|c|];
      assert a <= c || c <= a;
      assert literal[0] == t[0];
      assert Encode(enc, t)[|a|..] == d && Encode(enc, literal)[|a|..] == b;
      assert b == Encode(enc, literal)[|a|..] == Encode(enc, t)[..|Encode(enc, literal)|][|a|..] == d[..|b|];
      PrefixOfCode(enc, lead, t[1..], literal[1..]);
    }
  }

  /** A non-empty literal found in the encoded text is found in the text, at the same place. */
  lemma StretchOfText<U>(enc: scalar -> seq<U>, lead: U -> bool, t: Text, o: nat, literal: Text) returns (i: nat)
    requires SelfSynchronising(enc, lead)
    requires literal != [] && SliceAt(Encode(enc, t), o, Encode(enc, literal))
    ensures i + |literal| <= |t| && t[i..i + |literal|] == literal && Offset(enc, t, i) == o
  {
    var code, all := Encode(enc, literal), Encode(enc, t);
    assert code[0] == enc(literal[0])[0];
    assert all[o] == all[o..o + |code|][0];
    i := LeadIsOffset(enc, lead, t, o);
    assert t == t[..i] + t[i..];
    EncodeAppend(enc, t[..i], t[i..]);
    assert all[o..] == Encode(enc, t[i..]);
    assert all[o..o + |code|] == all[o..][..|code|];
    PrefixOfCode(enc, lead, t[i..], literal);
    assert t[i..][..|literal|] == t[i..i + |literal|];
  }

  // ---------------------------------------------------------------------------------------
  // UTF-8
  // ---------------------------------------------------------------------------------------

  /** Six bits a byte behind the lead byte; `/ 0x40` is a shift by six. */
  function Utf8Of(c: scalar): seq<byte> {
    var q := c / 0x40;
    var r := q / 0x40;
    if c < 0x80 then [c as byte]
    else if c < 0x800 then [(0xC0 + q) as byte, 0x80 + c % 0x40]
    else if c < 0x1_0000 then [(0xE0 + r) as byte, 0x80 + q % 0x40, 0x80 + c % 0x40]
    else [(0xF0 + r / 0x40) as byte, 0x80 + r % 0x40, 0x80 + q % 0x40, 0x80 + c % 0x40]
  }

  function Utf8(t: Text): seq<byte> {
    Encode(Utf8Of, t)
  }

  predicate IsLead(b: byte) {
    b < 0x80 || 0xC0 <= b
  }

  lemma SixBits(c: nat, d: nat)
    requires c / 0x40 == d / 0x40 && c % 0x40 == d % 0x40
    ensures c == d
  {
  }

  /** What a byte adds, without its marker, at its place. */
  function Bits(b: byte, marker: int, place: int): int {
    (b - marker) * place
  }

  /** The bytes as the standard lays them out: the lead byte tells how many follow, and six bits of
      the character stand in each of those, the highest first. */
  lemma Utf8IsStandard(c: scalar)
    ensures var b := Utf8Of(c);
            if c < 0x80 then |b| == 1 && c == b[0]
            else if c < 0x800 then |b| == 2 && c == Bits(b[0], 0xC0, 0x40) + Bits(b[1], 0x80, 1)
            else if c < 0x1_0000 then
              |b| == 3 && c == Bits(b[0], 0xE0, 0x1000) + Bits(b[1], 0x80, 0x40) + Bits(b[2], 0x80, 1)
            else
              |b| == 4 && c == Bits(b[0], 0xF0, 0x4_0000) + Bits(b[1], 0x80, 0x1000) + Bits(b[2], 0x80, 0x40) + Bits(b[3], 0x80, 1)
    ensures forall i :: 0 < i < |Utf8Of(c)| ==> 0x80 <= Utf8Of(c)[i] < 0xC0
  {
    var q := c / 0x40;
    var r := q / 0x40;
    assert c == 0x40 * q + c % 0x40 && q == 0x40 * r + q % 0x40 && r == 0x40 * (r / 0x40) + r % 0x40;
  }

  lemma Utf8Length(c: scalar)
    ensures |Utf8Of(c)| == if c < 0x80 then 1 else if c < 0x800 then 2 else if c < 0x1_0000 then 3 else 4
    ensures var b := Utf8Of(c)[0];
            if c < 0x80 then b < 0x80 else if c < 0x800 then 0xC0 <= b < 0xE0
            else if c < 0x1_0000 then 0xE0 <= b < 0xF0 else 0xF0 <= b
  {
  }

  /** The first byte decides the length and all bytes together decide the character. */
  lemma DecodesUniquely(c: scalar, d: scalar)
    requires Utf8Of(c) <= Utf8Of(d)
    ensures c == d
  {
    Utf8Length(c);
    Utf8Length(d);
    var a, b := Utf8Of(c), Utf8Of(d);
    assert a[0] == b[0];
    assert a == b;
    if 0x80 <= c {
      SameTails(c, d);
    }
  }

  lemma SameTails(c: scalar, d: scalar)
    requires 0x80 <= c && 0x80 <= d && Utf8Of(c) == Utf8Of(d)
    requires |Utf8Of(c)| == if c < 0x800 then 2 else if c < 0x1_0000 then 3 else 4
    requires |Utf8Of(d)| == if d < 0x800 then 2 else if d < 0x1_0000 then 3 else 4
    ensures c == d
  {
    var n := |Utf8Of(c)|;
    assert Utf8Of(c)[n - 1] == Utf8Of(d)[n - 1] && Utf8Of(c)[n - 2] == Utf8Of(d)[n - 2];
    if n == 3 {
      assert Utf8Of(c)[0] == Utf8Of(d)[0];
      SixBits(c / 0x40, d / 0x40);
    } else if n == 4 {
      assert Utf8Of(c)[0] == Utf8Of(d)[0] && Utf8Of(c)[1] == Utf8Of(d)[1];
      SixBits(c / 0x40 / 0x40, d / 0x40 / 0x40);
      SixBits(c / 0x40, d / 0x40);
    }
    SixBits(c, d);
  }

  lemma Utf8Synchronises()
    ensures SelfSynchronising(Utf8Of, IsLead)
  {
    forall c: scalar, d: scalar | Utf8Of(c) <= Utf8Of(d) ensures c == d { DecodesUniquely(c, d); }
  }

  // ---------------------------------------------------------------------------------------
  // UTF-16
  // ---------------------------------------------------------------------------------------

  function Utf16Of(c: scalar): seq<nat> {
    if c < 0x1_0000 then [c as nat]
    else [0xD800 + (c - 0x1_0000) / 0x400, 0xDC00 + (c - 0x1_0000) % 0x400]
  }

  function Utf16(t: Text): seq<nat> {
    Encode(Utf16Of, t)
  }

  function Offset16(t: Text, i: nat): nat
    requires i <= |t|
  {
    Offset(Utf16Of, t, i)
  }

  /** Reading at the offset of a character gives that character and the next one's offset. */
  lemma CharAtOffset(t: Text, i: nat)
    requires i < |t|
    ensures Offset16(t, i) < |Utf16(t)|
    ensures CharAt(Utf16(t), Offset16(t, i), true) == t[i]
    ensures After(Utf16(t), Offset16(t, i), true) == Offset16(t, i + 1)
  {
    EncodeSplit(Utf16Of, t, i);
    var q, units := Offset16(t, i), Utf16Of(t[i]);
    assert Utf16(t)[q] == units[0];
    if t[i] >= 0x1_0000 {
      assert Utf16(t)[q + 1] == units[1];
    }
  }

  /** The positions a scan of UTF-16 text visits are exactly the offsets of its characters. */
  lemma {:induction false} ReachesOffset(m: Machine, t: Text, i: nat, q: nat) returns (j: nat)
    requires m.unicode && i <= |t| && Reaches(m, Utf16(t), Offset16(t, i), q)
    ensures i <= j <= |t| && q == Offset16(t, j)
    decreases |t| - i
  {
    WholeOffset(Utf16Of, t);
    if q == Offset16(t, i) {
      j := i;
    } else {
      CharAtOffset16Below(t, i);
      CharAtOffset(t, i);
      j := ReachesOffset(m, t, i + 1, q);
    }
  }

  lemma CharAtOffset16Below(t: Text, i: nat)
    requires i <= |t| && Offset16(t, i) < |Utf16(t)|
    ensures i < |t|
  {
    WholeOffset(Utf16Of, t);
  }

  lemma {:induction false} OffsetReached(m: Machine, t: Text, i: nat, j: nat)
    requires m.unicode && i <= j <= |t|
    ensures Reaches(m, Utf16(t), Offset16(t, i), Offset16(t, j))
    decreases j - i
  {
    if i < j {
      CharAtOffset(t, i);
      OffsetReached(m, t, i + 1, j);
    }
  }

  // ---------------------------------------------------------------------------------------
  // Literals in text
  // ---------------------------------------------------------------------------------------

  predicate SamePoint(fold: nat -> nat, insensitive: bool, c: scalar, point: nat) {
    var code: nat := c;
    (if insensitive then fold(code) else code) == point
  }

  /** The literals match the characters of `t` from the i-th on. */
  predicate MatchesAt(fold: nat -> nat, t: Text, i: nat, points: seq<nat>, insensitive: bool) {
    i + |points| <= |t| && forall j :: 0 <= j < |points| ==> SamePoint(fold, insensitive, t[i + j], points[j])
  }

  lemma {:induction false} ConsumesIsMatch(m: Machine, t: Text, i: nat, points: seq<nat>, insensitive: bool)
    requires m.unicode && i <= |t|
    ensures Consumes(m, Utf16(t), Offset16(t, i), points, insensitive).Some?
            <==> MatchesAt(m.fold, t, i, points, insensitive)
    decreases |points|
  {
    WholeOffset(Utf16Of, t);
    if points != [] {
      if i < |t| {
        CharAtOffset(t, i);
        ConsumesIsMatch(m, t, i + 1, points[1..], insensitive);
        if MatchesAt(m.fold, t, i + 1, points[1..], insensitive) && SamePoint(m.fold, insensitive, t[i], points[0]) {
          forall j | 0 <= j < |points| ensures SamePoint(m.fold, insensitive, t[i + j], points[j]) {
            if j > 0 { assert SamePoint(m.fold, insensitive, t[i + 1 + (j - 1)], points[1..][j - 1]); }
          }
        }
        if MatchesAt(m.fold, t, i, points, insensitive) {
          assert SamePoint(m.fold, insensitive, t[i + 0], points[0]);
          forall j | 0 <= j < |points[1..]| ensures SamePoint(m.fold, insensitive, t[i + 1 + j], points[1..][j]) {
            assert SamePoint(m.fold, insensitive, t[i + (j + 1)], points[j + 1]);
          }
        }
      }
    }
  }
}
