/** UTF-8 as far as the application relies on it: where characters begin, and that what was
    encoded is decoded again. A Dafny char is a Unicode scalar value. */
module Utf8 {

  import opened Bytes

  function Encode(c: char): (e: seq<Byte>)
    ensures 1 <= |e| <= 4
  {
    var r := c as int;
    if r < 0x80 then [r]
    else if r < 0x800 then [0xC0 + r / 0x40, 0x80 + r % 0x40]
    else if r < 0x10000 then [0xE0 + r / 0x1000, 0x80 + r / 0x40 % 0x40, 0x80 + r % 0x40]
    else [0xF0 + r / 0x40000, 0x80 + r / 0x1000 % 0x40, 0x80 + r / 0x40 % 0x40, 0x80 + r % 0x40]
  }

  /** Only the first byte of a character begins one, and a character beyond ASCII has no
      byte of ASCII. */
  lemma EncodeShape(c: char)
    ensures RuneStart(Encode(c)[0]) && forall i :: 1 <= i < |Encode(c)| ==> !RuneStart(Encode(c)[i])
    ensures if c as int < 0x80 then Encode(c) == [c as int] else forall b :: b in Encode(c) ==> b >= 0x80
  {
  }

  function EncodeAll(s: string): seq<Byte> {
    if s == "" then [] else Encode(s[0]) + EncodeAll(s[1..])
  }

  predicate Scalar(r: int) {
    0 <= r < 0xD800 || 0xE000 <= r < 0x110000
  }

  /** The length its first byte announces for a character, or zero where it announces none. */
  function Length(first: Byte): nat {
    if first < 0x80 then 1
    else if first < 0xC0 then 0
    else if first < 0xE0 then 2
    else if first < 0xF0 then 3
    else if first < 0xF8 then 4
    else 0
  }

  function Bits(first: Byte): int {
    if first < 0x80 then first
    else if first < 0xE0 then first - 0xC0
    else if first < 0xF0 then first - 0xE0
    else first - 0xF0
  }

  /** The number the bytes of a character spell. */
  function Spelled(first: Byte, rest: seq<Byte>): int {
    if rest == [] then Bits(first) else 0x40 * Spelled(first, rest[..|rest| - 1]) - 0x80 + rest[|rest| - 1]
  }

  datatype Decoded = Malformed | Text(value: string)

  function DecodeAll(bytes: seq<Byte>): Decoded {
    if bytes == [] then Text("")
    else
      var n := Length(bytes[0]);
      if n == 0 || n > |bytes| || (exists i :: 1 <= i < n && RuneStart(bytes[i])) then Malformed
      else
        var r := Spelled(bytes[0], bytes[1..n]);
        if !Scalar(r) then Malformed
        else match DecodeAll(bytes[n..])
          case Malformed => Malformed
          case Text(rest) => Text([r as char] + rest)
  }

  lemma SpelledEncode(c: char)
    ensures var e := Encode(c); Length(e[0]) == |e| && Spelled(e[0], e[1..]) == c as int
    ensures forall i :: 1 <= i < |Encode(c)| ==> !RuneStart(Encode(c)[i])
  {
    var r := c as int;
    var e := Encode(c);
    var tail := e[1..];
    if |e| == 2 {
      assert tail[..1] == tail && tail[..0] == [];
    } else if |e| == 3 {
      assert tail[..1][..0] == [] && tail[..1] == [e[1]];
      assert Spelled(e[0], tail[..1]) == 0x40 * Bits(e[0]) + (e[1] - 0x80);
      ThreeDigits(r);
    } else if |e| == 4 {
      assert tail[..2][..1] == [e[1]] && tail[..2][..1][..0] == [];
      assert Spelled(e[0], tail[..2][..1]) == 0x40 * Bits(e[0]) + (e[1] - 0x80);
      assert Spelled(e[0], tail[..2]) == 0x40 * Spelled(e[0], tail[..2][..1]) + (e[2] - 0x80);
      FourDigits(r);
    }
  }

  lemma ThreeDigits(r: int)
    requires 0 <= r
    ensures r == 0x40 * (0x40 * (r / 0x1000) + r / 0x40 % 0x40) + r % 0x40
  {
    var q := r / 0x40;
    assert r == 0x40 * q + r % 0x40;
    assert q == 0x40 * (q / 0x40) + q % 0x40;
    assert r / 0x1000 == q / 0x40;
  }

  lemma FourDigits(r: int)
    requires 0 <= r
    ensures r == 0x40 * (0x40 * (0x40 * (r / 0x40000) + r / 0x1000 % 0x40) + r / 0x40 % 0x40) + r % 0x40
  {
    ThreeDigits(r);
    var p := r / 0x1000;
    assert p == 0x40 * (p / 0x40) + p % 0x40;
    assert r / 0x40000 == p / 0x40;
  }

  /** What was encoded is decoded again. */
  lemma {:induction false} DecodeEncode(s: string)
    ensures DecodeAll(EncodeAll(s)) == Text(s)
  {
    if s == "" {
    } else {
      var e, rest := Encode(s[0]), EncodeAll(s[1..]);
      var bytes := e + rest;
      SpelledEncode(s[0]);
      DecodeEncode(s[1..]);
      assert bytes[1..|e|] == e[1..] && bytes[|e|..] == rest;
      assert s == [s[0]] + s[1..];
    }
  }

  lemma {:induction false} EncodeInTwo(a: string, b: string)
    ensures EncodeAll(a + b) == EncodeAll(a) + EncodeAll(b)
  {
    if a == "" {
      assert a + b == b;
    } else {
      assert (a + b)[1..] == a[1..] + b;
      EncodeInTwo(a[1..], b);
    }
  }

  /** A byte of ASCII in a text is a character of it. */
  lemma {:induction false} AsciiIsItself(s: string)
    requires forall i :: 0 <= i < |s| ==> s[i] as int < 0x80
    ensures |EncodeAll(s)| == |s| && forall i :: 0 <= i < |s| ==> EncodeAll(s)[i] == s[i] as int
  {
    if s == "" {
    } else {
      AsciiIsItself(s[1..]);
      assert EncodeAll(s) == [s[0] as int] + EncodeAll(s[1..]);
    }
  }

  lemma {:induction false} AsciiBytes(s: string, b: Byte)
    requires b < 0x80 && b in EncodeAll(s)
    ensures exists i :: 0 <= i < |s| && s[i] as int == b
  {
    EncodeShape(s[0]);
    if b in Encode(s[0]) {
      assert s[0] as int == b;
    } else {
      AsciiBytes(s[1..], b);
      var i :| 0 <= i < |s[1..]| && s[1..][i] as int == b;
      assert s[i + 1] as int == b;
    }
  }

  // ----- where a text can be cut -----

  /** From every byte a scan back over at most three others meets the beginning of a
      character. */
  ghost predicate Scannable(bytes: seq<Byte>) {
    forall i :: 0 <= i < |bytes| ==> BeginsNear(bytes, i)
  }

  ghost predicate BeginsNear(bytes: seq<Byte>, i: int)
    requires 0 <= i < |bytes|
  {
    exists j :: 0 <= j && i - 3 <= j <= i && RuneStart(bytes[j])
  }

  lemma {:induction false} EncodedIsScannable(s: string)
    ensures Scannable(EncodeAll(s)) && (s != "" ==> EncodeAll(s) != [] && RuneStart(EncodeAll(s)[0]))
  {
    if s == "" {
    } else {
      var e, rest := Encode(s[0]), EncodeAll(s[1..]);
      EncodeShape(s[0]);
      EncodedIsScannable(s[1..]);
      forall i | 0 <= i < |e + rest| ensures BeginsNear(e + rest, i) {
        if i < |e| {
          assert RuneStart((e + rest)[0]);
        } else {
          assert BeginsNear(rest, i - |e|);
          var j :| 0 <= j && i - |e| - 3 <= j <= i - |e| && RuneStart(rest[j]);
          assert (e + rest)[j + |e|] == rest[j];
        }
      }
    }
  }

  lemma CutInTail(e: seq<Byte>, rest: seq<Byte>, cut: nat)
    requires |e| <= cut <= |e + rest|
    ensures (e + rest)[..cut] == e + rest[..cut - |e|] && (e + rest)[cut..] == rest[cut - |e|..]
    ensures cut < |e + rest| ==> (e + rest)[cut] == rest[cut - |e|]
  {
  }

  lemma CutNotInside(s: string, cut: nat)
    requires s != "" && 0 < cut <= |EncodeAll(s)| && (cut < |EncodeAll(s)| ==> RuneStart(EncodeAll(s)[cut]))
    ensures |Encode(s[0])| <= cut
  {
    EncodeShape(s[0]);
  }

  lemma EncodeCons(c: char, s: string)
    ensures EncodeAll([c] + s) == Encode(c) + EncodeAll(s)
  {
    assert ([c] + s)[1..] == s;
  }

  lemma OneCharacterMore(c: char, s: string, cut: nat, a: string, b: string)
    requires cut <= |EncodeAll(s)| && s == a + b
    requires EncodeAll(a) == EncodeAll(s)[..cut] && EncodeAll(b) == EncodeAll(s)[cut..]
    ensures [c] + s == ([c] + a) + b
    ensures |Encode(c)| + cut <= |EncodeAll([c] + s)|
    ensures EncodeAll([c] + a) == EncodeAll([c] + s)[..|Encode(c)| + cut]
    ensures EncodeAll(b) == EncodeAll([c] + s)[|Encode(c)| + cut..]
  {
    hide Encode;
    EncodeCons(c, s);
    EncodeCons(c, a);
    hide EncodeAll;
    CutInTail(Encode(c), EncodeAll(s), |Encode(c)| + cut);
  }

  /** A cut before the beginning of a character is a cut between characters. */
  lemma {:induction false} CutBetweenCharacters(s: string, cut: nat) returns (a: string, b: string)
    requires cut <= |EncodeAll(s)| && (cut < |EncodeAll(s)| ==> RuneStart(EncodeAll(s)[cut]))
    ensures s == a + b && EncodeAll(a) == EncodeAll(s)[..cut] && EncodeAll(b) == EncodeAll(s)[cut..]
  {
    if cut == 0 {
      a, b := "", s;
    } else {
      CutNotInside(s, cut);
      var c, tail := s[0], s[1..];
      assert s == [c] + tail;
      EncodeCons(c, tail);
      hide Encode, RuneStart, EncodeAll;
      CutInTail(Encode(c), EncodeAll(tail), cut);
      a, b := CutBetweenCharacters(tail, cut - |Encode(c)|);
      OneCharacterMore(c, tail, cut - |Encode(c)|, a, b);
      a := [c] + a;
    }
  }
}
