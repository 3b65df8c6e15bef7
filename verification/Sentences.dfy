/** Sentences with places for values in them, and what they are once the places are filled. */
module Sentences {
  import opened Strings

  predicate Digit(c: char) { '0' <= c <= '9' }

  function DigitValue(c: char): (d: nat)
    requires Digit(c)
    ensures d < 10
  {
    c as int - '0' as int
  }

  predicate AllDigits(s: string) {
    forall i :: 0 <= i < |s| ==> Digit(s[i])
  }

  function Value(s: string): nat
    requires AllDigits(s)
  {
    if s == "" then 0 else 10 * Value(s[..|s| - 1]) + DigitValue(s[|s| - 1])
  }

  predicate Signed(s: string) {
    s != "" && (s[0] == '-' || s[0] == '+')
  }

  /** strconv.Atoi: an optional sign and at least one digit, and nothing else. */
  predicate IsNumber(s: string) {
    var digits := if Signed(s) then s[1..] else s;
    digits != "" && AllDigits(digits)
  }

  function NumberOf(s: string): int
    requires IsNumber(s)
  {
    if Signed(s) then (if s[0] == '-' then 0 - Value(s[1..]) else Value(s[1..])) else Value(s)
  }

  /** What between two braces names one of n values. */
  predicate Names(s: string, n: nat) {
    IsNumber(s) && 0 <= NumberOf(s) < n
  }

  function Filled(sentence: string, values: seq<string>): string
    decreases |sentence|
  {
    var (before, after, found) := CutAt(sentence, '{');
    if !found then before
    else
      var (digits, tail, closed) := CutAt(after, '}');
      if closed && Names(digits, |values|) then before + values[NumberOf(digits)] + Filled(tail, values)
      else before + "{" + Filled(after, values)
  }

  method Fill(sentence: string, values: seq<string>) returns (out: string)
    ensures out == Filled(sentence, values)
  {
    if |values| == 0 {
      NothingNamed(sentence, values);
      return sentence;
    }
    out := "";
    var rest := sentence;
    while rest != ""
      invariant out + Filled(rest, values) == Filled(sentence, values)
      decreases |rest|
    {
      var (before, after, found) := CutAt(rest, '{');
      if !found {
        return out + before;
      }
      var (digits, tail, closed) := CutAt(after, '}');
      if !closed || !Names(digits, |values|) {
        Associative(out, before, "{", Filled(after, values));
        out := out + before + "{";
        rest := after;
      } else {
        Associative(out, before, values[NumberOf(digits)], Filled(tail, values));
        out := out + before + values[NumberOf(digits)];
        rest := tail;
      }
    }
  }

  // ----- what filling means -----

  /** A place for a value: a brace, the number of a value, and a closing brace. */
  function Place(number: string): string {
    "{" + number + "}"
  }

  /** A sentence around a place. */
  function Around(before: string, number: string, after: string): string {
    before + (Place(number) + after)
  }

  ghost predicate PlaceAt(s: string, n: nat, i: int, j: int) {
    0 <= i < j < |s| && s[i] == '{' && s[j] == '}' && Names(s[i + 1..j], n)
  }

  ghost predicate HasPlace(s: string, n: nat) {
    exists i, j :: PlaceAt(s, n, i, j)
  }

  /** A sentence with no place in it stays as it is, whatever braces it has. */
  lemma {:induction false} NothingNamed(s: string, values: seq<string>)
    requires !HasPlace(s, |values|) || values == []
    ensures Filled(s, values) == s
    decreases |s|
  {
    CutIs(s, '{');
    var (before, after, found) := CutAt(s, '{');
    if found {
      if values != [] {
        PlacesAfter(before, after, values);
      }
      NothingNamed(after, values);
    }
  }

  lemma PlaceFurtherOn(before: string, after: string, n: nat, i: int, j: int)
    requires PlaceAt(after, n, i, j)
    ensures PlaceAt(before + after, n, |before| + i, |before| + j)
  {
    hide Names;
    assert (before + after)[|before| + i + 1..|before| + j] == after[i + 1..j];
  }

  lemma PlaceAtOnce(digits: string, tail: string, n: nat)
    requires Names(digits, n)
    ensures PlaceAt("{" + (digits + "}" + tail), n, 0, |digits| + 1)
  {
    hide Names;
    assert ("{" + (digits + "}" + tail))[1..|digits| + 1] == digits;
  }

  lemma PlacesAfter(before: string, after: string, values: seq<string>)
    ensures HasPlace(after, |values|) ==> HasPlace(before + "{" + after, |values|)
    ensures var (digits, _, closed) := CutAt(after, '}');
            closed && Names(digits, |values|) ==> HasPlace(before + "{" + after, |values|)
  {
    hide Names;
    CutIs(after, '}');
    var (digits, tail, closed) := CutAt(after, '}');
    if closed && Names(digits, |values|) {
      PlaceAtOnce(digits, tail, |values|);
      PlaceFurtherOn(before, "{" + after, |values|, 0, |digits| + 1);
      assert before + ("{" + after) == before + "{" + after;
    }
    forall i, j | PlaceAt(after, |values|, i, j) ensures HasPlace(before + "{" + after, |values|) {
      PlaceFurtherOn(before + "{", after, |values|, i, j);
    }
  }

  lemma NumbersHaveNoBraces(s: string)
    requires IsNumber(s)
    ensures '{' !in s && '}' !in s
  {
    forall i | 0 <= i < |s| ensures s[i] != '{' && s[i] != '}' {
      if Signed(s) {
        assert i > 0 ==> Digit(s[1..][i - 1]);
      } else {
        assert Digit(s[i]);
      }
    }
  }

  lemma PlaceBegins(number: string, after: string)
    ensures Place(number) + after == ['{'] + (number + "}" + after)
    ensures number + "}" + after == number + (['}'] + after)
  {
  }

  lemma CutPlace(number: string, after: string)
    requires IsNumber(number)
    ensures CutAt(Place(number) + after, '{') == ("", number + "}" + after, true)
    ensures CutAt(number + "}" + after, '}') == (number, after, true)
  {
    hide CutAt, Place;
    NumbersHaveNoBraces(number);
    hide IsNumber;
    PlaceBegins(number, after);
    CutAtOnce('{', number + "}" + after);
    CutInTwo(number, ['}'] + after, '}');
    CutAtOnce('}', after);
    assert number + "" == number;
  }

  /** One step of filling, by what the braces hold. */
  lemma FilledStep(s: string, values: seq<string>, before: string, after: string)
    requires CutAt(s, '{') == (before, after, true)
    ensures var (digits, tail, closed) := CutAt(after, '}');
            Filled(s, values) ==
            if closed && Names(digits, |values|) then before + values[NumberOf(digits)] + Filled(tail, values)
            else before + "{" + Filled(after, values)
  {
  }

  /** A brace before a place is read as it would be without it. */
  lemma BraceBefore(x: string, y: string, rest: string, values: seq<string>, replaced: string)
    requires rest != "" && rest[0] == '{'
    requires Filled(y + rest, values) == Filled(y, values) + replaced
    requires CutAt(y, '}').2 ==> Filled(CutAt(y, '}').1 + rest, values) == Filled(CutAt(y, '}').1, values) + replaced
    requires CutAt(x + "{" + y, '{') == (x, y, true) && CutAt(x + "{" + y + rest, '{') == (x, y + rest, true)
    ensures Filled(x + "{" + y + rest, values) == Filled(x + "{" + y, values) + replaced
  {
    FilledStep(x + "{" + y + rest, values, x, y + rest);
    FilledStep(x + "{" + y, values, x, y);
    CutIs(y, '}');
    CutInTwo(y, rest, '}');
    Regroup(x, "{", Filled(y, values), replaced);
    var (digits, tail, closed) := CutAt(y, '}');
    if !closed {
      BraceIsNoNumber(y, rest);
    } else if Names(digits, |values|) {
      Regroup(x, values[NumberOf(digits)], Filled(tail, values), replaced);
    }
  }

  lemma PlaceFirst(before: string, number: string, after: string, values: seq<string>)
    requires Names(number, |values|) && '{' !in before
    ensures Filled(Around(before, number, after), values)
            == Filled(before, values) + (values[NumberOf(number)] + Filled(after, values))
  {
    CutPlace(number, after);
    CutInTwo(before, Place(number) + after, '{');
    CutIs(before, '{');
    assert before + "" == before;
    FilledStep(Around(before, number, after), values, before, number + "}" + after);
    Regroup(before, "", values[NumberOf(number)], Filled(after, values));
  }

  /** A place is replaced by its value once, and what stands before it and after it is
      filled by itself: no value is read again, and no brace before reaches into it. */
  lemma {:induction false} PlacesAreReplaced(before: string, number: string, after: string, values: seq<string>)
    requires Names(number, |values|)
    ensures Filled(Around(before, number, after), values)
            == Filled(before, values) + (values[NumberOf(number)] + Filled(after, values))
    decreases |before|
  {
    CutIs(before, '{');
    if '{' !in before {
      PlaceFirst(before, number, after, values);
    } else {
      var rest := Place(number) + after;
      var (x, y, _) := CutAt(before, '{');
      CutInTwo(before, rest, '{');
      PlacesAreReplaced(y, number, after, values);
      if CutAt(y, '}').2 {
        PlacesAreReplaced(CutAt(y, '}').1, number, after, values);
      }
      BraceBefore(x, y, rest, values, values[NumberOf(number)] + Filled(after, values));
    }
  }

  lemma BraceIsNoNumber(y: string, rest: string)
    requires rest != "" && rest[0] == '{'
    ensures !IsNumber(y + CutAt(rest, '}').0)
  {
    CutIs(rest, '}');
    var digits := y + CutAt(rest, '}').0;
    assert digits[|y|] == '{' && '{' in digits;
    if IsNumber(digits) {
      NumbersHaveNoBraces(digits);
    }
  }

  lemma Regroup(x: string, v: string, a: string, b: string)
    ensures x + v + (a + b) == x + v + a + b
  {
  }

  /** A way of filling that leaves sentences without a place alone, and replaces each place
      by its value with its surroundings filled by themselves. */
  ghost predicate FillsPlaces(F: string -> string, values: seq<string>) {
    && (forall t :: !HasPlace(t, |values|) ==> F(t) == t)
    && forall a, number, b :: Names(number, |values|) ==>
                                F(Around(a, number, b)) == F(a) + (values[NumberOf(number)] + F(b))
  }

  lemma AroundTheBraces(s: string, i: nat, j: nat)
    requires i < j < |s| && s[i] == '{' && s[j] == '}'
    ensures s == Around(s[..i], s[i + 1..j], s[j + 1..])
  {
  }

  lemma APlaceIn(s: string, n: nat) returns (a: string, number: string, b: string)
    requires HasPlace(s, n)
    ensures Names(number, n) && s == Around(a, number, b) && |a| < |s| && |b| < |s|
  {
    hide Names, Around;
    var i, j :| PlaceAt(s, n, i, j);
    a, number, b := s[..i], s[i + 1..j], s[j + 1..];
    AroundTheBraces(s, i, j);
  }

  /** Filling is the only such way. */
  lemma {:induction false} FillingIsDetermined(F: string -> string, s: string, values: seq<string>)
    requires FillsPlaces(F, values)
    ensures F(s) == Filled(s, values)
    decreases |s|
  {
    if HasPlace(s, |values|) {
      var a, number, b := APlaceIn(s, |values|);
      FillingIsDetermined(F, a, values);
      FillingIsDetermined(F, b, values);
      PlacesAreReplaced(a, number, b, values);
    } else {
      NothingNamed(s, values);
    }
  }

  lemma FillingFills(values: seq<string>)
    ensures FillsPlaces(s => Filled(s, values), values)
  {
    var F := (s: string) => Filled(s, values);
    forall t | !HasPlace(t, |values|) ensures F(t) == t {
      NothingNamed(t, values);
    }
    forall a, number, b | Names(number, |values|)
      ensures F(Around(a, number, b)) == F(a) + (values[NumberOf(number)] + F(b))
    {
      PlacesAreReplaced(a, number, b, values);
    }
  }
}
