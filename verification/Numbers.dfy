/** Writing a figure to two places, grouped in threes, and reading it back. A figure is its
    sign and its hundredths, as rounding leaves them. */
module Numbers {
  import opened Options
  import opened Sentences

  function DigitOf(d: nat): char
    requires d < 10
  {
    '0' + d as char
  }

  function Decimal(n: nat): (s: string)
    ensures s != "" && AllDigits(s)
  {
    if n < 10 then [DigitOf(n)] else Decimal(n / 10) + [DigitOf(n % 10)]
  }

  function TwoPlaces(hundredths: nat): (s: string)
    ensures |s| == 2 && AllDigits(s)
  {
    [DigitOf(hundredths % 100 / 10), DigitOf(hundredths % 10)]
  }

  /** Digits in groups of three from the right, the first group taking what is left. */
  function Grouped(digits: string, group: string): string {
    if |digits| <= 3 then digits
    else Grouped(digits[..|digits| - 3], group) + group + digits[|digits| - 3..]
  }

  function Written(negative: bool, hundredths: nat, point: string, group: string): string {
    (if negative && hundredths != 0 then "-" else "") + Grouped(Decimal(hundredths / 100), group) + point
      + TwoPlaces(hundredths)
  }

  /** A separator stands where a whole number of threes is left. */
  predicate Boundary(left: nat) {
    left % 3 == 0
  }

  lemma EveryThird(left: nat)
    requires Boundary(left)
    ensures !Boundary(left + 1) && !Boundary(left + 2) && Boundary(left + 3)
  {
  }

  /** The first i digits of a number of n digits, separated. */
  function GroupedTo(digits: string, n: nat, group: string): string
    requires |digits| <= n
  {
    if digits == "" then ""
    else
      var i := |digits| - 1;
      GroupedTo(digits[..i], n, group) + (if i > 0 && Boundary(n - i) then group else "") + [digits[i]]
  }

  lemma {:induction false} GroupsOfThree(digits: string, n: nat, group: string)
    requires |digits| <= n && Boundary(n - |digits|)
    ensures GroupedTo(digits, n, group) == Grouped(digits, group)
  {
    hide Boundary;
    var left := n - |digits|;
    EveryThird(left);
    if |digits| > 3 {
      GroupsOfThree(digits[..|digits| - 3], n, group);
      LastThree(digits, n, group, left);
    } else {
      NoSeparator(digits, n, group, left);
    }
  }

  lemma LastThree(digits: string, n: nat, group: string, left: nat)
    requires 3 < |digits| && |digits| + left == n
    requires !Boundary(left + 1) && !Boundary(left + 2) && Boundary(left + 3)
    ensures GroupedTo(digits, n, group) == GroupedTo(digits[..|digits| - 3], n, group) + group + digits[|digits| - 3..]
  {
    hide Boundary;
    var k := |digits|;
    var a, b, c := digits[..k - 1], digits[..k - 2], digits[..k - 3];
    assert a[..k - 2] == b && b[..k - 3] == c;
    assert GroupedTo(b, n, group) == GroupedTo(c, n, group) + group + [digits[k - 3]];
    assert GroupedTo(a, n, group) == GroupedTo(b, n, group) + "" + [digits[k - 2]];
    assert GroupedTo(digits, n, group) == GroupedTo(a, n, group) + "" + [digits[k - 1]];
    assert digits[k - 3..] == [digits[k - 3]] + [digits[k - 2]] + [digits[k - 1]];
  }

  lemma {:induction false} NoSeparator(digits: string, n: nat, group: string, left: nat)
    requires |digits| <= n && left <= n - |digits| && n <= left + 3
    requires !Boundary(left + 1) && !Boundary(left + 2)
    ensures GroupedTo(digits, n, group) == digits
  {
    hide Boundary;
    if digits == "" {
    } else {
      var i := |digits| - 1;
      NoSeparator(digits[..i], n, group, left);
      assert i > 0 ==> n - i == left + 1 || n - i == left + 2;
      assert GroupedTo(digits, n, group) == GroupedTo(digits[..i], n, group) + "" + [digits[i]];
      assert digits == digits[..i] + "" + [digits[i]];
    }
  }

  method Number(negative: bool, hundredths: nat, point: string, group: string) returns (text: string)
    ensures text == Written(negative, hundredths, point, group)
  {
    var whole, fraction := Decimal(hundredths / 100), TwoPlaces(hundredths);
    var grouped := "";
    for i := 0 to |whole|
      invariant grouped == GroupedTo(whole[..i], |whole|, group)
    {
      assert whole[..i + 1][..i] == whole[..i];
      if i > 0 && Boundary(|whole| - i) {
        grouped := grouped + group;
      }
      grouped := grouped + [whole[i]];
    }
    assert whole[..|whole|] == whole;
    GroupsOfThree(whole, |whole|, group);
    var sign := "";
    ZeroIsWritten(hundredths);
    if negative && (whole != "0" || fraction != "00") {
      sign := "-";
    }
    text := sign + grouped + point + fraction;
  }

  lemma ZeroIsWritten(hundredths: nat)
    ensures Decimal(hundredths / 100) == "0" && TwoPlaces(hundredths) == "00" <==> hundredths == 0
  {
    var n := hundredths / 100;
    if n >= 10 {
      assert |Decimal(n / 10)| > 0 && |Decimal(n)| > 1;
    } else {
      assert Decimal(n) == [DigitOf(n)];
    }
  }

  // ----- the groups -----

  function Join(parts: seq<string>, group: string): string
    requires parts != []
  {
    if |parts| == 1 then parts[0] else Join(parts[..|parts| - 1], group) + group + parts[|parts| - 1]
  }

  function Together(parts: seq<string>): string {
    if parts == [] then "" else Together(parts[..|parts| - 1]) + parts[|parts| - 1]
  }

  lemma OneMorePart(parts: seq<string>, last: string, group: string)
    requires parts != []
    ensures Join(parts + [last], group) == Join(parts, group) + group + last
    ensures Together(parts + [last]) == Together(parts) + last
  {
    assert (parts + [last])[..|parts|] == parts;
  }

  lemma OnePart(part: string, group: string)
    ensures Join([part], group) == part && Together([part]) == part
  {
    assert [part][..0] == [] && "" + part == part;
  }

  /** The digits are written in groups of three but the first, which has one to three. */
  lemma {:induction false} GroupsOf(digits: string, group: string) returns (parts: seq<string>)
    requires digits != ""
    ensures parts != [] && Grouped(digits, group) == Join(parts, group) && Together(parts) == digits
    ensures 1 <= |parts[0]| <= 3 && forall i :: 1 <= i < |parts| ==> |parts[i]| == 3
  {
    hide Join, Together;
    if |digits| <= 3 {
      parts := [digits];
      OnePart(digits, group);
    } else {
      var init, last := digits[..|digits| - 3], digits[|digits| - 3..];
      var before := GroupsOf(init, group);
      parts := before + [last];
      OneMorePart(before, last, group);
      assert init + last == digits;
    }
  }

  // ----- reading back -----

  function OnlyDigits(s: string): string {
    if s == "" then "" else OnlyDigits(s[..|s| - 1]) + if Digit(s[|s| - 1]) then [s[|s| - 1]] else ""
  }

  /** Reads a figure of hundredths: its digits in order, and a minus before them. */
  function Read(text: string): int {
    OnlyDigitsAreDigits(text);
    if text != "" && text[0] == '-' then 0 - Value(OnlyDigits(text)) else Value(OnlyDigits(text))
  }

  lemma {:induction false} OnlyDigitsAreDigits(s: string)
    ensures AllDigits(OnlyDigits(s))
  {
    if s == "" {
    } else {
      OnlyDigitsAreDigits(s[..|s| - 1]);
    }
  }

  lemma {:induction false} OnlyDigitsInTwo(a: string, b: string)
    ensures OnlyDigits(a + b) == OnlyDigits(a) + OnlyDigits(b)
  {
    if b == "" {
      assert a + b == a;
    } else {
      assert (a + b)[..|a + b| - 1] == a + b[..|b| - 1];
      OnlyDigitsInTwo(a, b[..|b| - 1]);
    }
  }

  lemma {:induction false} DigitsStay(s: string)
    requires AllDigits(s)
    ensures OnlyDigits(s) == s
  {
    if s == "" {
    } else {
      DigitsStay(s[..|s| - 1]);
    }
  }

  predicate NoDigits(s: string) {
    forall i :: 0 <= i < |s| ==> !Digit(s[i])
  }

  lemma {:induction false} OthersGo(s: string)
    requires NoDigits(s)
    ensures OnlyDigits(s) == ""
  {
    if s == "" {
    } else {
      OthersGo(s[..|s| - 1]);
    }
  }

  lemma PartsAreDigits(s: string, at: nat)
    requires at <= |s| && AllDigits(s)
    ensures AllDigits(s[..at]) && AllDigits(s[at..]) && NoDigits("")
  {
  }

  lemma {:induction false} DigitsOfGrouped(digits: string, group: string)
    requires AllDigits(digits) && NoDigits(group)
    ensures OnlyDigits(Grouped(digits, group)) == digits
  {
    hide AllDigits, NoDigits, OnlyDigits;
    if |digits| <= 3 {
      DigitsStay(digits);
    } else {
      PartsAreDigits(digits, |digits| - 3);
      var init, last := digits[..|digits| - 3], digits[|digits| - 3..];
      DigitsOfGrouped(init, group);
      DigitsOfWritten("", Grouped(init, group), group, last);
      assert "" + Grouped(init, group) == Grouped(init, group);
      assert init + last == digits;
    }
  }

  lemma {:induction false} ValueOfDecimal(n: nat)
    ensures Value(Decimal(n)) == n
  {
    if n >= 10 {
      ValueOfDecimal(n / 10);
      var s := Decimal(n);
      assert s[..|s| - 1] == Decimal(n / 10);
    } else {
      assert Decimal(n)[..0] == "";
    }
  }

  lemma ValueWithPlaces(whole: string, hundredths: nat)
    requires AllDigits(whole)
    ensures AllDigits(whole + TwoPlaces(hundredths))
    ensures Value(whole + TwoPlaces(hundredths)) == 100 * Value(whole) + hundredths % 100
  {
    var s := whole + TwoPlaces(hundredths);
    var t := s[..|s| - 1];
    assert t == whole + [DigitOf(hundredths % 100 / 10)];
    assert t[..|t| - 1] == whole;
    assert Value(t) == 10 * Value(whole) + hundredths % 100 / 10;
    assert Value(s) == 10 * Value(t) + hundredths % 10;
    assert hundredths % 100 == 10 * (hundredths % 100 / 10) + hundredths % 10;
  }

  lemma {:induction false} GroupedBegins(digits: string, group: string)
    requires digits != "" && AllDigits(digits)
    ensures Grouped(digits, group) != "" && Grouped(digits, group)[0] == digits[0]
  {
    if |digits| > 3 {
      GroupedBegins(digits[..|digits| - 3], group);
    }
  }

  lemma DigitsOfWritten(sign: string, grouped: string, point: string, fraction: string)
    requires NoDigits(sign) && NoDigits(point) && AllDigits(fraction)
    ensures OnlyDigits(sign + grouped + point + fraction) == OnlyDigits(grouped) + fraction
  {
    hide OnlyDigits, AllDigits, NoDigits;
    OnlyDigitsInTwo(sign + grouped + point, fraction);
    OnlyDigitsInTwo(sign + grouped, point);
    OnlyDigitsInTwo(sign, grouped);
    OthersGo(sign);
    OthersGo(point);
    DigitsStay(fraction);
    assert "" + OnlyDigits(grouped) + "" == OnlyDigits(grouped);
  }

  lemma WrittenBegins(negative: bool, hundredths: nat, point: string, group: string)
    ensures Written(negative, hundredths, point, group) != ""
    ensures Written(negative, hundredths, point, group)[0] == '-' <==> negative && hundredths != 0
  {
    var whole := Decimal(hundredths / 100);
    GroupedBegins(whole, group);
    assert Digit(whole[0]);
  }

  lemma DigitsAsWritten(negative: bool, hundredths: nat, point: string, group: string)
    requires NoDigits(point) && NoDigits(group)
    ensures OnlyDigits(Written(negative, hundredths, point, group)) == Decimal(hundredths / 100) + TwoPlaces(hundredths)
  {
    hide OnlyDigits, Grouped, TwoPlaces, Decimal;
    var whole := Decimal(hundredths / 100);
    var sign := if negative && hundredths != 0 then "-" else "";
    DigitsOfWritten(sign, Grouped(whole, group), point, TwoPlaces(hundredths));
    DigitsOfGrouped(whole, group);
  }

  /** Whatever separators a language writes, as long as they hold no digit, the figure read
      back is the one that was written, sign and hundredths. */
  lemma ReadingBack(negative: bool, hundredths: nat, point: string, group: string)
    requires NoDigits(point) && NoDigits(group)
    ensures Read(Written(negative, hundredths, point, group)) == if negative then 0 - hundredths else hundredths
  {
    hide OnlyDigits, Written, Decimal, TwoPlaces, NoDigits, Value;
    WrittenBegins(negative, hundredths, point, group);
    DigitsAsWritten(negative, hundredths, point, group);
    ValueWithPlaces(Decimal(hundredths / 100), hundredths);
    ValueOfDecimal(hundredths / 100);
    assert 100 * (hundredths / 100) + hundredths % 100 == hundredths;
  }

  // ----- a reader that knows the separators -----

  datatype Figure = Figure(negative: bool, hundredths: nat)

  /** The digits of groups with a separator between them: three in each group but the first,
      which has one to three. */
  function ReadGroups(s: string, group: string): (digits: Option<string>)
    ensures digits.Some? ==> digits.value != "" && AllDigits(digits.value)
    decreases |s|
  {
    var at := |s| - 3;
    if 1 <= |s| <= 3 then (if AllDigits(s) then Some(s) else None)
    else if at > |group| && AllDigits(s[at..]) && s[at - |group|..at] == group then
      match ReadGroups(s[..at - |group|], group)
      case None => None
      case Some(before) => Some(before + s[at..])
    else None
  }

  /** A figure: groups, the point and two digits. No zero leads it but before the point, and a
      minus stands before nothing but it and not before zero. */
  function ReadFigure(text: string, point: string, group: string): Option<Figure> {
    if text != "" && text[0] == '-' then ReadUnsigned(true, text[1..], point, group)
    else ReadUnsigned(false, text, point, group)
  }

  function ReadUnsigned(negative: bool, figure: string, point: string, group: string): Option<Figure> {
    var at := |figure| - 2 - |point|;
    if at < 0 || figure[at..at + |point|] != point || !AllDigits(figure[at + |point|..]) then None
    else
      match ReadGroups(figure[..at], group)
      case None => None
      case Some(whole) => Unled(negative, whole, figure[at + |point|..])
  }

  function Unled(negative: bool, whole: string, fraction: string): Option<Figure>
    requires AllDigits(whole) && AllDigits(fraction)
  {
    var hundredths := Value(whole + fraction);
    if (|whole| > 1 && whole[0] == '0') || (negative && hundredths == 0) then None
    else Some(Figure(negative, hundredths))
  }

  lemma GroupsInTwo(init: string, group: string, last: string)
    requires init != "" && |last| == 3
    ensures var s := init + group + last;
            var at := |s| - 3;
            at > |group| && s[at..] == last && s[at - |group|..at] == group && s[..at - |group|] == init
  {
  }

  lemma OneGroupMore(s: string, group: string, digits: string, last: string)
    requires s != "" && ReadGroups(s, group) == Some(digits) && |last| == 3 && AllDigits(last)
    ensures ReadGroups(s + group + last, group) == Some(digits + last)
  {
    hide AllDigits;
    GroupsInTwo(s, group, last);
  }

  lemma {:induction false} GroupsAreRead(digits: string, group: string)
    requires digits != "" && AllDigits(digits)
    ensures ReadGroups(Grouped(digits, group), group) == Some(digits)
  {
    if |digits| > 3 {
      var init, last := digits[..|digits| - 3], digits[|digits| - 3..];
      PartsAreDigits(digits, |digits| - 3);
      GroupsAreRead(init, group);
      GroupedBegins(init, group);
      assert Grouped(digits, group) == Grouped(init, group) + group + last;
      hide Grouped, AllDigits;
      OneGroupMore(Grouped(init, group), group, init, last);
      assert init + last == digits;
    }
  }

  lemma {:induction false} ReadGroupsAreGrouped(s: string, group: string)
    requires ReadGroups(s, group).Some?
    ensures s == Grouped(ReadGroups(s, group).value, group)
    decreases |s|
  {
    var at := |s| - 3;
    if |s| > 3 {
      var init, last := s[..at - |group|], s[at..];
      var before := ReadGroups(init, group).value;
      assert ReadGroups(s, group).value == before + last && s[at - |group|..at] == group;
      hide ReadGroups, AllDigits;
      ReadGroupsAreGrouped(init, group);
      ThreeMoreDigits(before, last, group);
      assert s == init + group + last;
    }
  }

  lemma ThreeMoreDigits(before: string, last: string, group: string)
    requires before != "" && |last| == 3
    ensures Grouped(before + last, group) == Grouped(before, group) + group + last
  {
    var digits := before + last;
    assert digits[..|digits| - 3] == before && digits[|digits| - 3..] == last;
  }

  /** A number without a leading zero is the decimal of its value. */
  lemma {:induction false} DecimalOfValue(digits: string)
    requires digits != "" && AllDigits(digits) && (|digits| > 1 ==> digits[0] != '0')
    ensures Decimal(Value(digits)) == digits && (|digits| > 1 ==> Value(digits) >= 10)
  {
    var init, last := digits[..|digits| - 1], digits[|digits| - 1];
    assert DigitOf(DigitValue(last)) == last;
    if init == "" {
      assert Value(init) == 0;
    } else {
      DecimalOfValue(init);
      assert |init| == 1 ==> Value(init) == DigitValue(init[0]) by { assert init[..0] == ""; }
      assert Value(init) > 0;
    }
  }

  lemma TwoDigitsAreTwoPlaces(whole: string, fraction: string)
    requires AllDigits(whole) && AllDigits(fraction) && |fraction| == 2
    ensures AllDigits(whole + fraction) && Value(whole + fraction) / 100 == Value(whole)
    ensures TwoPlaces(Value(whole + fraction)) == fraction
  {
    var s := whole + fraction;
    var t := s[..|s| - 1];
    assert t == whole + [fraction[0]] && t[..|t| - 1] == whole && s[|s| - 1] == fraction[1];
    assert Digit(fraction[0]) && Digit(fraction[1]);
    var a, b := DigitValue(fraction[0]), DigitValue(fraction[1]);
    assert Value(t) == 10 * Value(whole) + a;
    assert Value(s) == 10 * Value(t) + b;
    hide Value, AllDigits;
    Places(Value(whole), a, b);
    assert fraction == [DigitOf(a), DigitOf(b)];
  }

  lemma Places(whole: nat, a: nat, b: nat)
    requires a < 10 && b < 10
    ensures (10 * (10 * whole + a) + b) / 100 == whole
    ensures (10 * (10 * whole + a) + b) % 100 / 10 == a && (10 * (10 * whole + a) + b) % 10 == b
  {
    assert 10 * (10 * whole + a) + b == 100 * whole + (10 * a + b);
    Hundreds(whole, 10 * a + b);
    Tens(10 * whole + a, b);
    Tens(a, b);
  }

  lemma Hundreds(q: nat, r: nat)
    requires r < 100
    ensures (100 * q + r) / 100 == q && (100 * q + r) % 100 == r
  {
  }

  lemma Tens(q: nat, r: nat)
    requires r < 10
    ensures (10 * q + r) / 10 == q && (10 * q + r) % 10 == r
  {
  }

  lemma PartsOfAFigure(whole: string, point: string, fraction: string)
    requires |fraction| == 2
    ensures var figure := whole + point + fraction;
            var at := |figure| - 2 - |point|;
            at == |whole| && figure[at..at + |point|] == point && figure[at + |point|..] == fraction
            && figure[..at] == whole
  {
  }

  function Sign(negative: bool): string {
    if negative then "-" else ""
  }

  lemma SignOfAFigure(negative: bool, figure: string)
    requires figure != "" && figure[0] != '-'
    ensures var text := Sign(negative) + figure;
            text != "" && (text[0] == '-' <==> negative) && figure == if negative then text[1..] else text
  {
  }

  lemma WrittenIsRead(negative: bool, hundredths: nat, point: string, group: string)
    requires negative ==> hundredths != 0
    ensures ReadFigure(Written(negative, hundredths, point, group), point, group) == Some(Figure(negative, hundredths))
  {
    hide AllDigits, Grouped, ReadGroups, TwoPlaces, Value, Decimal, ReadFigure, Written;
    var whole, fraction := Decimal(hundredths / 100), TwoPlaces(hundredths);
    WholeBegins(hundredths / 100);
    GroupedBegins(whole, group);
    WrittenInParts(negative, hundredths, point, group);
    SignOfAFigure(negative, Grouped(whole, group) + point + fraction);
    GroupsAreRead(whole, group);
    FigureInParts(negative, Grouped(whole, group), fraction, point, group);
    ValueWithPlaces(whole, hundredths);
    ValueOfDecimal(hundredths / 100);
  }

  lemma WrittenInParts(negative: bool, hundredths: nat, point: string, group: string)
    requires negative ==> hundredths != 0
    ensures Written(negative, hundredths, point, group) == Sign(negative)
            + (Grouped(Decimal(hundredths / 100), group) + point + TwoPlaces(hundredths))
  {
    hide Grouped, Decimal, TwoPlaces;
  }

  lemma FigureInParts(negative: bool, grouped: string, fraction: string, point: string, group: string)
    requires |fraction| == 2 && AllDigits(fraction) && grouped != "" && grouped[0] != '-'
    ensures ReadFigure(Sign(negative) + (grouped + point + fraction), point, group)
            == match ReadGroups(grouped, group)
               case None => None
               case Some(digits) => Unled(negative, digits, fraction)
  {
    hide AllDigits, ReadGroups, Unled, ReadFigure;
    SignOfAFigure(negative, grouped + point + fraction);
    PartsOfAFigure(grouped, point, fraction);
    SignIsRead(negative, grouped + point + fraction, point, group);
  }

  lemma SignIsRead(negative: bool, figure: string, point: string, group: string)
    requires figure != "" && figure[0] != '-'
    ensures ReadFigure(Sign(negative) + figure, point, group) == ReadUnsigned(negative, figure, point, group)
  {
    hide ReadUnsigned;
    SignOfAFigure(negative, figure);
  }

  lemma {:induction false} WholeBegins(n: nat)
    ensures Digit(Decimal(n)[0]) && (|Decimal(n)| > 1 ==> n >= 10 && Decimal(n)[0] != '0')
  {
    if n >= 10 {
      WholeBegins(n / 10);
      if |Decimal(n / 10)| == 1 {
        assert Decimal(n / 10)[0] == Decimal(n)[0];
      }
    }
  }

  lemma ReadIsWritten(text: string, figure: Figure, point: string, group: string)
    requires ReadFigure(text, point, group) == Some(figure)
    ensures text == Written(figure.negative, figure.hundredths, point, group)
    ensures figure.negative ==> figure.hundredths != 0
  {
    hide ReadUnsigned, Written;
    var negative := text != "" && text[0] == '-';
    UnsignedIsWritten(negative, if negative then text[1..] else text, figure, point, group);
    WrittenInParts(negative, figure.hundredths, point, group);
  }

  lemma UnsignedIsWritten(negative: bool, rest: string, figure: Figure, point: string, group: string)
    requires ReadUnsigned(negative, rest, point, group) == Some(figure)
    ensures rest == Grouped(Decimal(figure.hundredths / 100), group) + point + TwoPlaces(figure.hundredths)
    ensures figure.negative == negative && (negative ==> figure.hundredths != 0)
  {
    hide AllDigits, Grouped, ReadGroups, TwoPlaces, Value, Decimal;
    var at := |rest| - 2 - |point|;
    var whole, fraction := ReadGroups(rest[..at], group).value, rest[at + |point|..];
    assert rest == rest[..at] + point + fraction;
    ReadGroupsAreGrouped(rest[..at], group);
    DecimalOfValue(whole);
    TwoDigitsAreTwoPlaces(whole, fraction);
  }

  /** The figure written is the one figure the reader takes the text for, and only texts written
      so are figures: digits in groups of three but the first, the point, and two digits. This
      holds whatever the separators are, for the two places tell the point from a group. */
  lemma FigureIsRead(text: string, figure: Figure, point: string, group: string)
    ensures ReadFigure(text, point, group) == Some(figure)
            <==> text == Written(figure.negative, figure.hundredths, point, group)
                 && (figure.negative ==> figure.hundredths != 0)
    ensures Written(true, 0, point, group) == Written(false, 0, point, group)
  {
    assert Written(true, 0, point, group) == Written(false, 0, point, group);
    hide ReadFigure, Written;
    if ReadFigure(text, point, group) == Some(figure) {
      ReadIsWritten(text, figure, point, group);
    }
    if figure.negative ==> figure.hundredths != 0 {
      WrittenIsRead(figure.negative, figure.hundredths, point, group);
    }
  }

  /** English and German, and a figure that is no more than zero. */
  lemma TwoLanguages()
    ensures Written(false, 123450, ".", ",") == "1,234.50" && Written(false, 123450, ",", ".") == "1.234,50"
    ensures Written(true, 0, ".", ",") == "0.00"
  {
    hide Grouped, Decimal, TwoPlaces;
    DigitsOfTheExample();
    GroupsOfTheExample(",");
    GroupsOfTheExample(".");
    assert Grouped("0", ",") == "0" by { OneGroup("0", ","); }
  }

  lemma DigitsOfTheExample()
    ensures Decimal(1234) == "1234" && TwoPlaces(123450) == "50" && Decimal(0) == "0" && TwoPlaces(0) == "00"
  {
    assert Decimal(1) == "1" && Decimal(12) == "12" && Decimal(123) == "123";
  }

  lemma OneGroup(digits: string, group: string)
    requires |digits| <= 3
    ensures Grouped(digits, group) == digits
  {
  }

  lemma GroupsOfTheExample(group: string)
    ensures Grouped("1234", group) == "1" + group + "234"
  {
    var whole := "1234";
    assert whole[..1] == "1" && whole[1..] == "234";
    OneGroup("1", group);
  }

  // ----- the numbers of places -----

  lemma {:induction false} LeadingZero(digits: string)
    requires AllDigits(digits)
    ensures AllDigits("0" + digits) && Value("0" + digits) == Value(digits)
  {
    if digits == "" {
      assert "0" + digits == "0" && "0"[..0] == "";
    } else {
      var s := "0" + digits;
      assert s[..|s| - 1] == "0" + digits[..|digits| - 1];
      LeadingZero(digits[..|digits| - 1]);
    }
  }

  function Zeros(n: nat): string {
    if n == 0 then "" else "0" + Zeros(n - 1)
  }

  lemma {:induction false} LeadingZeros(n: nat, digits: string)
    requires AllDigits(digits)
    ensures AllDigits(Zeros(n) + digits) && Value(Zeros(n) + digits) == Value(digits)
  {
    if n == 0 {
      assert Zeros(n) + digits == digits;
    } else {
      LeadingZeros(n - 1, digits);
      LeadingZero(Zeros(n - 1) + digits);
      assert Zeros(n) + digits == "0" + (Zeros(n - 1) + digits);
    }
  }

  /** Digits are a decimal with zeros before it. */
  lemma {:induction false} WithZeros(digits: string) returns (n: nat)
    requires digits != "" && AllDigits(digits)
    ensures digits == Zeros(n) + Decimal(Value(digits))
  {
    if |digits| > 1 && digits[0] == '0' {
      var rest := digits[1..];
      LeadingZero(rest);
      assert digits == "0" + rest;
      var m := WithZeros(rest);
      n := m + 1;
      assert "0" + (Zeros(m) + Decimal(Value(rest))) == Zeros(n) + Decimal(Value(rest));
    } else {
      n := 0;
      DecimalOfValue(digits);
    }
  }

  /** A number of a value: perhaps a plus, or a minus before zero, and perhaps zeros before it. */
  ghost predicate NumbersValue(s: string, sign: string, zeros: nat, k: nat) {
    s == sign + (Zeros(zeros) + Decimal(k)) && (sign == "" || sign == "+" || (sign == "-" && k == 0))
  }

  /** What stands between braces names a value exactly when it is the value's number. */
  lemma NamesExactly(s: string, n: nat)
    ensures Names(s, n) <==> exists sign, zeros: nat, k: nat :: k < n && NumbersValue(s, sign, zeros, k)
    ensures forall sign, zeros: nat, k: nat ::
              k < n && NumbersValue(s, sign, zeros, k) ==> Names(s, n) && NumberOf(s) == k
  {
    hide Decimal, Zeros, Value, AllDigits;
    if Names(s, n) {
      var digits := if Signed(s) then s[1..] else s;
      var sign := if Signed(s) then s[..1] else "";
      var zeros := WithZeros(digits);
      assert s == sign + digits;
      assert NumbersValue(s, sign, zeros, Value(digits));
    }
    forall sign, zeros: nat, k: nat | k < n && NumbersValue(s, sign, zeros, k)
      ensures Names(s, n) && NumberOf(s) == k
    {
      NumberIsRead(sign, zeros, k);
    }
  }

  lemma NumberIsRead(sign: string, zeros: nat, k: nat)
    requires sign == "" || sign == "+" || sign == "-"
    ensures var s := sign + (Zeros(zeros) + Decimal(k)); IsNumber(s) && NumberOf(s) == if sign == "-" then 0 - k else k
  {
    hide Decimal, Value;
    LeadingZeros(zeros, Decimal(k));
    ValueOfDecimal(k);
    var digits := Zeros(zeros) + Decimal(k);
    assert Digit(digits[0]);
    assert sign != "" ==> (sign + digits)[1..] == digits;
    assert "" + digits == digits;
    hide Zeros, AllDigits;
  }

  /** Each value has a place, its number in braces, and is put there. */
  lemma EachValueIsPut(before: string, k: nat, after: string, values: seq<string>)
    requires k < |values|
    ensures Filled(before + ("{" + Decimal(k) + "}" + after), values)
            == Filled(before, values) + (values[k] + Filled(after, values))
  {
    assert "" + (Zeros(0) + Decimal(k)) == Decimal(k);
    hide Decimal, Filled, Names, NumberOf;
    assert NumbersValue(Decimal(k), "", 0, k);
    NamesExactly(Decimal(k), |values|);
    PlacesAreReplaced(before, Decimal(k), after, values);
  }
}
