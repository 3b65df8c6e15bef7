/** Cutting strings in two and putting them together. */
module Strings {

  /** strings.Cut at a character: what lies before and after its first occurrence. */
  function CutAt(s: string, c: char): (parts: (string, string, bool))
    ensures parts.2 ==> |parts.0| + 1 + |parts.1| == |s|
  {
    if s == "" then ("", "", false)
    else if s[0] == c then ("", s[1..], true)
    else
      var (before, after, found) := CutAt(s[1..], c);
      ([s[0]] + before, after, found)
  }

  lemma {:induction false} CutIs(s: string, c: char)
    ensures var (before, after, found) := CutAt(s, c);
            && (found ==> s == before + [c] + after) && (!found ==> before == s && after == "")
            && c !in before && (found <==> c in s)
  {
    if s != "" && s[0] != c {
      CutIs(s[1..], c);
      assert s == [s[0]] + s[1..];
    }
  }

  lemma {:induction false} CutInTwo(a: string, b: string, c: char)
    ensures c in a ==> CutAt(a + b, c) == (CutAt(a, c).0, CutAt(a, c).1 + b, true)
    ensures c !in a ==> CutAt(a + b, c) == (a + CutAt(b, c).0, CutAt(b, c).1, CutAt(b, c).2)
  {
    if a == "" {
      assert a + b == b && a + CutAt(b, c).0 == CutAt(b, c).0;
    } else {
      assert (a + b)[1..] == a[1..] + b && a == [a[0]] + a[1..];
      CutInTwo(a[1..], b, c);
      if c !in a {
        assert [a[0]] + (a[1..] + CutAt(b, c).0) == a + CutAt(b, c).0;
      }
    }
  }

  lemma CutAtOnce(c: char, after: string)
    ensures CutAt([c] + after, c) == ("", after, true)
  {
    assert ([c] + after)[1..] == after;
  }

  lemma Associative(a: string, b: string, c: string, d: string)
    ensures a + b + c + d == a + (b + c + d)
  {
  }
}
