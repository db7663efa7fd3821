/** Java strings as UTF-16: `String.length()` counts code units and `String.compareTo`
    compares code units. A character above U+FFFF is the two code units of a surrogate pair;
    every other character is one code unit equal to its code point. */
module Utf16 {

  predicate IsSupplementary(c: char) {
    c as int > 0xFFFF
  }

  /** The code units of one character. */
  function CharUnits(c: char): (u: seq<int>)
    ensures |u| == (if IsSupplementary(c) then 2 else 1)
    ensures forall k :: 0 <= k < |u| ==> 0 <= u[k] < 0x1_0000
    ensures IsSupplementary(c) <==> 0xD800 <= u[0] < 0xDC00
  {
    if IsSupplementary(c) then
      var v := c as int - 0x1_0000;
      [0xD800 + v / 0x400, 0xDC00 + v % 0x400]
    else
      [c as int]
  }

  /** Different characters have different code units. */
  lemma CharUnitsInjective(c: char, d: char)
    requires CharUnits(c) == CharUnits(d)
    ensures c == d
  {
    if IsSupplementary(c) {
      var v, w := c as int - 0x1_0000, d as int - 0x1_0000;
      assert v / 0x400 == w / 0x400 && v % 0x400 == w % 0x400;
      assert v == 0x400 * (v / 0x400) + v % 0x400;
      assert w == 0x400 * (w / 0x400) + w % 0x400;
    }
  }

  /** The UTF-16 encoding of a string. */
  function Utf16Units(s: string): (u: seq<int>)
    ensures |s| <= |u| <= 2 * |s|
  {
    if |s| == 0 then [] else CharUnits(s[0]) + Utf16Units(s[1..])
  }

  /** `String.length()`. */
  function Utf16Length(s: string): nat {
    |Utf16Units(s)|
  }

  /** A string of Basic Multilingual Plane characters has one code unit per character. */
  lemma {:induction false} Utf16LengthBmp(s: string)
    requires forall i :: 0 <= i < |s| ==> !IsSupplementary(s[i])
    ensures Utf16Length(s) == |s|
  {
    if |s| != 0 {
      assert forall i :: 0 <= i < |s[1..]| ==> s[1..][i] == s[i + 1];
      Utf16LengthBmp(s[1..]);
    }
  }

  /** A string of characters above U+FFFF has two code units per character. */
  lemma {:induction false} Utf16LengthSupplementary(s: string)
    requires forall i :: 0 <= i < |s| ==> IsSupplementary(s[i])
    ensures Utf16Length(s) == 2 * |s|
  {
    if |s| != 0 {
      assert forall i :: 0 <= i < |s[1..]| ==> s[1..][i] == s[i + 1];
      Utf16LengthSupplementary(s[1..]);
    }
  }

  /** The encoding loses nothing: strings with the same code units are the same string. */
  lemma {:induction false} Utf16UnitsInjective(a: string, b: string)
    requires Utf16Units(a) == Utf16Units(b)
    ensures a == b
  {
    if |a| != 0 && |b| != 0 {
      var u := Utf16Units(a);
      var ca, cb := CharUnits(a[0]), CharUnits(b[0]);
      assert u == ca + Utf16Units(a[1..]) == cb + Utf16Units(b[1..]);
      assert u[0] == ca[0] == cb[0];
      assert |ca| == |cb|;
      assert ca == u[..|ca|] == cb;
      CharUnitsInjective(a[0], b[0]);
      assert Utf16Units(a[1..]) == u[|ca|..] == Utf16Units(b[1..]);
      Utf16UnitsInjective(a[1..], b[1..]);
      assert a == [a[0]] + a[1..] && b == [b[0]] + b[1..];
    }
  }

  /** `compareTo(a, b) <= 0` on code units: the first differing unit decides, and a proper
      prefix comes first. */
  predicate UnitsLe(a: seq<int>, b: seq<int>) {
    if |a| == 0 then true
    else if |b| == 0 then false
    else if a[0] != b[0] then a[0] < b[0]
    else UnitsLe(a[1..], b[1..])
  }

  /** `a.compareTo(b) <= 0` for two strings. */
  predicate CompareLe(a: string, b: string) {
    UnitsLe(Utf16Units(a), Utf16Units(b))
  }

  lemma {:induction false} UnitsLeTotal(a: seq<int>, b: seq<int>)
    ensures UnitsLe(a, b) || UnitsLe(b, a)
  {
    if |a| != 0 && |b| != 0 && a[0] == b[0] {
      UnitsLeTotal(a[1..], b[1..]);
    }
  }

  lemma {:induction false} UnitsLeTransitive(a: seq<int>, b: seq<int>, c: seq<int>)
    requires UnitsLe(a, b) && UnitsLe(b, c)
    ensures UnitsLe(a, c)
  {
    if |a| != 0 && |b| != 0 && |c| != 0 && a[0] == b[0] == c[0] {
      UnitsLeTransitive(a[1..], b[1..], c[1..]);
    }
  }

  lemma {:induction false} UnitsLeAntisymmetric(a: seq<int>, b: seq<int>)
    ensures UnitsLe(a, b) && UnitsLe(b, a) <==> a == b
  {
    if a == b {
      UnitsLeReflexive(a);
    } else if |a| != 0 && |b| != 0 && a[0] == b[0] {
      UnitsLeAntisymmetric(a[1..], b[1..]);
      assert a == [a[0]] + a[1..] && b == [b[0]] + b[1..];
    }
  }

  lemma {:induction false} UnitsLeReflexive(a: seq<int>)
    ensures UnitsLe(a, a)
  {
    if |a| != 0 {
      UnitsLeReflexive(a[1..]);
    }
  }

  /** `compareTo` is total and transitive on strings, and two strings compare as equal
      exactly when they are the same string. */
  lemma CompareLeTotal(a: string, b: string)
    ensures CompareLe(a, b) || CompareLe(b, a)
  {
    UnitsLeTotal(Utf16Units(a), Utf16Units(b));
  }

  lemma CompareLeTransitive(a: string, b: string, c: string)
    requires CompareLe(a, b) && CompareLe(b, c)
    ensures CompareLe(a, c)
  {
    UnitsLeTransitive(Utf16Units(a), Utf16Units(b), Utf16Units(c));
  }

  lemma CompareLeAntisymmetric(a: string, b: string)
    ensures CompareLe(a, b) && CompareLe(b, a) <==> a == b
  {
    UnitsLeAntisymmetric(Utf16Units(a), Utf16Units(b));
    if Utf16Units(a) == Utf16Units(b) {
      Utf16UnitsInjective(a, b);
    }
  }

  /** UTF-16 order is not code-point order: U+FFFF is one unit 0xFFFF, while U+10000 starts
      with the unit 0xD800, so `compareTo` puts the larger code point first. */
  lemma SupplementaryBeforeBmpTail()
    ensures CompareLe("\U{10000}", "\U{FFFF}") && !CompareLe("\U{FFFF}", "\U{10000}")
  {
    assert Utf16Units("\U{10000}") == [0xD800, 0xDC00];
    assert Utf16Units("\U{FFFF}") == [0xFFFF];
  }
}
