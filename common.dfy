/** Small building blocks shared by the form and the delete dialog models:
    Java's nullable references, the two java.lang.Boolean conversions the
    sources use, and the String ordering that Collections.sort applies. */
module Common {

  /** A Java reference that may be null. */
  datatype Option<+T> = None | Some(value: T)

  // ---------------------------------------------------------------------
  // java.lang.Boolean
  // ---------------------------------------------------------------------

  /** Character case folding for the characters that can take part in a
      case-insensitive comparison with "true". */
  function LowerAscii(c: char): char
  {
    if 'A' <= c <= 'Z' then (c as int + 32) as char else c
  }

  /** String.equalsIgnoreCase restricted to ASCII case folding. */
  predicate EqualsIgnoreCase(a: string, b: string)
  {
    |a| == |b| && forall i :: 0 <= i < |a| ==> LowerAscii(a[i]) == LowerAscii(b[i])
  }

  /** Boolean.valueOf(String): true exactly for a non-null string that equals
      "true" ignoring case; null and every other string give false. */
  function ParseBoolean(s: Option<string>): (b: bool)
    ensures s == None ==> !b
    ensures s == Some("true") || s == Some("TRUE") || s == Some("True") ==> b
    ensures s.Some? && EqualsIgnoreCase(s.value, "true") ==> b
    ensures s == Some("false") ==> !b
    ensures b ==> s.Some? && |s.value| == 4
  {
    s.Some? && EqualsIgnoreCase(s.value, "true")
  }

  /** Boolean.toString(boolean). */
  function BooleanToString(b: bool): string
  {
    if b then "true" else "false"
  }

  /** Boolean.valueOf undoes Boolean.toString. */
  lemma ParseBooleanToString(b: bool)
    ensures ParseBoolean(Some(BooleanToString(b))) == b
  {
    if !b {
      assert LowerAscii('f') != LowerAscii('t');
    }
  }

  // ---------------------------------------------------------------------
  // String.compareTo and Collections.sort over strings
  // ---------------------------------------------------------------------

  /** The UTF-16 code units Java stores for one character: the character
      itself below U+10000, otherwise a high surrogate followed by a low
      surrogate that together encode it. */
  function CodeUnits(c: char): (u: seq<int>)
    ensures |u| == 1 || |u| == 2
    ensures |u| == 1 <==> c as int < 0x10000
    ensures |u| == 1 ==> u[0] == c as int && !(0xD800 <= u[0] < 0xE000)
    ensures |u| == 2 ==> 0xD800 <= u[0] < 0xDC00 && 0xDC00 <= u[1] < 0xE000
    ensures |u| == 2 ==> c as int == 0x10000 + (u[0] - 0xD800) * 0x400 + (u[1] - 0xDC00)
  {
    var n := c as int;
    if n < 0x10000 then [n]
    else [0xD800 + (n - 0x10000) / 0x400, 0xDC00 + (n - 0x10000) % 0x400]
  }

  /** The UTF-16 code unit sequence of a string (String.charAt(0), ...). */
  function Utf16(s: string): (u: seq<int>)
    ensures |s| <= |u| <= 2 * |s|
    decreases |s|
  {
    if s == [] then [] else CodeUnits(s[0]) + Utf16(s[1..])
  }

  /** Lexicographic order on code unit sequences, where a proper prefix
      comes first. */
  predicate UnitsAtMost(a: seq<int>, b: seq<int>)
    decreases |a|
  {
    |a| == 0 || (|b| > 0 && (a[0] < b[0] || (a[0] == b[0] && UnitsAtMost(a[1..], b[1..]))))
  }

  /** a.compareTo(b) <= 0: String.compareTo compares the UTF-16 code units
      of the two strings, so a supplementary character (high surrogate
      0xD800-0xDBFF) sorts before a character in U+E000-U+FFFF. */
  predicate AtMost(a: string, b: string)
  {
    UnitsAtMost(Utf16(a), Utf16(b))
  }

  lemma {:induction false} UnitsAtMostTotal(a: seq<int>, b: seq<int>)
    ensures UnitsAtMost(a, b) || UnitsAtMost(b, a)
    decreases |a|
  {
    if |a| > 0 && |b| > 0 && a[0] == b[0] {
      UnitsAtMostTotal(a[1..], b[1..]);
    }
  }

  lemma {:induction false} UnitsAtMostTransitive(a: seq<int>, b: seq<int>, c: seq<int>)
    requires UnitsAtMost(a, b) && UnitsAtMost(b, c)
    ensures UnitsAtMost(a, c)
    decreases |a|
  {
    if |a| > 0 && a[0] == b[0] && b[0] == c[0] {
      UnitsAtMostTransitive(a[1..], b[1..], c[1..]);
    }
  }

  lemma {:induction false} UnitsAtMostAntisymmetric(a: seq<int>, b: seq<int>)
    requires UnitsAtMost(a, b) && UnitsAtMost(b, a)
    ensures a == b
    decreases |a|
  {
    if |a| > 0 {
      UnitsAtMostAntisymmetric(a[1..], b[1..]);
      assert a == [a[0]] + a[1..] && b == [b[0]] + b[1..];
    }
  }

  /** Two characters with the same code units are the same character. */
  lemma CodeUnitsInjective(c: char, d: char)
    requires CodeUnits(c) == CodeUnits(d)
    ensures c == d
  {
    assert c as int == d as int;
  }

  /** Different strings have different UTF-16 encodings. */
  lemma {:induction false} Utf16Injective(a: string, b: string)
    requires Utf16(a) == Utf16(b)
    ensures a == b
    decreases |a|
  {
    if a != [] {
      assert b != [];
      var ua, ub := CodeUnits(a[0]), CodeUnits(b[0]);
      assert Utf16(a)[0] == ua[0] && Utf16(b)[0] == ub[0];
      assert |ua| == |ub|;
      assert Utf16(a)[..|ua|] == ua && Utf16(b)[..|ub|] == ub;
      CodeUnitsInjective(a[0], b[0]);
      assert Utf16(a)[|ua|..] == Utf16(a[1..]) && Utf16(b)[|ub|..] == Utf16(b[1..]);
      Utf16Injective(a[1..], b[1..]);
      assert a == [a[0]] + a[1..] && b == [b[0]] + b[1..];
    }
  }

  lemma AtMostTotal(a: string, b: string)
    ensures AtMost(a, b) || AtMost(b, a)
  {
    UnitsAtMostTotal(Utf16(a), Utf16(b));
  }

  lemma AtMostTransitive(a: string, b: string, c: string)
    requires AtMost(a, b) && AtMost(b, c)
    ensures AtMost(a, c)
  {
    UnitsAtMostTransitive(Utf16(a), Utf16(b), Utf16(c));
  }

  lemma AtMostAntisymmetric(a: string, b: string)
    requires AtMost(a, b) && AtMost(b, a)
    ensures a == b
  {
    UnitsAtMostAntisymmetric(Utf16(a), Utf16(b));
    Utf16Injective(a, b);
  }

  /** How compareTo orders two one-character strings: by code point when
      both lie below U+10000 or both above, and a supplementary character
      between U+D7FF and U+E000 otherwise. */
  lemma SingleCharOrder(c: char, d: char)
    ensures (c as int < 0x10000 <==> d as int < 0x10000) ==> (AtMost([c], [d]) <==> c as int <= d as int)
    ensures c as int >= 0x10000 && 0xE000 <= d as int < 0x10000 ==> AtMost([c], [d]) && !AtMost([d], [c])
    ensures c as int >= 0x10000 && d as int < 0xD800 ==> AtMost([d], [c]) && !AtMost([c], [d])
  {
    var u, v := CodeUnits(c), CodeUnits(d);
    assert Utf16([c]) == u && Utf16([d]) == v;
    if |u| == 2 && |v| == 2 {
      assert UnitsAtMost(u, v) <==> u[0] < v[0] || (u[0] == v[0] && UnitsAtMost(u[1..], v[1..]));
      assert u[1..][1..] == [] && u[1..][0] == u[1] && v[1..][0] == v[1];
      assert UnitsAtMost(u[1..], v[1..]) <==> u[1] <= v[1];
      var hc, hd := (u[0] - 0xD800) * 0x400, (v[0] - 0xD800) * 0x400;
      assert u[0] < v[0] ==> hc + 0x400 <= hd;
      assert v[0] < u[0] ==> hd + 0x400 <= hc;
      assert c as int <= d as int <==> u[0] < v[0] || (u[0] == v[0] && u[1] <= v[1]);
    }
    assert AtMost([c], [d]) == UnitsAtMost(u, v);
    if |u| == 1 && |v| == 1 {
      assert UnitsAtMost(u, v) <==> u[0] <= v[0];
    }
  }

  /** The encoding of a concatenation is the concatenation of encodings. */
  lemma {:induction false} Utf16Append(a: string, b: string)
    ensures Utf16(a + b) == Utf16(a) + Utf16(b)
    decreases |a|
  {
    if a != [] {
      assert (a + b)[0] == a[0] && (a + b)[1..] == a[1..] + b;
      Utf16Append(a[1..], b);
      assert Utf16(a + b) == CodeUnits(a[0]) + Utf16(a[1..] + b);
    } else {
      assert a + b == b;
    }
  }

  lemma {:induction false} UnitsAtMostSharedPrefix(p: seq<int>, a: seq<int>, b: seq<int>)
    ensures UnitsAtMost(p + a, p + b) <==> UnitsAtMost(a, b)
    decreases |p|
  {
    if p != [] {
      assert (p + a)[1..] == p[1..] + a && (p + b)[1..] == p[1..] + b;
      UnitsAtMostSharedPrefix(p[1..], a, b);
    } else {
      assert p + a == a && p + b == b;
    }
  }

  /** A common prefix does not change how two strings compare. */
  lemma AtMostSharedPrefix(p: string, a: string, b: string)
    ensures AtMost(p + a, p + b) <==> AtMost(a, b)
  {
    Utf16Append(p, a);
    Utf16Append(p, b);
    UnitsAtMostSharedPrefix(Utf16(p), Utf16(a), Utf16(b));
  }

  /** compareTo puts "/a" followed by U+1F600 before "/a" followed by
      U+FF21, although the first has the larger code point. */
  lemma SurrogatePairSortsLow()
    ensures AtMost("/a\U{1F600}", "/a\U{FF21}") && !AtMost("/a\U{FF21}", "/a\U{1F600}")
  {
    assert "/a\U{1F600}" == "/a" + ['\U{1F600}'] && "/a\U{FF21}" == "/a" + ['\U{FF21}'];
    AtMostSharedPrefix("/a", ['\U{1F600}'], ['\U{FF21}']);
    AtMostSharedPrefix("/a", ['\U{FF21}'], ['\U{1F600}']);
    SingleCharOrder('\U{1F600}', '\U{FF21}');
  }

  ghost predicate Sorted(s: seq<string>)
  {
    forall i, j :: 0 <= i < j < |s| ==> AtMost(s[i], s[j])
  }

  /** x placed before the head of a sorted sequence it does not exceed. */
  lemma InsertFront(x: string, s: seq<string>)
    requires Sorted(s) && s != [] && AtMost(x, s[0])
    ensures Sorted([x] + s)
  {
    forall j | 0 < j < |s| ensures AtMost(x, s[j]) {
      AtMostTransitive(x, s[0], s[j]);
    }
  }

  /** The head of a sorted sequence, placed before x inserted into its tail. */
  lemma InsertBehind(x: string, s: seq<string>, rest: seq<string>)
    requires Sorted(s) && s != [] && !AtMost(x, s[0])
    requires Sorted(rest) && multiset(rest) == multiset(s[1..]) + multiset{x}
    ensures Sorted([s[0]] + rest)
    ensures multiset([s[0]] + rest) == multiset(s) + multiset{x}
  {
    assert s == [s[0]] + s[1..];
    AtMostTotal(x, s[0]);
    forall j | 0 <= j < |rest| ensures AtMost(s[0], rest[j]) {
      assert rest[j] in multiset(rest);
      if rest[j] != x {
        assert rest[j] in multiset(s[1..]);
        var k :| 0 <= k < |s[1..]| && s[1..][k] == rest[j];
        assert s[k + 1] == rest[j];
      }
    }
  }

  /** Inserts x into a sorted sequence, keeping it sorted. */
  function Insert(x: string, s: seq<string>): (r: seq<string>)
    requires Sorted(s)
    ensures Sorted(r)
    ensures multiset(r) == multiset(s) + multiset{x}
    decreases |s|
  {
    if s == [] then [x]
    else if AtMost(x, s[0]) then
      InsertFront(x, s);
      assert s == [s[0]] + s[1..];
      [x] + s
    else
      var rest := Insert(x, s[1..]);
      InsertBehind(x, s, rest);
      [s[0]] + rest
  }

  /** Collections.sort on a list of strings: the result is ordered by
      String.compareTo and holds the same strings as the input. */
  function SortStrings(s: seq<string>): (r: seq<string>)
    ensures Sorted(r)
    ensures multiset(r) == multiset(s)
    ensures |r| == |s|
    decreases |s|
  {
    if s == [] then []
    else
      assert s == s[..|s| - 1] + [s[|s| - 1]];
      var r := Insert(s[|s| - 1], SortStrings(s[..|s| - 1]));
      assert |r| == |multiset(r)|;
      r
  }
}
