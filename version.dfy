/**
 * The version triple of src/version.rs: its `Display` rendering, its
 * `FromStr` parser and the segment reader `get_next_number` the parser
 * calls three times.
 *
 * Strings are sequences of characters and an index into one is taken as the
 * byte offset Rust slices at, which holds for ASCII text.
 */
module Versions {

  import opened Wrappers
  import opened Numerals

  datatype Version = Version(major: U32, minor: U32, patch: U32)

  /** `Display`: `major.minor.patch`. */
  function Format(v: Version): (r: string)
    ensures |Segments(r)| == 3
    ensures Canonical(Segments(r)[0]) && DigitsValue(Segments(r)[0]) == v.major as int
    ensures Canonical(Segments(r)[1]) && DigitsValue(Segments(r)[1]) == v.minor as int
    ensures Canonical(Segments(r)[2]) && DigitsValue(Segments(r)[2]) == v.patch as int
    ensures DotCount(r) == 2
  {
    var a, b, c := ToDecimal(v.major as nat), ToDecimal(v.minor as nat), ToDecimal(v.patch as nat);
    var r := a + "." + b + "." + c;
    assert r == a + "." + (b + "." + c);
    SegmentsOfDotFree(c);
    SegmentsAfterDotFree(b, c);
    SegmentsAfterDotFree(a, b + "." + c);
    SegmentsCountDots(r);
    r
  }

  /**
   * The `for (i, c) in version.chars().enumerate()` search of
   * `get_next_number`, from index `i` on: the index of the first `.`, or
   * `None` when the loop runs out of characters.
   */
  function FindDot(s: string, i: nat): (r: Option<nat>)
    requires i <= |s|
    ensures r.None? <==> '.' !in s[i..]
    ensures r.Some? ==> i <= r.value < |s| && s[r.value] == '.' && '.' !in s[i..r.value]
    decreases |s| - i
  {
    if i == |s| then None
    else if s[i] == '.' then Some(i)
    else
      var r := FindDot(s, i + 1);
      assert s[i..] == [s[i]] + s[i + 1..];
      assert r.Some? ==> s[i..r.value] == [s[i]] + s[i + 1..r.value];
      r
  }

  /**
   * `get_next_number`: read one dot-delimited number and return it with the
   * text after that dot. Without a `.`, the whole text must be a number and the
   * rest is empty.
   */
  function GetNextNumber(s: string): (r: Option<(U32, string)>)
    ensures '.' !in s ==> r == (if ParseU32(s).Some? then Some((ParseU32(s).value, "")) else None)
    ensures r.Some? && '.' in s ==> var i := |s| - |r.value.1| - 1;
      && 0 <= i < |s| && s[i] == '.' && '.' !in s[..i]
      && ParseU32(s[..i]) == Some(r.value.0) && r.value.1 == s[i + 1..]
  {
    if '.' !in s then
      match ParseU32(s)
      case Some(val) => Some((val, ""))
      case None => None
    else
      match FindDot(s, 0)
      case Some(i) =>
        (match ParseU32(s[..i])
         case Some(val) => Some((val, s[i + 1..]))
         case None => None)
      case None => None
  }

  /** `FromStr`: three numbers; whatever follows the third is discarded. */
  function FromStr(s: string): Option<Version> {
    match GetNextNumber(s)
    case None => None
    case Some((major, rest)) =>
      match GetNextNumber(rest)
      case None => None
      case Some((minor, rest')) =>
        match GetNextNumber(rest')
        case None => None
        case Some((patch, _)) => Some(Version(major, minor, patch))
  }

  // ---------------------------------------------------------------------------
  // Reference definition: the text split at every `.`, read one character at a time.

  /** The text between consecutive dots; a text with `k` dots has `k + 1` segments. */
  function Segments(s: string): (r: seq<string>)
    ensures |r| >= 1
    ensures forall k | 0 <= k < |r| :: '.' !in r[k]
  {
    if s == [] then [[]]
    else
      var rest := Segments(s[1..]);
      if s[0] == '.' then [[]] + rest
      else [[s[0]] + rest[0]] + rest[1..]
  }

  function FirstSegment(s: string): string {
    Segments(s)[0]
  }

  function DotCount(s: string): nat {
    if s == [] then 0 else (if s[0] == '.' then 1 else 0) + DotCount(s[1..])
  }

  /** The version the first three segments denote, if there are three and each is a `u32`. */
  function SegmentsParse(s: string): Option<Version> {
    var segs := Segments(s);
    if |segs| < 3 then None
    else
      var major, minor, patch := ParseU32(segs[0]), ParseU32(segs[1]), ParseU32(segs[2]);
      if major.Some? && minor.Some? && patch.Some? then Some(Version(major.value, minor.value, patch.value))
      else None
  }

  lemma {:induction false} SegmentsOfDotFree(a: string)
    requires '.' !in a
    ensures Segments(a) == [a]
  {
    if a != [] {
      SegmentsOfDotFree(a[1..]);
      assert [a[0]] + a[1..] == a;
    }
  }

  lemma {:induction false} SegmentsAfterDotFree(a: string, t: string)
    requires '.' !in a
    ensures Segments(a + "." + t) == [a] + Segments(t)
  {
    var s := a + "." + t;
    if a == [] {
      assert s[1..] == t;
    } else {
      assert s[1..] == a[1..] + "." + t;
      SegmentsAfterDotFree(a[1..], t);
      assert [a[0]] + a[1..] == a;
    }
  }

  lemma {:induction false} SegmentsCountDots(s: string)
    ensures |Segments(s)| == DotCount(s) + 1
  {
    if s != [] {
      SegmentsCountDots(s[1..]);
    }
  }

  /** How one successful `get_next_number` step moves along the segments. */
  lemma GetNextNumberSegments(s: string)
    ensures GetNextNumber(s).Some? <==> ParseU32(FirstSegment(s)).Some?
    ensures GetNextNumber(s).Some? ==> GetNextNumber(s).value.0 == ParseU32(FirstSegment(s)).value
    ensures GetNextNumber(s).Some? && |Segments(s)| == 1 ==> GetNextNumber(s).value.1 == ""
    ensures GetNextNumber(s).Some? && |Segments(s)| > 1 ==> Segments(GetNextNumber(s).value.1) == Segments(s)[1..]
  {
    if '.' !in s {
      SegmentsOfDotFree(s);
    } else {
      var i := FindDot(s, 0).value;
      assert s == s[..i] + "." + s[i + 1..];
      SegmentsAfterDotFree(s[..i], s[i + 1..]);
    }
  }

  /**
   * The parser agrees with the reference definition on every text: it succeeds
   * exactly when there are at least three segments and the first three are
   * `u32` numerals, and then it returns their values.
   */
  lemma FromStrMatchesSegments(s: string)
    ensures FromStr(s) == SegmentsParse(s)
  {
    var segs := Segments(s);
    GetNextNumberSegments(s);
    if GetNextNumber(s).Some? {
      var rest := GetNextNumber(s).value.1;
      GetNextNumberSegments(rest);
      if |segs| == 1 {
        assert GetNextNumber(rest) == None;
      } else if GetNextNumber(rest).Some? {
        var rest' := GetNextNumber(rest).value.1;
        GetNextNumberSegments(rest');
        if |segs| == 2 {
          assert GetNextNumber(rest') == None;
        }
      }
    }
  }

  // ---------------------------------------------------------------------------
  // Properties of the parser.

  /** Once line 44 has seen a `.`, the search finds one, so the trailing `return None` is never reached. */
  lemma TrailingReturnUnreachable(s: string)
    requires '.' in s
    ensures FindDot(s, 0).Some?
  {
    assert s[0..] == s;
  }

  /** Every version, formatted and parsed back, is itself. */
  lemma RoundTrip(v: Version)
    ensures FromStr(Format(v)) == Some(v)
  {
    var s := Format(v);
    var segs := Segments(s);
    FromStrMatchesSegments(s);
    assert segs[0] == ToDecimal(v.major as nat) by { CanonicalUnique(segs[0], v.major as nat); }
    assert segs[1] == ToDecimal(v.minor as nat) by { CanonicalUnique(segs[1], v.minor as nat); }
    assert segs[2] == ToDecimal(v.patch as nat) by { CanonicalUnique(segs[2], v.patch as nat); }
    ParseToDecimal(v.major as nat);
    ParseToDecimal(v.minor as nat);
    ParseToDecimal(v.patch as nat);
  }

  /** A canonical numeral is the unique rendering of its value. */
  lemma {:induction false} CanonicalUnique(s: string, n: nat)
    requires Canonical(s) && DigitsValue(s) == n
    ensures s == ToDecimal(n)
  {
    var init := s[..|s| - 1];
    var last := s[|s| - 1];
    if |s| == 1 {
      assert init == [];
    } else {
      assert s[0] == init[0];
      assert Canonical(init);
      assert DigitsValue(init) > 0 by {
        NonzeroLeadingDigit(init);
      }
      assert n >= 10;
      assert n / 10 == DigitsValue(init) && n % 10 == DigitValue(last);
      CanonicalUnique(init, n / 10);
      assert s == init + [last];
      assert last == DigitChar(n % 10);
    }
  }

  lemma {:induction false} NonzeroLeadingDigit(s: string)
    requires s != [] && AllDigits(s) && s[0] != '0'
    ensures DigitsValue(s) > 0
  {
    var init := s[..|s| - 1];
    if init == [] {
      assert s[|s| - 1] == s[0];
    } else {
      assert init[0] == s[0];
      NonzeroLeadingDigit(init);
    }
  }

  /** Fewer than three segments, as in `"1.2"`, is an error. */
  lemma TooFewSegments(s: string)
    requires DotCount(s) < 2
    ensures FromStr(s) == None
  {
    SegmentsCountDots(s);
    FromStrMatchesSegments(s);
  }

  /** An empty one among the first three segments, as in `""`, `".1.2"` or `"1..3"`, is an error. */
  lemma EmptySegment(s: string, k: nat)
    requires k < 3 && k < |Segments(s)| && Segments(s)[k] == []
    ensures FromStr(s) == None
  {
    var segs := Segments(s);
    assert ParseU32(segs[k]) == None;
    FromStrMatchesSegments(s);
    assert k == 0 || k == 1 || k == 2;
  }

  /** A segment that overflows `u32` makes the whole parse fail. */
  lemma OverflowingSegment(s: string, k: nat)
    requires k < 3 && k < |Segments(s)| && AllDigits(Segments(s)[k]) && DigitsValue(Segments(s)[k]) > MaxU32
    ensures FromStr(s) == None
  {
    var segs := Segments(s);
    ParseOverflow(segs[k]);
    FromStrMatchesSegments(s);
    assert k == 0 || k == 1 || k == 2;
  }

  /** Anything after the `.` that follows the patch number is ignored. */
  lemma TrailingIgnored(a: string, b: string, c: string, t: string)
    requires '.' !in a && '.' !in b && '.' !in c
    ensures FromStr(a + "." + b + "." + c + "." + t) == FromStr(a + "." + b + "." + c)
  {
    var long := a + "." + b + "." + c + "." + t;
    var short := a + "." + b + "." + c;
    assert long == a + "." + (b + "." + (c + "." + t));
    assert short == a + "." + (b + "." + c);
    SegmentsAfterDotFree(c, t);
    SegmentsAfterDotFree(b, c + "." + t);
    SegmentsAfterDotFree(a, b + "." + (c + "." + t));
    SegmentsOfDotFree(c);
    SegmentsAfterDotFree(b, c);
    SegmentsAfterDotFree(a, b + "." + c);
    FromStrMatchesSegments(long);
    FromStrMatchesSegments(short);
  }

  /** A leading zero in the major number is accepted and changes nothing: `"01.2.3"` parses as `"1.2.3"`. */
  lemma LeadingZeroMajor(s: string)
    requires FirstSegment(s) != [] && AllDigits(FirstSegment(s))
    ensures FromStr("0" + s) == FromStr(s)
  {
    assert Segments("0" + s) == ["0" + FirstSegment(s)] + Segments(s)[1..] by {
      assert ("0" + s)[1..] == s;
    }
    ParseLeadingZero(FirstSegment(s));
    FromStrMatchesSegments("0" + s);
    FromStrMatchesSegments(s);
  }

  /** A leading zero in the minor number is accepted and changes nothing. */
  lemma LeadingZeroMinor(a: string, b: string, r: string)
    requires '.' !in a && b != [] && AllDigits(b)
    ensures FromStr(a + "." + ("0" + b) + "." + r) == FromStr(a + "." + b + "." + r)
  {
    assert '.' !in "0" + b by {
      assert forall i | 0 <= i < |"0" + b| :: IsDigit(("0" + b)[i]) by {
        DigitsValueLeadingZero(b);
      }
    }
    assert '.' !in b by {
      assert forall i | 0 <= i < |b| :: IsDigit(b[i]);
    }
    var long := a + "." + ("0" + b) + "." + r;
    var short := a + "." + b + "." + r;
    assert long == a + "." + (("0" + b) + "." + r);
    assert short == a + "." + (b + "." + r);
    SegmentsAfterDotFree("0" + b, r);
    SegmentsAfterDotFree(b, r);
    SegmentsAfterDotFree(a, ("0" + b) + "." + r);
    SegmentsAfterDotFree(a, b + "." + r);
    ParseLeadingZero(b);
    FromStrMatchesSegments(long);
    FromStrMatchesSegments(short);
  }

  /** The segments of a dot-free `c` followed by nothing or by a `.` and more. */
  lemma SegmentsOfLast(c: string, t: string)
    requires '.' !in c && (t == [] || t[0] == '.')
    ensures Segments(c + t) == [c] + (if t == [] then [] else Segments(t[1..]))
  {
    if t == [] {
      assert c + t == c;
      SegmentsOfDotFree(c);
    } else {
      assert c + t == c + "." + t[1..];
      SegmentsAfterDotFree(c, t[1..]);
    }
  }

  /**
   * A leading zero in the patch number is accepted and changes nothing,
   * whether the patch number ends the text or a `.` follows it.
   */
  lemma LeadingZeroPatch(a: string, b: string, c: string, t: string)
    requires '.' !in a && '.' !in b && c != [] && AllDigits(c)
    requires t == [] || t[0] == '.'
    ensures FromStr(a + "." + b + "." + ("0" + c) + t) == FromStr(a + "." + b + "." + c + t)
  {
    var c0 := "0" + c;
    DigitsValueLeadingZero(c);
    assert '.' !in c0 by {
      assert forall i | 0 <= i < |c0| :: IsDigit(c0[i]);
    }
    assert '.' !in c by {
      assert forall i | 0 <= i < |c| :: IsDigit(c[i]);
    }
    var long := a + "." + b + "." + c0 + t;
    var short := a + "." + b + "." + c + t;
    assert long == a + "." + (b + "." + (c0 + t));
    assert short == a + "." + (b + "." + (c + t));
    SegmentsOfLast(c0, t);
    SegmentsOfLast(c, t);
    SegmentsAfterDotFree(b, c0 + t);
    SegmentsAfterDotFree(b, c + t);
    SegmentsAfterDotFree(a, b + "." + (c0 + t));
    SegmentsAfterDotFree(a, b + "." + (c + t));
    ParseLeadingZero(c);
    var sl, ss := Segments(long), Segments(short);
    assert sl[0] == ss[0] && sl[1] == ss[1] && sl[2] == c0 && ss[2] == c && |sl| == |ss|;
    FromStrMatchesSegments(long);
    FromStrMatchesSegments(short);
  }

  /** A text of the exact shape `a.b.c` with three `u32` numerals parses to them. */
  lemma ThreeSegments(a: string, b: string, c: string)
    requires ParseU32(a).Some? && ParseU32(b).Some? && ParseU32(c).Some?
    ensures FromStr(a + "." + b + "." + c) == Some(Version(ParseU32(a).value, ParseU32(b).value, ParseU32(c).value))
  {
    assert a + "." + b + "." + c == a + "." + (b + "." + c);
    SegmentsOfDotFree(c);
    SegmentsAfterDotFree(b, c);
    SegmentsAfterDotFree(a, b + "." + c);
    FromStrMatchesSegments(a + "." + b + "." + c);
  }

  // ---------------------------------------------------------------------------
  // The edge cases, on concrete texts.

  /** The digits `"1"`, `"2"` and `"3"` parse to their values. */
  lemma SmallDigits()
    ensures ParseU32("1") == Some(1) && ParseU32("2") == Some(2) && ParseU32("3") == Some(3)
  {
  }

  lemma ExampleExact()
    ensures FromStr("1.2.3") == Some(Version(1, 2, 3))
  {
    SmallDigits();
    ThreeSegments("1", "2", "3");
    assert "1" + "." + "2" + "." + "3" == "1.2.3";
  }

  lemma ExampleFourSegments()
    ensures FromStr("1.2.3.4") == Some(Version(1, 2, 3))
  {
    SmallDigits();
    assert "1.2.3.4" == "1" + "." + ("2" + "." + ("3" + "." + "4"));
    SegmentsAfterDotFree("3", "4");
    SegmentsAfterDotFree("2", "3" + "." + "4");
    SegmentsAfterDotFree("1", "2" + "." + ("3" + "." + "4"));
    FromStrMatchesSegments("1.2.3.4");
  }

  lemma ExampleTrailingDot()
    ensures FromStr("1.2.3.") == Some(Version(1, 2, 3))
  {
    SmallDigits();
    assert "1.2.3." == "1" + "." + ("2" + "." + ("3" + "." + ""));
    SegmentsAfterDotFree("3", "");
    SegmentsAfterDotFree("2", "3" + "." + "");
    SegmentsAfterDotFree("1", "2" + "." + ("3" + "." + ""));
    FromStrMatchesSegments("1.2.3.");
  }

  lemma ExampleLeadingZeroMajor()
    ensures FromStr("01.2.3") == Some(Version(1, 2, 3))
  {
    SmallDigits();
    ParseLeadingZero("1");
    assert "0" + "1" == "01";
    assert "01.2.3" == "01" + "." + ("2" + "." + "3");
    SegmentsOfDotFree("3");
    SegmentsAfterDotFree("2", "3");
    SegmentsAfterDotFree("01", "2" + "." + "3");
    FromStrMatchesSegments("01.2.3");
  }

  lemma ExampleLeadingZeroMinor()
    ensures FromStr("1.02.3") == Some(Version(1, 2, 3))
  {
    SmallDigits();
    ParseLeadingZero("2");
    assert "0" + "2" == "02";
    assert "1.02.3" == "1" + "." + ("02" + "." + "3");
    SegmentsOfDotFree("3");
    SegmentsAfterDotFree("02", "3");
    SegmentsAfterDotFree("1", "02" + "." + "3");
    FromStrMatchesSegments("1.02.3");
  }

  lemma ExampleTooFew()
    ensures FromStr("1.2") == None
    ensures FromStr("") == None
  {
    TooFewSegments("1.2");
    TooFewSegments("");
  }

  lemma ExampleEmptySegment()
    ensures FromStr(".1.2") == None
    ensures FromStr("1..3") == None
  {
    SegmentsAfterDotFree("", "1.2");
    EmptySegment(".1.2", 0);
    SegmentsAfterDotFree("", "3");
    SegmentsAfterDotFree("1", ".3");
    EmptySegment("1..3", 1);
  }

  lemma ExampleNegative()
    ensures FromStr("-1.2.3") == None
  {
    SegmentsAfterDotFree("-1", "2.3");
    assert !IsDigit("-1"[0]);
    FromStrMatchesSegments("-1.2.3");
  }

  lemma ExampleOverflow()
    ensures FromStr("4294967296.0.0") == None
  {
    var s := "4294967296";
    assert AllDigits(s);
    assert DigitsValue(s[..1]) == 4 by { assert s[..1][..0] == []; }
    assert DigitsValue(s[..2]) == 42 by { assert s[..2][..1] == s[..1]; }
    assert DigitsValue(s[..3]) == 429 by { assert s[..3][..2] == s[..2]; }
    assert DigitsValue(s[..4]) == 4294 by { assert s[..4][..3] == s[..3]; }
    assert DigitsValue(s[..5]) == 42949 by { assert s[..5][..4] == s[..4]; }
    assert DigitsValue(s[..6]) == 429496 by { assert s[..6][..5] == s[..5]; }
    assert DigitsValue(s[..7]) == 4294967 by { assert s[..7][..6] == s[..6]; }
    assert DigitsValue(s[..8]) == 42949672 by { assert s[..8][..7] == s[..7]; }
    assert DigitsValue(s[..9]) == 429496729 by { assert s[..9][..8] == s[..8]; }
    assert DigitsValue(s) == 4294967296 by { assert s[..9] == s[..|s| - 1]; }
    SegmentsAfterDotFree(s, "0.0");
    assert s + "." + "0.0" == "4294967296.0.0";
    OverflowingSegment(s + "." + "0.0", 0);
  }
}
