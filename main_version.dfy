/**
 * The second `Version` of the command-line program, src/main.rs, with its own
 * `FromStr` and `get_next_number`. They are written out here as the program
 * has them, and proved to agree with the ones of src/version.rs on every
 * text, so that every property of those carries over.
 */
module CliVersion {

  import opened Wrappers
  import opened Numerals
  import Versions

  datatype Version = Version(major: U32, minor: U32, patch: U32)

  /** The search for the first `.` in `get_next_number`, from index `i` on. */
  function FindDot(s: string, i: nat): (r: Option<nat>)
    requires i <= |s|
    ensures r.Some? ==> i <= r.value < |s| && s[r.value] == '.'
    decreases |s| - i
  {
    if i == |s| then None
    else if s[i] == '.' then Some(i)
    else FindDot(s, i + 1)
  }

  function GetNextNumber(s: string): Option<(U32, string)> {
    if '.' !in s then
      match ParseU32(s)
      case Some(val) => Some((val, ""))
      case None => None
    else
      match FindDot(s, 0)
      case Some(i) =>
        (match ParseU32(s[..i])
         case Some(val) => Some((val, s[i + 1..]))
         case None => None)
      case None => None
  }

  function FromStr(s: string): Option<Version> {
    match GetNextNumber(s)
    case None => None
    case Some((major, rest)) =>
      match GetNextNumber(rest)
      case None => None
      case Some((minor, rest')) =>
        match GetNextNumber(rest')
        case None => None
        case Some((patch, _)) => Some(Version(major, minor, patch))
  }

  /** The same triple, as src/version.rs declares it. */
  function AsLibrary(v: Version): (w: Versions.Version)
    ensures w.major == v.major && w.minor == v.minor && w.patch == v.patch
  {
    Versions.Version(v.major, v.minor, v.patch)
  }

  lemma {:induction false} FindDotAgrees(s: string, i: nat)
    requires i <= |s|
    ensures FindDot(s, i) == Versions.FindDot(s, i)
    decreases |s| - i
  {
    if i < |s| && s[i] != '.' {
      FindDotAgrees(s, i + 1);
    }
  }

  lemma GetNextNumberAgrees(s: string)
    ensures GetNextNumber(s) == Versions.GetNextNumber(s)
  {
    FindDotAgrees(s, 0);
  }

  /** Both copies of `FromStr` give the same result on every text. */
  lemma FromStrAgrees(s: string)
    ensures FromStr(s).None? <==> Versions.FromStr(s).None?
    ensures FromStr(s).Some? ==> AsLibrary(FromStr(s).value) == Versions.FromStr(s).value
  {
    GetNextNumberAgrees(s);
    if GetNextNumber(s).Some? {
      GetNextNumberAgrees(GetNextNumber(s).value.1);
      if GetNextNumber(GetNextNumber(s).value.1).Some? {
        GetNextNumberAgrees(GetNextNumber(GetNextNumber(s).value.1).value.1);
      }
    }
  }

  /** Fewer than three segments, as in `"1.2"`, is an error here too. */
  lemma TooFewSegments(s: string)
    requires Versions.DotCount(s) < 2
    ensures FromStr(s) == None
  {
    FromStrAgrees(s);
    Versions.TooFewSegments(s);
  }

  /** `"1.2"` fails: the second call reads `2` and leaves `""`, which the third call rejects. */
  lemma ExampleTooFew()
    ensures GetNextNumber("2") == Some((2, ""))
    ensures GetNextNumber("") == None
    ensures FromStr("1.2") == None
  {
    Versions.SmallDigits();
    GetNextNumberAgrees("2");
    GetNextNumberAgrees("");
    FromStrAgrees("1.2");
    Versions.ExampleTooFew();
  }

  /** Anything after the `.` that follows the patch number is discarded. */
  lemma TrailingIgnored(a: string, b: string, c: string, t: string)
    requires '.' !in a && '.' !in b && '.' !in c
    ensures FromStr(a + "." + b + "." + c + "." + t) == FromStr(a + "." + b + "." + c)
  {
    var long := a + "." + b + "." + c + "." + t;
    var short := a + "." + b + "." + c;
    FromStrAgrees(long);
    FromStrAgrees(short);
    Versions.TrailingIgnored(a, b, c, t);
  }

  /** An empty text before the first `.` (or an empty text) makes the parse fail. */
  lemma EmptyFirstSegment(s: string)
    requires Versions.FirstSegment(s) == []
    ensures FromStr(s) == None
  {
    FromStrAgrees(s);
    Versions.EmptySegment(s, 0);
  }

  /**
   * A successful step on a text with a `.` returns the value of the text
   * before the first `.` and exactly the text after it.
   */
  lemma GetNextNumberSuffix(s: string)
    requires '.' in s && GetNextNumber(s).Some?
    ensures var i := |s| - |GetNextNumber(s).value.1| - 1;
      && 0 <= i < |s| && s[i] == '.' && '.' !in s[..i]
      && ParseU32(s[..i]) == Some(GetNextNumber(s).value.0) && GetNextNumber(s).value.1 == s[i + 1..]
  {
    GetNextNumberAgrees(s);
  }
}
