/** The Python string and path primitives the program relies on, in a stated
    approximation: `str.strip()` trims ASCII whitespace (with 0x1C-0x1F) only,
    `str.split(sep, 1)` splits at the first separator, and `os.path.splitext` follows the POSIX rules
    (the separator is '/', the extension starts at the last dot of the final
    component, and leading dots of that component never start an extension). */
module PyStr {

  type Path = string

  /** The characters `str.strip()` removes in this model: the ASCII whitespace and the
      four ASCII separators 0x1C-0x1F that Python counts as whitespace. */
  predicate IsSpace(c: char) {
    c == ' ' || c == '\t' || c == '\n' || c == '\r' || c == '\U{B}' || c == '\U{C}'
    || c == '\U{1C}' || c == '\U{1D}' || c == '\U{1E}' || c == '\U{1F}'
  }

  predicate AllSpace(s: string) {
    forall k :: 0 <= k < |s| ==> IsSpace(s[k])
  }

  /** The number of whitespace characters `s` starts with: the part `s.lstrip()` removes. */
  function LeadingSpaces(s: string): (n: nat)
    ensures n <= |s|
    ensures n < |s| ==> !IsSpace(s[n])
  {
    if |s| > 0 && IsSpace(s[0]) then
      var m := LeadingSpaces(s[1..]);
      assert m < |s| - 1 ==> s[1..][m] == s[m + 1];
      1 + m
    else 0
  }

  /** Everything `s.lstrip()` removes is whitespace. */
  lemma {:induction false} LeadingSpacesAreSpaces(s: string)
    ensures forall k :: 0 <= k < LeadingSpaces(s) ==> IsSpace(s[k])
  {
    if |s| > 0 && IsSpace(s[0]) {
      LeadingSpacesAreSpaces(s[1..]);
      assert forall k :: 1 <= k < LeadingSpaces(s) ==> s[k] == s[1..][k - 1];
    }
  }

  /** The number of whitespace characters `s` ends with: the part `s.rstrip()` removes. */
  function TrailingSpaces(s: string): (n: nat)
    ensures n <= |s|
    ensures n < |s| ==> !IsSpace(s[|s| - n - 1])
  {
    if |s| > 0 && IsSpace(s[|s| - 1]) then
      var m := TrailingSpaces(s[..|s| - 1]);
      assert m < |s| - 1 ==> s[..|s| - 1][|s| - 1 - m - 1] == s[|s| - m - 2];
      1 + m
    else 0
  }

  /** Everything `s.rstrip()` removes is whitespace. */
  lemma {:induction false} TrailingSpacesAreSpaces(s: string)
    ensures forall k :: |s| - TrailingSpaces(s) <= k < |s| ==> IsSpace(s[k])
  {
    if |s| > 0 && IsSpace(s[|s| - 1]) {
      TrailingSpacesAreSpaces(s[..|s| - 1]);
      assert forall k :: |s| - TrailingSpaces(s) <= k < |s| - 1 ==> s[k] == s[..|s| - 1][k];
    }
  }

  /** `s.strip()`: `s` without its leading and trailing whitespace. */
  function Strip(s: string): (r: string)
    ensures |r| <= |s|
    ensures r == [] || (!IsSpace(r[0]) && !IsSpace(r[|r| - 1]))
  {
    var i := LeadingSpaces(s);
    var j := TrailingSpaces(s[i..]);
    s[i..|s| - j]
  }

  /** The stripped text is the part of `s` between a whitespace prefix and a whitespace suffix. */
  lemma StripIsInnerSlice(s: string)
    ensures var i, r := LeadingSpaces(s), Strip(s);
      && i + |r| <= |s| && r == s[i..i + |r|]
      && (forall k :: 0 <= k < i ==> IsSpace(s[k]))
      && (forall k :: i + |r| <= k < |s| ==> IsSpace(s[k]))
  {
    var i := LeadingSpaces(s);
    var t := s[i..];
    var j := TrailingSpaces(t);
    LeadingSpacesAreSpaces(s);
    TrailingSpacesAreSpaces(t);
    assert Strip(s) == s[i..|s| - j];
    forall k | |s| - j <= k < |s|
      ensures IsSpace(s[k])
    {
      assert s[k] == t[k - i];
    }
  }

  /** Only a string made of whitespace strips to the empty string. */
  lemma StripEmptyIffAllSpace(s: string)
    ensures Strip(s) == [] <==> AllSpace(s)
  {
    StripIsInnerSlice(s);
  }

  /** Stripping twice changes nothing. */
  lemma StripIdempotent(s: string)
    ensures Strip(Strip(s)) == Strip(s)
  {
    var r := Strip(s);
    assert LeadingSpaces(r) == 0;
    assert r[0..] == r;
    assert TrailingSpaces(r) == 0;
  }

  /** A trailing newline (the one a Tk text widget appends on `get`) is stripped away. */
  lemma StripTrailingNewline(s: string)
    ensures Strip(s + "\n") == Strip(s)
  {
    if AllSpace(s) {
      assert AllSpace(s + "\n");
      StripEmptyIffAllSpace(s);
      StripEmptyIffAllSpace(s + "\n");
    } else {
      StripTrailingNewlineText(s);
    }
  }

  lemma StripTrailingNewlineText(s: string)
    requires !AllSpace(s)
    ensures Strip(s + "\n") == Strip(s)
  {
    var t := s + "\n";
    var i := LeadingSpaces(s);
    LeadingSpacesOfExtension(s, "\n");
    var u := s[i..];
    var j := TrailingSpaces(u);
    assert t[i..] == u + "\n";
    TrailingSpacesNewline(u);
    StripAt(t, i, 1 + j);
    StripAt(s, i, j);
    SliceOfExtension(s, "\n", i, |s| - j);
  }

  lemma StripAt(s: string, i: nat, j: nat)
    requires i == LeadingSpaces(s) && j == TrailingSpaces(s[i..])
    ensures i <= |s| - j && Strip(s) == s[i..|s| - j]
  {
  }

  lemma SliceOfExtension(s: string, u: string, a: nat, b: nat)
    requires a <= b <= |s|
    ensures (s + u)[a..b] == s[a..b]
  {
  }

  /** Appending to a string that is not all whitespace leaves its leading whitespace alone. */
  lemma LeadingSpacesOfExtension(s: string, u: string)
    requires !AllSpace(s)
    ensures LeadingSpaces(s + u) == LeadingSpaces(s)
  {
    var n := LeadingSpaces(s);
    LeadingSpacesAreSpaces(s);
    LeadingSpacesAreSpaces(s + u);
    assert (s + u)[n] == s[n];
    assert forall k :: 0 <= k < n ==> (s + u)[k] == s[k];
  }

  lemma TrailingSpacesNewline(s: string)
    ensures TrailingSpaces(s + "\n") == 1 + TrailingSpaces(s)
  {
    assert (s + "\n")[..|s|] == s;
  }

  /** Index of the first occurrence of `c` in `s`. */
  function IndexOf(s: string, c: char): (i: nat)
    requires c in s
    ensures i < |s| && s[i] == c && c !in s[..i]
  {
    if s[0] == c then 0 else 1 + IndexOf(s[1..], c)
  }

  /** `s.rfind(c)`: index of the last occurrence of `c` in `s`, or -1. */
  function RFind(s: string, c: char): (i: int)
    ensures -1 <= i < |s|
    ensures i == -1 <==> c !in s
    ensures 0 <= i ==> s[i] == c && c !in s[i + 1..]
  {
    if |s| == 0 then -1
    else if s[|s| - 1] == c then |s| - 1
    else
      var i := RFind(s[..|s| - 1], c);
      assert i >= 0 ==> s[i + 1..] == s[..|s| - 1][i + 1..] + [s[|s| - 1]];
      i
  }

  /** `s.split(sep, 1)`: the whole string, or the parts before and after the first `sep`. */
  function SplitOnce(s: string, sep: char): (parts: seq<string>)
    ensures sep !in s ==> parts == [s]
    ensures sep in s ==> |parts| == 2 && sep !in parts[0] && parts[0] + [sep] + parts[1] == s
  {
    if sep in s then
      var i := IndexOf(s, sep);
      assert s[..i] + [sep] + s[i + 1..] == s;
      [s[..i], s[i + 1..]]
    else [s]
  }

  const Sep: char := '/'
  const ExtSep: char := '.'

  predicate HasNonDot(s: string) {
    exists k :: 0 <= k < |s| && s[k] != ExtSep
  }

  /** Where `os.path.splitext(p)` cuts `p`: at the last dot of the final component when
      something other than dots precedes it in that component, otherwise at the end. */
  function ExtStart(p: Path): (k: nat)
    ensures k <= |p|
    ensures k < |p| ==> p[k] == ExtSep && Sep !in p[k..] && ExtSep !in p[k + 1..]
  {
    var sepIndex := RFind(p, Sep);
    var dotIndex := RFind(p, ExtSep);
    if dotIndex > sepIndex && HasNonDot(p[sepIndex + 1..dotIndex]) then
      ExtensionShape(p, sepIndex, dotIndex);
      dotIndex
    else
      |p|
  }

  /** No occurrence of `c` lies after the one `RFind` reports. */
  lemma {:induction false} RFindIsLast(s: string, c: char, j: nat)
    requires j < |s| && s[j] == c
    ensures j <= RFind(s, c)
  {
    if s[|s| - 1] != c {
      RFindIsLast(s[..|s| - 1], c, j);
    }
  }

  /** The last occurrence is the one with no occurrence after it. */
  lemma {:induction false} RFindAt(s: string, c: char, i: nat)
    requires i < |s| && s[i] == c && c !in s[i + 1..]
    ensures RFind(s, c) == i
  {
    if i < |s| - 1 {
      assert s[|s| - 1] == s[i + 1..][|s| - i - 2];
      var front := s[..|s| - 1];
      assert front[i + 1..] == s[i + 1..][..|s| - i - 2];
      RFindAt(front, c, i);
    }
  }

  /** A slice that contains a character other than a dot keeps it when extended. */
  lemma HasNonDotExtended(s: string, a: nat, b: nat, c: nat)
    requires a <= b <= c <= |s| && HasNonDot(s[a..b])
    ensures HasNonDot(s[a..c])
  {
    var k :| 0 <= k < b - a && s[a..b][k] != ExtSep;
    assert s[a..c][k] == s[a..b][k];
  }

  /** When the final component has a dot after some character other than a dot, the cut is
      at its last dot: this is the extension `os.path.splitext` removes. */
  lemma ExtStartAtLastDot(p: Path, j: nat)
    requires RFind(p, Sep) < j < |p| && p[j] == ExtSep && HasNonDot(p[RFind(p, Sep) + 1..j])
    ensures ExtStart(p) == RFind(p, ExtSep) && j <= ExtStart(p) < |p|
  {
    RFindIsLast(p, ExtSep, j);
    HasNonDotExtended(p, RFind(p, Sep) + 1, j, RFind(p, ExtSep));
  }

  /** `os.path.splitext(p)`: (root, ext) with `root + ext == p`; `ext` is empty or
      a dot followed by neither a dot nor a separator. */
  function SplitExt(p: Path): (r: (Path, string))
    ensures r.0 + r.1 == p
    ensures r.1 == [] || (r.1[0] == ExtSep && Sep !in r.1 && ExtSep !in r.1[1..])
  {
    var k := ExtStart(p);
    assert k < |p| ==> p[k..][1..] == p[k + 1..];
    (p[..k], p[k..])
  }

  /** Leading dots of the final component never start an extension: a cut point is
      preceded, within that component, by something other than a dot. */
  lemma ExtStartSkipsLeadingDots(p: Path)
    ensures ExtStart(p) < |p| ==> RFind(p, Sep) < ExtStart(p) && HasNonDot(p[RFind(p, Sep) + 1..ExtStart(p)])
  {
  }

  /** `os.path.splitext("d/.wav") == ("d/.wav", "")`: a dot-file has no extension. */
  lemma SplitExtDotFileExample(p: Path)
    requires p == "d/.wav"
    ensures SplitExt(p) == (p, "")
  {
    RFindAt(p, Sep, 1);
    assert p[2..] == ".wav" && p[3..] == "wav";
    RFindAt(p, ExtSep, 2);
    assert !HasNonDot(p[2..2]);
    assert ExtStart(p) == |p|;
    assert p[..|p|] == p && p[|p|..] == "";
  }

  /** `os.path.splitext("d/a.wav") == ("d/a", ".wav")`. */
  lemma SplitExtExample(p: Path)
    requires p == "d/a.wav"
    ensures SplitExt(p) == ("d/a", ".wav")
  {
    assert p[2..] == "a.wav" && p[4..] == "wav";
    RFindAt(p, Sep, 1);
    RFindAt(p, ExtSep, 3);
    assert p[2..3][0] == 'a';
    ExtStartAtLastDot(p, 3);
    assert p[..3] == "d/a" && p[3..] == ".wav";
  }

  /** The text from the last dot on, when that dot follows the last separator, is an extension. */
  lemma ExtensionShape(p: Path, sepIndex: int, dotIndex: int)
    requires sepIndex == RFind(p, Sep) && dotIndex == RFind(p, ExtSep) && dotIndex > sepIndex
    ensures p[dotIndex] == ExtSep && Sep !in p[dotIndex..] && ExtSep !in p[dotIndex + 1..]
  {
    assert p[dotIndex..] == p[sepIndex + 1..][dotIndex - sepIndex - 1..];
  }
}
