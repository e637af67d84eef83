/**
  The handful of Ruby core string operations the application relies on:
  `to_s` on a possibly-nil value, `downcase`, `strip`, `blank?`, `count`,
  `String#index` and `File.extname`.  Strings are sequences of Unicode scalar
  values, which is what a UTF-8 Ruby string indexes by.
 */
module RubyStrings {

  import opened Optional

  /** `x.to_s` for a value that is a string or nil: nil becomes "". */
  function ToS(s: Option<string>): string {
    s.GetOr("")
  }

  // ---------------------------------------------------------------------------
  // Character classes

  /** `\s` in a Ruby regular expression: space, \t, \n, \v, \f and \r. */
  predicate IsRegexSpace(c: char) {
    c == ' ' || c == '\t' || c == '\n' || c == '\U{000B}' || c == '\U{000C}' || c == '\r'
  }

  /** What `String#strip` removes at either end: NUL and the `\s` characters. */
  predicate IsStripSpace(c: char) {
    c == '\0' || IsRegexSpace(c)
  }

  predicate AllStripSpace(s: string) {
    forall i :: 0 <= i < |s| ==> IsStripSpace(s[i])
  }

  predicate IsAsciiUpper(c: char) {
    'A' <= c <= 'Z'
  }

  predicate HasNoUpper(s: string) {
    forall i :: 0 <= i < |s| ==> !IsAsciiUpper(s[i])
  }

  // ---------------------------------------------------------------------------
  // downcase

  function LowerChar(c: char): char {
    if IsAsciiUpper(c) then (c as int + 32) as char else c
  }

  /** `String#downcase`, restricted to the ASCII letters. */
  function Downcase(s: string): string {
    seq(|s|, i requires 0 <= i < |s| => LowerChar(s[i]))
  }

  lemma DowncaseHasNoUpper(s: string)
    ensures HasNoUpper(Downcase(s))
  {
  }

  /** A string without upper-case letters is its own `downcase`. */
  lemma DowncaseOfLower(s: string)
    requires HasNoUpper(s)
    ensures Downcase(s) == s
  {
  }

  lemma DowncaseAppend(a: string, b: string)
    ensures Downcase(a + b) == Downcase(a) + Downcase(b)
  {
    assert forall i :: 0 <= i < |a + b| ==> Downcase(a + b)[i] == (Downcase(a) + Downcase(b))[i];
  }

  // ---------------------------------------------------------------------------
  // strip

  /** `String#lstrip`. */
  function TrimStart(s: string): (r: string)
    ensures |r| <= |s|
  {
    if s != [] && IsStripSpace(s[0]) then TrimStart(s[1..]) else s
  }

  /** `String#rstrip`. */
  function TrimEnd(s: string): (r: string)
    ensures |r| <= |s|
  {
    if s != [] && IsStripSpace(s[|s| - 1]) then TrimEnd(s[..|s| - 1]) else s
  }

  /** `lstrip` drops exactly the longest prefix of whitespace: what it drops is whitespace, what it keeps does not start with any. */
  lemma {:induction false} TrimStartDropsSpacePrefix(s: string)
    ensures TrimStart(s) == s[|s| - |TrimStart(s)|..]
    ensures AllStripSpace(s[..|s| - |TrimStart(s)|])
    ensures TrimStart(s) == [] || !IsStripSpace(TrimStart(s)[0])
  {
    if s != [] && IsStripSpace(s[0]) {
      TrimStartDropsSpacePrefix(s[1..]);
      assert s[..|s| - |TrimStart(s)|] == [s[0]] + s[1..][..|s| - 1 - |TrimStart(s)|];
    }
  }

  /** `rstrip` drops exactly the longest suffix of whitespace. */
  lemma {:induction false} TrimEndDropsSpaceSuffix(s: string)
    ensures TrimEnd(s) == s[..|TrimEnd(s)|]
    ensures AllStripSpace(s[|TrimEnd(s)|..])
    ensures TrimEnd(s) == [] || !IsStripSpace(TrimEnd(s)[|TrimEnd(s)| - 1])
  {
    if s != [] && IsStripSpace(s[|s| - 1]) {
      var init := s[..|s| - 1];
      TrimEndDropsSpaceSuffix(init);
      assert s[|TrimEnd(s)|..] == init[|TrimEnd(s)|..] + [s[|s| - 1]];
    }
  }

  /** `String#strip`: the result has no whitespace at either end. */
  function Strip(s: string): (r: string)
    ensures |r| <= |s|
    ensures r == [] || (!IsStripSpace(r[0]) && !IsStripSpace(r[|r| - 1]))
  {
    TrimEndDropsSpaceSuffix(s);
    TrimStartDropsSpacePrefix(TrimEnd(s));
    TrimStart(TrimEnd(s))
  }

  /** Stripping only removes characters, so it keeps a string free of upper case. */
  lemma StripKeepsNoUpper(s: string)
    requires HasNoUpper(s)
    ensures HasNoUpper(Strip(s))
  {
    var e := TrimEnd(s);
    var r := TrimStart(e);
    TrimEndDropsSpaceSuffix(s);
    TrimStartDropsSpacePrefix(e);
    assert r == s[|e| - |r|..|e|];
  }

  /** A string with no whitespace at either end is its own `strip`. */
  lemma StripOfStripped(s: string)
    requires s == [] || (!IsStripSpace(s[0]) && !IsStripSpace(s[|s| - 1]))
    ensures Strip(s) == s
  {
  }

  lemma {:induction false} TrimStartSkipsPadding(p: string, w: string)
    requires AllStripSpace(p)
    ensures TrimStart(p + w) == TrimStart(w)
  {
    if p != [] {
      assert (p + w)[0] == p[0];
      assert (p + w)[1..] == p[1..] + w;
      TrimStartSkipsPadding(p[1..], w);
    } else {
      assert p + w == w;
    }
  }

  lemma {:induction false} TrimEndSkipsPadding(w: string, q: string)
    requires AllStripSpace(q)
    ensures TrimEnd(w + q) == TrimEnd(w)
  {
    if q != [] {
      assert (w + q)[|w + q| - 1] == q[|q| - 1];
      assert (w + q)[..|w + q| - 1] == w + q[..|q| - 1];
      TrimEndSkipsPadding(w, q[..|q| - 1]);
    } else {
      assert w + q == w;
    }
  }

  lemma {:induction false} StripSkipsLeadingPadding(p: string, z: string)
    requires AllStripSpace(p)
    ensures TrimStart(TrimEnd(p + z)) == TrimStart(TrimEnd(z))
    decreases |z|
  {
    if z == [] {
      assert p + z == [] + p;
      TrimEndSkipsPadding([], p);
      assert TrimEnd(p + z) == TrimEnd([]) == [];
    } else if IsStripSpace(z[|z| - 1]) {
      assert (p + z)[..|p + z| - 1] == p + z[..|z| - 1];
      StripSkipsLeadingPadding(p, z[..|z| - 1]);
    } else {
      TrimStartSkipsPadding(p, z);
    }
  }

  /** Whitespace added at either end does not change the result of `strip`. */
  lemma StripIgnoresPadding(p: string, z: string, q: string)
    requires AllStripSpace(p) && AllStripSpace(q)
    ensures Strip(p + z + q) == Strip(z)
  {
    assert p + z + q == (p + z) + q;
    TrimEndSkipsPadding(p + z, q);
    StripSkipsLeadingPadding(p, z);
  }

  /**
    `[[:space:]]` on a Unicode string: the characters with the White_Space
    property, the ASCII ones of `\s` and also U+0085, the no-break spaces,
    the typographic spaces, the line and paragraph separators and U+3000.
   */
  predicate IsUnicodeSpace(c: char) {
    || ('\t' <= c <= '\r') || c == ' '
    || c == '\U{0085}' || c == '\U{00A0}' || c == '\U{1680}'
    || ('\U{2000}' <= c <= '\U{200A}') || c == '\U{2028}' || c == '\U{2029}'
    || c == '\U{202F}' || c == '\U{205F}' || c == '\U{3000}'
  }

  /** `String#blank?` (ActiveSupport, `/\A[[:space:]]*\z/`): empty or whitespace only. */
  predicate IsBlank(s: string) {
    forall i :: 0 <= i < |s| ==> IsUnicodeSpace(s[i])
  }

  // ---------------------------------------------------------------------------
  // count

  /** `s.count(c)` for a single character. */
  function Count(s: string, c: char): (n: nat)
    ensures n <= |s|
    ensures n == 0 <==> c !in s
  {
    if s == [] then 0 else (if s[0] == c then 1 else 0) + Count(s[1..], c)
  }

  lemma {:induction false} CountAppend(a: string, b: string, c: char)
    ensures Count(a + b, c) == Count(a, c) + Count(b, c)
  {
    if a != [] {
      assert (a + b)[1..] == a[1..] + b;
      CountAppend(a[1..], b, c);
    } else {
      assert a + b == b;
    }
  }

  // ---------------------------------------------------------------------------
  // String#index

  /** The pattern occurs in the text starting at position i. */
  predicate OccursAt(text: string, pat: string, i: int) {
    0 <= i && i + |pat| <= |text| && text[i..i + |pat|] == pat
  }

  predicate Contains(text: string, pat: string) {
    exists i | 0 <= i <= |text| :: OccursAt(text, pat, i)
  }

  /** i is the leftmost position where the pattern occurs. */
  predicate IsLeftmost(text: string, pat: string, i: int) {
    OccursAt(text, pat, i) && forall j :: 0 <= j < i ==> !OccursAt(text, pat, j)
  }

  /** `text.index(pat, from)`: the first occurrence at or after `from`. */
  function IndexFrom(text: string, pat: string, from: nat): (r: Option<nat>)
    ensures r.Some? ==> from <= r.value && OccursAt(text, pat, r.value)
    ensures r.Some? ==> forall j :: from <= j < r.value ==> !OccursAt(text, pat, j)
    ensures r.None? ==> forall j :: from <= j ==> !OccursAt(text, pat, j)
    decreases |text| - from
  {
    if from + |pat| > |text| then None
    else if text[from..from + |pat|] == pat then Some(from)
    else IndexFrom(text, pat, from + 1)
  }

  /** `text.index(pat)`: nil when the pattern does not occur, else the leftmost position. */
  function Index(text: string, pat: string): (r: Option<nat>)
    ensures r.Some? <==> Contains(text, pat)
    ensures r.Some? ==> IsLeftmost(text, pat, r.value)
  {
    IndexFrom(text, pat, 0)
  }

  /** Two leftmost occurrences are the same occurrence. */
  lemma LeftmostIsUnique(text: string, pat: string, i: int, j: int)
    requires IsLeftmost(text, pat, i) && IsLeftmost(text, pat, j)
    ensures i == j
  {
  }

  // ---------------------------------------------------------------------------
  // File.extname

  /** The last position of c in s, if any. */
  function LastIndexOf(s: string, c: char): (r: Option<nat>)
    ensures r.Some? ==> r.value < |s| && s[r.value] == c
    ensures r.Some? ==> forall j :: r.value < j < |s| ==> s[j] != c
    ensures r.None? <==> c !in s
  {
    if s == [] then None
    else if s[|s| - 1] == c then Some(|s| - 1)
    else LastIndexOf(s[..|s| - 1], c)
  }

  /** The last component of a path. */
  function Basename(path: string): (r: string)
    ensures '/' !in path ==> r == path
  {
    match LastIndexOf(path, '/')
    case None => path
    case Some(i) => path[i + 1..]
  }

  function DropLeadingDots(s: string): (r: string)
    ensures |r| <= |s|
  {
    if s != [] && s[0] == '.' then DropLeadingDots(s[1..]) else s
  }

  /**
    `File.extname`: in the last path component, after skipping its leading
    dots, the part from the last dot on; "" when there is no such dot.
   */
  function ExtName(path: string): string {
    var core := DropLeadingDots(Basename(path));
    match LastIndexOf(core, '.')
    case None => ""
    case Some(i) => core[i..]
  }

  /**
    A name made of a stem that starts with neither a dot nor holds a slash, and
    an extension that is a dot followed by dot-free characters, has exactly that
    extension.
   */
  lemma ExtNameOfStemAndExtension(stem: string, ext: string)
    requires stem != [] && stem[0] != '.' && '/' !in stem
    requires ext != [] && ext[0] == '.' && '.' !in ext[1..] && '/' !in ext
    ensures ExtName(stem + ext) == ext
  {
    var name := stem + ext;
    assert '/' !in name by {
      forall i | 0 <= i < |name| ensures name[i] != '/' {
        if i < |stem| { assert name[i] == stem[i]; } else { assert name[i] == ext[i - |stem|]; }
      }
    }
    assert Basename(name) == name;
    assert DropLeadingDots(name) == name;
    var r := LastIndexOf(name, '.');
    assert name[|stem|] == '.';
    assert r.Some?;
    assert r.value == |stem|;
    assert name[|stem|..] == ext;
  }
}
