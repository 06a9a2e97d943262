/**
  Character-level helpers the importer relies on: ASCII case folding (the
  engine's string comparison and substring search ignore case), the file-name
  splitting of the engine's path helpers, and `%d` formatting of a surface index.
 */
module Text {
  import opened Bytes

  /** One ANSI character as the engine widens it: 7-bit ASCII is kept, any other byte becomes `?`. */
  function AnsiChar(x: byte): char {
    if x < 0x80 then (x as int) as char else '?'
  }

  /**
    The engine's `FString(len, ANSICHAR*)`: a string whose first byte is zero
    converts to the empty string; otherwise every byte is widened, zero bytes
    included.
   */
  function AnsiString(bs: seq<byte>): (s: string)
    ensures s == [] <==> |bs| == 0 || bs[0] == 0
    ensures s != [] ==> |s| == |bs|
    ensures forall i :: 0 <= i < |s| ==> s[i] as int < 0x80
  {
    if |bs| == 0 || bs[0] == 0 then [] else seq(|bs|, i requires 0 <= i < |bs| => AnsiChar(bs[i]))
  }

  /** Bytes that are 7-bit ASCII, not starting with zero, convert code for code. */
  lemma AnsiStringAscii(bs: seq<byte>)
    requires |bs| > 0 && bs[0] != 0
    requires forall i :: 0 <= i < |bs| ==> bs[i] < 0x80
    ensures |AnsiString(bs)| == |bs|
    ensures forall i :: 0 <= i < |bs| ==> AnsiString(bs)[i] as int == bs[i] as int
  {
  }

  function LowerChar(c: char): char {
    if 'A' <= c <= 'Z' then (c as int - 'A' as int + 'a' as int) as char else c
  }

  function Lower(s: string): (r: string)
    ensures |r| == |s|
  {
    seq(|s|, i requires 0 <= i < |s| => LowerChar(s[i]))
  }

  predicate EqualsIgnoreCase(a: string, b: string) {
    Lower(a) == Lower(b)
  }

  /** The text a C-string comparison sees: everything before the first zero character. */
  function BeforeNul(s: string): (r: string)
    ensures |r| <= |s|
    decreases |s|
  {
    if |s| == 0 || s[0] == 0 as char then [] else [s[0]] + BeforeNul(s[1..])
  }

  /** The compared text is a prefix without zero characters that either is the whole string or stops at a zero character. */
  lemma {:induction false} BeforeNulSpec(s: string)
    ensures var r := BeforeNul(s);
      && r == s[..|r|]
      && (forall k :: 0 <= k < |r| ==> r[k] != 0 as char)
      && (|r| == |s| || s[|r|] == 0 as char)
    decreases |s|
  {
    if |s| > 0 && s[0] != 0 as char {
      BeforeNulSpec(s[1..]);
    }
  }

  /** The prefix described by `BeforeNulSpec` is the only one: text up to a first zero character compares as just that text. */
  lemma {:induction false} BeforeNulAt(s: string, n: nat)
    requires n <= |s| && (n == |s| || s[n] == 0 as char)
    requires forall k :: 0 <= k < n ==> s[k] != 0 as char
    ensures BeforeNul(s) == s[..n]
    decreases n
  {
    if n > 0 {
      BeforeNulAt(s[1..], n - 1);
      assert s[..n] == [s[0]] + s[1..][..n - 1];
    }
  }

  /** `needle` occurs in `hay` at offset `i`, ignoring ASCII case. */
  predicate MatchesAt(hay: string, i: int, needle: string) {
    0 <= i && i + |needle| <= |hay| && Lower(hay[i..i + |needle|]) == Lower(needle)
  }

  /** `needle` occurs in `hay` at some offset `i` or later, ignoring ASCII case. */
  predicate ContainsFrom(hay: string, needle: string, i: nat)
    decreases |hay| - i
  {
    i + |needle| <= |hay| && (MatchesAt(hay, i, needle) || ContainsFrom(hay, needle, i + 1))
  }

  /** Substring search ignoring ASCII case; the empty needle occurs everywhere. */
  predicate ContainsIgnoreCase(hay: string, needle: string) {
    ContainsFrom(hay, needle, 0)
  }

  lemma {:induction false} ContainsFromSpec(hay: string, needle: string, i: nat)
    ensures ContainsFrom(hay, needle, i) <==> exists j :: i <= j && MatchesAt(hay, j, needle)
    decreases |hay| - i
  {
    if i + |needle| <= |hay| {
      ContainsFromSpec(hay, needle, i + 1);
      if j :| i <= j && MatchesAt(hay, j, needle) {
        assert j == i || (i + 1 <= j && MatchesAt(hay, j, needle));
      }
    }
  }

  /** The search finds `needle` exactly when it occurs at some offset. */
  lemma ContainsIgnoreCaseSpec(hay: string, needle: string)
    ensures ContainsIgnoreCase(hay, needle) <==> exists j :: MatchesAt(hay, j, needle)
  {
    ContainsFromSpec(hay, needle, 0);
  }

  /** Position of the last character satisfying `p`, or -1 when there is none. */
  function LastIndex(s: string, p: char -> bool): (k: int)
    ensures -1 <= k < |s|
  {
    if |s| == 0 then -1
    else if p(s[|s| - 1]) then |s| - 1
    else LastIndex(s[..|s| - 1], p)
  }

  /** The position found satisfies `p` and nothing after it does. */
  lemma {:induction false} LastIndexSpec(s: string, p: char -> bool)
    ensures var k := LastIndex(s, p);
      && (0 <= k ==> p(s[k]))
      && (forall j :: k < j < |s| ==> !p(s[j]))
  {
    if |s| > 0 && !p(s[|s| - 1]) {
      LastIndexSpec(s[..|s| - 1], p);
      assert forall j :: 0 <= j < |s| - 1 ==> s[..|s| - 1][j] == s[j];
    }
  }

  /** A position satisfying `p` with nothing after it satisfying `p` is the one found. */
  lemma LastIndexAt(s: string, p: char -> bool, i: int)
    requires 0 <= i < |s| && p(s[i]) && forall j :: i < j < |s| ==> !p(s[j])
    ensures LastIndex(s, p) == i
  {
    LastIndexSpec(s, p);
  }

  predicate IsSeparator(c: char) {
    c == '/' || c == '\\'
  }

  predicate IsDot(c: char) {
    c == '.'
  }

  /** The file name without its directories. */
  function CleanFilename(path: string): (r: string)
    ensures |r| <= |path|
  {
    path[LastIndex(path, IsSeparator) + 1..]
  }

  /** The clean file name is the longest suffix of the path without a separator. */
  lemma CleanFilenameSpec(path: string)
    ensures var r := CleanFilename(path);
      && r == path[|path| - |r|..]
      && (forall j :: 0 <= j < |r| ==> !IsSeparator(r[j]))
      && (|r| < |path| ==> IsSeparator(path[|path| - |r| - 1]))
  {
    LastIndexSpec(path, IsSeparator);
  }

  /** The file name without directories and without the text from its last dot on. */
  function BaseFilename(path: string): (r: string)
    ensures |r| <= |CleanFilename(path)|
  {
    var clean := CleanFilename(path);
    var dot := LastIndex(clean, IsDot);
    if dot < 0 then clean else clean[..dot]
  }

  /** The base name is the clean name cut at its last dot, or all of it when it has none. */
  lemma BaseFilenameSpec(path: string)
    ensures var clean, r := CleanFilename(path), BaseFilename(path);
      && r == clean[..|r|]
      && (|r| == |clean| || (IsDot(clean[|r|]) && forall j :: |r| < j < |clean| ==> !IsDot(clean[j])))
      && (|r| == |clean| ==> forall j :: 0 <= j < |clean| ==> !IsDot(clean[j]))
  {
    LastIndexSpec(CleanFilename(path), IsDot);
  }

  /** The text after the last dot of the file name, or "" when it has no dot. */
  function Extension(path: string): (r: string)
    ensures |r| < |CleanFilename(path)| || r == ""
  {
    var clean := CleanFilename(path);
    var dot := LastIndex(clean, IsDot);
    if dot < 0 then "" else clean[dot + 1..]
  }

  /** The extension is the dot-free suffix after the last dot of the clean name. */
  lemma ExtensionSpec(path: string)
    ensures var clean, r := CleanFilename(path), Extension(path);
      && r == clean[|clean| - |r|..]
      && (forall j :: 0 <= j < |r| ==> !IsDot(r[j]))
      && (r != "" ==> IsDot(clean[|clean| - |r| - 1]))
      && (r == "" ==> (forall j :: 0 <= j < |clean| ==> !IsDot(clean[j])) || IsDot(clean[|clean| - 1]))
  {
    LastIndexSpec(CleanFilename(path), IsDot);
  }

  predicate IsDigits(s: string) {
    forall i :: 0 <= i < |s| ==> '0' <= s[i] <= '9'
  }

  function DigitChar(d: nat): char
    requires d < 10
  {
    ('0' as int + d) as char
  }

  /** The value of a string of decimal digits. */
  function ParseDecimal(s: string): nat
    requires IsDigits(s)
  {
    if |s| == 0 then 0 else 10 * ParseDecimal(s[..|s| - 1]) + (s[|s| - 1] as int - '0' as int)
  }

  /** `%d` formatting of a non-negative integer. */
  function Decimal(n: nat): (s: string)
    ensures 1 <= |s|
  {
    if n < 10 then [DigitChar(n)] else Decimal(n / 10) + [DigitChar(n % 10)]
  }

  /** The formatted number is digits only, has no leading zero, and parses back to the number. */
  lemma {:induction false} DecimalSpec(n: nat)
    ensures var s := Decimal(n);
      && IsDigits(s)
      && (s[0] == '0' ==> n == 0)
      && ParseDecimal(s) == n
  {
    if n >= 10 {
      DecimalSpec(n / 10);
      var s := Decimal(n);
      assert s[..|s| - 1] == Decimal(n / 10);
    }
  }

  /** Different numbers format differently. */
  lemma DecimalInjective(m: nat, n: nat)
    ensures Decimal(m) == Decimal(n) <==> m == n
  {
    DecimalSpec(m);
    DecimalSpec(n);
  }
}
