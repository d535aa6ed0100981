/**
 * The JavaScript string operations the three tools rely on, on `seq<char>`:
 * `split('\n')`, `trim()`, `toLowerCase()` (ASCII letters only), `replace` with a
 * string pattern (first occurrence, case-sensitive) and `replace(/\.pdf$/i, '')`
 * (a trailing extension, ASCII case-insensitive).
 */
module Text {
  import opened Wrappers

  // ---------------------------------------------------------------------------
  // split(sep)

  /** `s.split(sep)` for a one-character separator: the empty string gives `[""]`. */
  function Split(s: string, sep: char): (parts: seq<string>)
    ensures |parts| >= 1
    decreases |s|
  {
    if s == [] then [[]]
    else if s[0] == sep then [[]] + Split(s[1..], sep)
    else
      var rest := Split(s[1..], sep);
      [[s[0]] + rest[0]] + rest[1..]
  }

  /** No piece of a split holds the separator. */
  lemma {:induction false} SplitPartsLackSeparator(s: string, sep: char)
    ensures forall k :: 0 <= k < |Split(s, sep)| ==> sep !in Split(s, sep)[k]
    decreases |s|
  {
    if s != [] {
      SplitPartsLackSeparator(s[1..], sep);
      if s[0] != sep {
        var rest := Split(s[1..], sep);
        assert sep !in rest[0];
        assert sep !in [s[0]] + rest[0];
      }
    }
  }

  /** `parts.join(sep)`. */
  function Join(parts: seq<string>, sep: char): string
  {
    if parts == [] then []
    else if |parts| == 1 then parts[0]
    else parts[0] + [sep] + Join(parts[1..], sep)
  }

  lemma {:induction false} SplitNoSeparator(s: string, sep: char)
    requires sep !in s
    ensures Split(s, sep) == [s]
    decreases |s|
  {
    if s != [] {
      SplitNoSeparator(s[1..], sep);
      assert [s[0]] + s[1..] == s;
    }
  }

  lemma AppendAssoc<T>(x: seq<T>, y: seq<T>, z: seq<T>)
    ensures (x + y) + z == x + (y + z)
  {
  }

  /** A leading separator ends an empty first piece. */
  lemma SplitConsSeparator(rest: string, sep: char)
    ensures Split([sep] + rest, sep) == [[]] + Split(rest, sep)
  {
    assert ([sep] + rest)[1..] == rest;
  }

  /** Any other leading character starts the first piece. */
  lemma SplitConsOther(c: char, rest: string, sep: char)
    requires c != sep
    ensures Split([c] + rest, sep) == [[c] + Split(rest, sep)[0]] + Split(rest, sep)[1..]
  {
    assert ([c] + rest)[0] == c;
    assert ([c] + rest)[1..] == rest;
  }

  /** The inductive step of `SplitConcat` for a leading separator. */
  lemma SplitConcatStepSeparator(tail: string, b: string, sep: char)
    requires Split(tail + [sep] + b, sep) == Split(tail, sep) + Split(b, sep)
    ensures Split([sep] + tail + [sep] + b, sep) == Split([sep] + tail, sep) + Split(b, sep)
  {
    AppendAssoc([sep], tail, [sep]);
    AppendAssoc([sep], tail + [sep], b);
    SplitConsSeparator(tail + [sep] + b, sep);
    SplitConsSeparator(tail, sep);
    AppendAssoc([[]], Split(tail, sep), Split(b, sep));
  }

  /** The inductive step of `SplitConcat` for any other leading character. */
  lemma SplitConcatStepOther(c: char, tail: string, b: string, sep: char)
    requires c != sep
    requires Split(tail + [sep] + b, sep) == Split(tail, sep) + Split(b, sep)
    ensures Split([c] + tail + [sep] + b, sep) == Split([c] + tail, sep) + Split(b, sep)
  {
    AppendAssoc([c], tail, [sep]);
    AppendAssoc([c], tail + [sep], b);
    var ra, rb := Split(tail, sep), Split(b, sep);
    SplitConsOther(c, tail + [sep] + b, sep);
    SplitConsOther(c, tail, sep);
    assert (ra + rb)[0] == ra[0];
    assert (ra + rb)[1..] == ra[1..] + rb;
    AppendAssoc([[c] + ra[0]], ra[1..], rb);
  }

  /** Splitting text made of two pieces joined by the separator splits each piece. */
  lemma {:induction false} SplitConcat(a: string, b: string, sep: char)
    ensures Split(a + [sep] + b, sep) == Split(a, sep) + Split(b, sep)
    decreases |a|
  {
    if a == [] {
      assert a + [sep] + b == [sep] + b;
      SplitConsSeparator(b, sep);
    } else {
      assert a == [a[0]] + a[1..];
      SplitConcat(a[1..], b, sep);
      if a[0] == sep {
        SplitConcatStepSeparator(a[1..], b, sep);
      } else {
        SplitConcatStepOther(a[0], a[1..], b, sep);
      }
    }
  }

  /** Joining the pieces of a split gives the text back. */
  lemma {:induction false} JoinSplit(s: string, sep: char)
    ensures Join(Split(s, sep), sep) == s
    decreases |s|
  {
    if s != [] {
      JoinSplit(s[1..], sep);
      var rest := Split(s[1..], sep);
      if s[0] == sep {
        assert [sep] + s[1..] == s;
      } else if |rest| == 1 {
        assert [s[0]] + s[1..] == s;
      } else {
        assert ([[s[0]] + rest[0]] + rest[1..])[1..] == rest[1..];
        assert [s[0]] + (rest[0] + [sep] + Join(rest[1..], sep)) == s;
      }
    }
  }

  /** Splitting joined pieces gives the pieces back when none holds the separator. */
  lemma {:induction false} SplitJoin(parts: seq<string>, sep: char)
    requires |parts| >= 1
    requires forall k :: 0 <= k < |parts| ==> sep !in parts[k]
    ensures Split(Join(parts, sep), sep) == parts
    decreases |parts|
  {
    if |parts| == 1 {
      SplitNoSeparator(parts[0], sep);
    } else {
      SplitJoin(parts[1..], sep);
      SplitConcat(parts[0], Join(parts[1..], sep), sep);
      SplitNoSeparator(parts[0], sep);
      assert [parts[0]] + parts[1..] == parts;
    }
  }

  // ---------------------------------------------------------------------------
  // trim()

  /** The characters ECMAScript's `trim` removes: WhiteSpace (including every Zs space) and LineTerminator. */
  predicate IsJsWhitespace(c: char)
  {
    c == '\t' || c == '\n' || c == '\U{000B}' || c == '\U{000C}' || c == '\r' || c == ' ' ||
    c == '\U{00A0}' || c == '\U{1680}' || ('\U{2000}' <= c <= '\U{200A}') ||
    c == '\U{2028}' || c == '\U{2029}' || c == '\U{202F}' || c == '\U{205F}' ||
    c == '\U{3000}' || c == '\U{FEFF}'
  }

  /** How many whitespace characters open `s`. */
  function LeadingWhitespace(s: string): (n: nat)
    ensures n <= |s|
    ensures forall k :: 0 <= k < n ==> IsJsWhitespace(s[k])
    ensures n < |s| ==> !IsJsWhitespace(s[n])
    decreases |s|
  {
    if s != [] && IsJsWhitespace(s[0]) then 1 + LeadingWhitespace(s[1..]) else 0
  }

  /** How many whitespace characters close `s`. */
  function TrailingWhitespace(s: string): (n: nat)
    ensures n <= |s|
    ensures forall k :: |s| - n <= k < |s| ==> IsJsWhitespace(s[k])
    ensures n < |s| ==> !IsJsWhitespace(s[|s| - 1 - n])
    decreases |s|
  {
    if s != [] && IsJsWhitespace(s[|s| - 1]) then 1 + TrailingWhitespace(s[..|s| - 1]) else 0
  }

  /**
   * `s.trim()`: the slice of `s` left once its leading and trailing whitespace
   * are removed; it neither starts nor ends with whitespace.
   */
  function Trim(s: string): (r: string)
    ensures r == [] || (!IsJsWhitespace(r[0]) && !IsJsWhitespace(r[|r| - 1]))
    ensures LeadingWhitespace(s) + |r| <= |s|
    ensures r == s[LeadingWhitespace(s)..LeadingWhitespace(s) + |r|]
    ensures forall k :: LeadingWhitespace(s) + |r| <= k < |s| ==> IsJsWhitespace(s[k])
  {
    var i := LeadingWhitespace(s);
    if i == |s| then []
    else
      var j := |s| - TrailingWhitespace(s);
      assert i < j;
      s[i..j]
  }

  /** A string without whitespace at either end is its own trim. */
  lemma TrimOfTrimmed(s: string)
    requires s == [] || (!IsJsWhitespace(s[0]) && !IsJsWhitespace(s[|s| - 1]))
    ensures Trim(s) == s
  {
    if s != [] {
      assert LeadingWhitespace(s) == 0;
      assert TrailingWhitespace(s) == 0;
    }
  }

  lemma TrimIdempotent(s: string)
    ensures Trim(Trim(s)) == Trim(s)
  {
    TrimOfTrimmed(Trim(s));
  }

  // ---------------------------------------------------------------------------
  // toLowerCase()

  /** ASCII lower-casing of one character. */
  function LowerChar(c: char): char
  {
    if 'A' <= c <= 'Z' then (c as int + 32) as char else c
  }

  /** `s.toLowerCase()` on ASCII letters. */
  function ToLower(s: string): (r: string)
    ensures |r| == |s|
    ensures forall k :: 0 <= k < |s| ==> r[k] == LowerChar(s[k])
  {
    seq(|s|, k requires 0 <= k < |s| => LowerChar(s[k]))
  }

  // ---------------------------------------------------------------------------
  // replace(/\.pdf$/i, '')

  /** The string ends with `.pdf` in any mix of letter case. */
  predicate EndsWithPdfIgnoringCase(s: string)
  {
    |s| >= 4 && ToLower(s[|s| - 4..]) == ".pdf"
  }

  /** `s.replace(/\.pdf$/i, '')`: one trailing `.pdf`, of any case, is removed; nothing else changes. */
  function StripPdfExtension(s: string): (r: string)
    ensures r <= s
    ensures EndsWithPdfIgnoringCase(s) ==> |r| == |s| - 4
    ensures !EndsWithPdfIgnoringCase(s) ==> r == s
  {
    if EndsWithPdfIgnoringCase(s) then s[..|s| - 4] else s
  }

  /** A base name followed by an extension that lower-cases to `.pdf` strips back to the base. */
  lemma StripPdfExtensionOf(base: string, ext: string)
    requires |ext| == 4 && ToLower(ext) == ".pdf"
    ensures StripPdfExtension(base + ext) == base
  {
    assert (base + ext)[|base + ext| - 4..] == ext;
    assert (base + ext)[..|base|] == base;
  }

  /** A name without a dot has no extension to strip. */
  lemma StripPdfExtensionNoDot(s: string)
    requires '.' !in s
    ensures StripPdfExtension(s) == s
  {
    if |s| >= 4 {
      var ext := s[|s| - 4..];
      assert ext[0] == s[|s| - 4];
      assert ToLower(ext)[0] != ".pdf"[0];
    }
  }

  /** A string without upper-case ASCII letters is its own lower case. */
  lemma ToLowerOfLower(s: string)
    requires forall k :: 0 <= k < |s| ==> !('A' <= s[k] <= 'Z')
    ensures ToLower(s) == s
  {
  }

  /** Lower-casing twice is lower-casing once. */
  lemma ToLowerIdempotent(s: string)
    ensures ToLower(ToLower(s)) == ToLower(s)
  {
    forall k | 0 <= k < |s| ensures LowerChar(LowerChar(s[k])) == LowerChar(s[k]) { }
  }

  /** Only the last `.pdf` goes: `a.pdf.PDF` strips to `a.pdf`, and `a.pdf.txt` is left alone. */
  lemma StripPdfExtensionExamples()
    ensures StripPdfExtension("a.pdf.PDF") == "a.pdf"
    ensures StripPdfExtension("a.pdf.txt") == "a.pdf.txt"
    ensures StripPdfExtension("pdf") == "pdf"
  {
    StripPdfExtensionOf("a.pdf", ".PDF");
    assert ToLower("a.pdf.txt"[5..]) == ".txt";
  }

  // ---------------------------------------------------------------------------
  // replace(pattern, replacement) with a string pattern

  /** `pat` occurs in `s` starting at index `i`. */
  predicate OccursAt(s: string, pat: string, i: int)
  {
    0 <= i && i + |pat| <= |s| && s[i..i + |pat|] == pat
  }

  /** An occurrence at `j >= 1` is an occurrence in the tail at `j - 1`, and back. */
  lemma OccursInTail(s: string, pat: string)
    requires |s| >= 1
    ensures forall j :: 1 <= j <= |s| ==> (OccursAt(s, pat, j) <==> OccursAt(s[1..], pat, j - 1))
  {
    forall j | 1 <= j <= |s| ensures OccursAt(s, pat, j) <==> OccursAt(s[1..], pat, j - 1) {
      if j + |pat| <= |s| {
        assert s[1..][j - 1..j - 1 + |pat|] == s[j..j + |pat|];
      }
    }
  }

  /** `s.indexOf(pat)`: the first index at which `pat` occurs, if any. */
  function IndexOf(s: string, pat: string): (r: Option<nat>)
    ensures r.Some? ==> OccursAt(s, pat, r.value)
    ensures r.Some? ==> forall j :: 0 <= j < r.value ==> !OccursAt(s, pat, j)
    ensures r.None? ==> forall j :: 0 <= j <= |s| ==> !OccursAt(s, pat, j)
    decreases |s|
  {
    if |s| < |pat| then None
    else if s[..|pat|] == pat then Some(0)
    else
      OccursInTail(s, pat);
      match IndexOf(s[1..], pat)
      case None => None
      case Some(i) => Some(i + 1)
  }

  /** `s.replace(pat, rep)` for a string pattern: only the first occurrence is replaced, case-sensitively. */
  function ReplaceFirst(s: string, pat: string, rep: string): string
  {
    match IndexOf(s, pat)
    case None => s
    case Some(i) => s[..i] + rep + s[i + |pat|..]
  }

  /** Without an occurrence of the pattern, `replace` changes nothing. */
  lemma ReplaceFirstAbsent(s: string, pat: string, rep: string)
    requires forall j :: 0 <= j <= |s| ==> !OccursAt(s, pat, j)
    ensures ReplaceFirst(s, pat, rep) == s
  {
  }

  /**
   * When `s` is `a + pat + b` and `pat` does not occur earlier than right after `a`,
   * `replace` turns `s` into `a + rep + b`.
   */
  lemma {:induction false} ReplaceFirstSplit(a: string, pat: string, b: string, rep: string)
    requires forall j :: 0 <= j < |a| ==> !OccursAt(a + pat + b, pat, j)
    ensures ReplaceFirst(a + pat + b, pat, rep) == a + rep + b
  {
    var s := a + pat + b;
    assert OccursAt(s, pat, |a|) by { assert s[|a|..|a| + |pat|] == pat; }
    var r := IndexOf(s, pat);
    assert r.Some? && r.value == |a|;
    assert s[..|a|] == a;
    assert s[|a| + |pat|..] == b;
  }

  /** A name whose only `.pdf` is its last four characters: `replace('.pdf', x)` swaps that extension for `x`. */
  lemma ReplacePdfExtension(base: string, rep: string)
    requires forall j :: 0 <= j <= |base| ==> !OccursAt(base + ".pdf", ".pdf", j) || j == |base|
    ensures ReplaceFirst(base + ".pdf", ".pdf", rep) == base + rep
  {
    assert base + ".pdf" == base + ".pdf" + [];
    ReplaceFirstSplit(base, ".pdf", [], rep);
  }

  /** No `.pdf` starts inside a stretch without a dot. */
  lemma NoPdfInDotless(base: string, tail: string, j: int)
    requires '.' !in base && 0 <= j < |base|
    ensures !OccursAt(base + tail, ".pdf", j)
  {
    var s := base + tail;
    assert base[j] in base;
    assert s[j] == base[j];
    if j + 4 <= |s| {
      assert s[j..j + 4][0] == s[j];
      assert ".pdf"[0] == '.';
    }
  }

  /** The first `.pdf` is replaced even when it is not the extension: `a.pdf.pdf` becomes `a.pdf`. */
  lemma ReplaceFirstExample(base: string)
    requires '.' !in base
    ensures ReplaceFirst(base + ".pdf" + ".pdf", ".pdf", "") == base + ".pdf"
  {
    var s := base + ".pdf" + ".pdf";
    assert s == base + s[|base|..];
    forall j | 0 <= j < |base| ensures !OccursAt(s, ".pdf", j) {
      NoPdfInDotless(base, s[|base|..], j);
    }
    ReplaceFirstSplit(base, ".pdf", ".pdf", "");
    assert base + "" + ".pdf" == base + ".pdf";
  }

  /** The string pattern is case-sensitive: an upper-case `.PDF` is left in place. */
  lemma ReplaceFirstCaseSensitive()
    ensures ReplaceFirst("B.PDF", ".pdf", "") == "B.PDF"
  {
    var s := "B.PDF";
    forall j | 0 <= j <= |s| ensures !OccursAt(s, ".pdf", j) {
      if j + 4 <= |s| {
        assert s[j + 1] != ".pdf"[1];
      }
    }
    ReplaceFirstAbsent(s, ".pdf", "");
  }

  /** A name without a dot has no `.pdf` but its extension, so `replace('.pdf', x)` swaps that extension for `x`. */
  lemma ReplacePdfExtensionNoDot(base: string, rep: string)
    requires '.' !in base
    ensures ReplaceFirst(base + ".pdf", ".pdf", rep) == base + rep
  {
    var s := base + ".pdf";
    assert s == base + s[|base|..];
    forall j | 0 <= j < |base| ensures !OccursAt(s, ".pdf", j) {
      NoPdfInDotless(base, s[|base|..], j);
    }
    ReplacePdfExtension(base, rep);
  }

  // ---------------------------------------------------------------------------
  // JavaScript strings as UTF-16 code units

  /** A UTF-16 code unit: what a JavaScript string's `length` counts and what `s[i]` indexes. */
  type CodeUnit = u: int | 0 <= u < 0x1_0000

  predicate IsHighSurrogate(u: int)
  {
    0xD800 <= u < 0xDC00
  }

  predicate IsLowSurrogate(u: int)
  {
    0xDC00 <= u < 0xE000
  }

  /** The code units of one character: the character itself below U+10000, a surrogate pair above. */
  function CharUnits(c: char): (u: seq<CodeUnit>)
    ensures (c as int) < 0x1_0000 ==> u == [c as int]
    ensures (c as int) >= 0x1_0000 ==> |u| == 2 && IsHighSurrogate(u[0]) && IsLowSurrogate(u[1])
  {
    var v := c as int;
    if v < 0x1_0000 then [v]
    else [0xD800 + (v - 0x1_0000) / 0x400, 0xDC00 + (v - 0x1_0000) % 0x400]
  }

  /** The code units JavaScript holds for a string. */
  function Utf16(s: string): (u: seq<CodeUnit>)
    ensures |u| >= |s|
  {
    if s == [] then [] else CharUnits(s[0]) + Utf16(s[1..])
  }

  /** The string a well-formed sequence of code units spells, or `None` when a surrogate is unpaired. */
  function Utf16Decode(u: seq<CodeUnit>): Option<string>
  {
    if u == [] then Some([])
    else if IsHighSurrogate(u[0]) then
      if |u| >= 2 && IsLowSurrogate(u[1]) then
        var c := (0x1_0000 + (u[0] as int - 0xD800) * 0x400 + (u[1] as int - 0xDC00)) as char;
        match Utf16Decode(u[2..])
        case None => None
        case Some(rest) => Some([c] + rest)
      else None
    else if IsLowSurrogate(u[0]) then None
    else
      match Utf16Decode(u[1..])
      case None => None
      case Some(rest) => Some([u[0] as char] + rest)
  }

  /** Decoding the code units of a character followed by more code units. */
  lemma DecodeCharUnits(c: char, rest: seq<CodeUnit>)
    ensures Utf16Decode(CharUnits(c) + rest) ==
      match Utf16Decode(rest)
      case None => None
      case Some(r) => Some([c] + r)
  {
    var u := CharUnits(c) + rest;
    var v := c as int;
    if v < 0x1_0000 {
      assert u[0] == v && u[1..] == rest;
    } else {
      assert u[0] == 0xD800 + (v - 0x1_0000) / 0x400 && u[1] == 0xDC00 + (v - 0x1_0000) % 0x400;
      assert 0x1_0000 + (u[0] as int - 0xD800) * 0x400 + (u[1] as int - 0xDC00) == v;
      assert u[2..] == rest;
    }
  }

  /** Decoding the code units of a string gives the string back. */
  lemma {:induction false} Utf16RoundTrip(s: string)
    ensures Utf16Decode(Utf16(s)) == Some(s)
  {
    if s != [] {
      Utf16RoundTrip(s[1..]);
      DecodeCharUnits(s[0], Utf16(s[1..]));
      assert [s[0]] + s[1..] == s;
    }
  }

  /** The code units of two strings put together are those of the first, then those of the second. */
  lemma {:induction false} Utf16Concat(a: string, b: string)
    ensures Utf16(a + b) == Utf16(a) + Utf16(b)
  {
    if a == [] {
      assert a + b == b;
    } else {
      assert (a + b)[0] == a[0] && (a + b)[1..] == a[1..] + b;
      Utf16Concat(a[1..], b);
      AppendAssoc(CharUnits(a[0]), Utf16(a[1..]), Utf16(b));
    }
  }

  /** Below U+10000 every character is one code unit, so `length` and indices agree with the characters. */
  lemma {:induction false} Utf16Bmp(s: string)
    requires forall k :: 0 <= k < |s| ==> (s[k] as int) < 0x1_0000
    ensures |Utf16(s)| == |s|
    ensures forall k :: 0 <= k < |s| ==> Utf16(s)[k] == s[k] as int
  {
    if s != [] {
      Utf16Bmp(s[1..]);
      assert Utf16(s) == [s[0] as int] + Utf16(s[1..]);
    }
  }

  /** The code units of an ASCII string: one per character, of the same value. */
  function Ascii(s: string): seq<CodeUnit>
    requires forall k :: 0 <= k < |s| ==> (s[k] as int) < 0x80
  {
    seq(|s|, k requires 0 <= k < |s| => s[k] as int)
  }

  /** For ASCII text `Ascii` and `Utf16` agree. */
  lemma AsciiIsUtf16(s: string)
    requires forall k :: 0 <= k < |s| ==> (s[k] as int) < 0x80
    ensures Ascii(s) == Utf16(s)
  {
    Utf16Bmp(s);
  }

  /** A high surrogate that no low surrogate follows makes the whole sequence undecodable. */
  lemma {:induction false} DecodeLoneHighSurrogate(pre: seq<CodeUnit>, h: CodeUnit, rest: seq<CodeUnit>)
    requires forall k :: 0 <= k < |pre| ==> !IsHighSurrogate(pre[k]) && !IsLowSurrogate(pre[k])
    requires IsHighSurrogate(h)
    requires rest == [] || !IsLowSurrogate(rest[0])
    ensures Utf16Decode(pre + [h] + rest) == None
  {
    var u := pre + [h] + rest;
    if pre == [] {
      assert u == [h] + rest;
      if rest != [] {
        assert u[1] == rest[0];
      }
    } else {
      assert u[1..] == pre[1..] + [h] + rest;
      DecodeLoneHighSurrogate(pre[1..], h, rest);
    }
  }

  /** A single character's code units. */
  lemma Utf16Single(c: char)
    ensures Utf16([c]) == CharUnits(c)
  {
    assert [c][1..] == [];
  }

  /** A character above U+FFFF counts two towards `length`: `"\U{1F600}".length` is 2. */
  lemma Utf16Astral()
    ensures Utf16("\U{1F600}") == [0xD83D, 0xDE00]
  {
    assert "\U{1F600}"[1..] == [];
  }
}
