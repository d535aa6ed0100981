/**
 * The joiner (pdf-joiner.js): an ordered list of PDFs that files are appended to,
 * whose entries can be moved one place up or down or removed, that can be
 * cleared, and that is joined, when it holds at least two entries, under a name
 * made from the two names or from their longest common prefix.
 */
module Joiner {
  import opened Wrappers
  import opened Text

  /** An entry of the list: the file's name, size and bytes (opaque), and its page count. */
  datatype PdfEntry = PdfEntry(name: string, sizeBytes: nat, data: nat, pageCount: nat)

  /** A file from the picker; `pageCount` is `None` when the PDF library refuses to load its bytes. */
  datatype PickedFile = PickedFile(name: string, mimeType: string, sizeBytes: nat, data: nat, pageCount: Option<nat>)

  const PdfMimeType := "application/pdf"

  /** The minimum of entries the join asks for. */
  const MinFilesToJoin := 2

  /** The smallest common prefix worth naming the joined file after. */
  const MinPrefixLength := 3

  /** The name used when no better one is found (also the initial value of `joinedPdfName`). */
  const DefaultJoinedName := "joined-document.pdf"

  /** What follows the common prefix in the joined name. */
  const JoinedSuffix := "-joined.pdf"

  /** The two constant names as the code units the joiner stores. */
  const JoinedSuffixUnits: seq<CodeUnit> := Ascii(JoinedSuffix)
  const DefaultJoinedUnits: seq<CodeUnit> := Ascii(DefaultJoinedName)

  // ---------------------------------------------------------------------------
  // Adding files

  /** A picked file is added when its type is PDF and the library can load it. */
  predicate Accepts(f: PickedFile)
  {
    f.mimeType == PdfMimeType && f.pageCount.Some?
  }

  function EntryOf(f: PickedFile): PdfEntry
    requires f.pageCount.Some?
  {
    PdfEntry(f.name, f.sizeBytes, f.data, f.pageCount.value)
  }

  /** The entries a batch of picked files adds, in the order they were picked. */
  function Accepted(files: seq<PickedFile>): (r: seq<PdfEntry>)
    ensures |r| <= |files|
  {
    if files == [] then []
    else
      var last := files[|files| - 1];
      Accepted(files[..|files| - 1]) + (if Accepts(last) then [EntryOf(last)] else [])
  }

  /** Two batches picked one after the other add the entries of the first, then those of the second. */
  lemma {:induction false} AcceptedConcat(a: seq<PickedFile>, b: seq<PickedFile>)
    ensures Accepted(a + b) == Accepted(a) + Accepted(b)
    decreases |b|
  {
    if b == [] {
      assert a + b == a;
    } else {
      var b' := b[..|b| - 1];
      assert (a + b)[..|a + b| - 1] == a + b';
      assert (a + b)[|a + b| - 1] == b[|b| - 1];
      AcceptedConcat(a, b');
    }
  }

  /** A file that is not a loadable PDF adds nothing; one that is adds exactly its entry. */
  lemma AcceptedSingle(f: PickedFile)
    ensures Accepted([f]) == if Accepts(f) then [EntryOf(f)] else []
  {
    assert [f][..0] == [];
  }

  // ---------------------------------------------------------------------------
  // Moving an entry

  datatype Direction = Up | Down

  /** `movePdf(index, direction)`: swap with the neighbour above or below, when there is one. */
  function Moved<T>(list: seq<T>, index: int, direction: Direction): seq<T>
    requires 0 <= index < |list|
  {
    if direction == Up && index > 0 then
      list[index := list[index - 1]][index - 1 := list[index]]
    else if direction == Down && index < |list| - 1 then
      list[index := list[index + 1]][index + 1 := list[index]]
    else
      list
  }

  /** Moving up swaps the entry with the one above it; the others and the length stay. */
  lemma MovedUp<T>(list: seq<T>, index: int)
    requires 0 < index < |list|
    ensures |Moved(list, index, Up)| == |list|
    ensures Moved(list, index, Up)[index - 1] == list[index] && Moved(list, index, Up)[index] == list[index - 1]
    ensures forall k :: 0 <= k < |list| && k != index - 1 && k != index ==> Moved(list, index, Up)[k] == list[k]
  {
  }

  /** Moving down swaps the entry with the one below it; the others and the length stay. */
  lemma MovedDown<T>(list: seq<T>, index: int)
    requires 0 <= index < |list| - 1
    ensures |Moved(list, index, Down)| == |list|
    ensures Moved(list, index, Down)[index + 1] == list[index] && Moved(list, index, Down)[index] == list[index + 1]
    ensures forall k :: 0 <= k < |list| && k != index && k != index + 1 ==> Moved(list, index, Down)[k] == list[k]
  {
  }

  /** The first entry cannot go up and the last cannot go down. */
  lemma MovedAtEdges<T>(list: seq<T>)
    requires |list| > 0
    ensures Moved(list, 0, Up) == list
    ensures Moved(list, |list| - 1, Down) == list
  {
  }

  /** A list with neighbours `x`, `y` at `i` and `i + 1` has the same entries as with them swapped. */
  lemma SwapSlices<T>(list: seq<T>, swapped: seq<T>, i: nat)
    requires i + 1 < |list| && |swapped| == |list|
    requires swapped[i] == list[i + 1] && swapped[i + 1] == list[i]
    requires forall k :: 0 <= k < |list| && k != i && k != i + 1 ==> swapped[k] == list[k]
    ensures multiset(swapped) == multiset(list)
  {
    var a, b := list[..i], list[i + 2..];
    assert list == a + [list[i], list[i + 1]] + b;
    assert swapped == a + [list[i + 1], list[i]] + b by {
      assert swapped[..i] == a;
      assert swapped[i + 2..] == b;
    }
    MultisetSwap(a, list[i], list[i + 1], b);
  }

  lemma MultisetSwap<T>(a: seq<T>, x: T, y: T, b: seq<T>)
    ensures multiset(a + [x, y] + b) == multiset(a + [y, x] + b)
  {
    assert multiset([x, y]) == multiset([y, x]);
  }

  /** Swapping two neighbours keeps the same entries. */
  lemma SwapKeepsEntries<T>(list: seq<T>, i: nat)
    requires i + 1 < |list|
    ensures multiset(list[i := list[i + 1]][i + 1 := list[i]]) == multiset(list)
  {
    SwapSlices(list, list[i := list[i + 1]][i + 1 := list[i]], i);
  }

  /** The same swap, written the other way round. */
  lemma SwapKeepsEntriesReversed<T>(list: seq<T>, i: nat)
    requires i + 1 < |list|
    ensures multiset(list[i + 1 := list[i]][i := list[i + 1]]) == multiset(list)
  {
    SwapSlices(list, list[i + 1 := list[i]][i := list[i + 1]], i);
  }

  /** Whatever the move, the list is a permutation of what it was. */
  lemma MovedIsPermutation<T>(list: seq<T>, index: int, direction: Direction)
    requires 0 <= index < |list|
    ensures multiset(Moved(list, index, direction)) == multiset(list)
  {
    if direction == Up && index > 0 {
      SwapKeepsEntriesReversed(list, index - 1);
    } else if direction == Down && index < |list| - 1 {
      SwapKeepsEntries(list, index);
    }
  }

  /** Moving an entry up and then down again gives the list back. */
  lemma MoveUpThenDown<T>(list: seq<T>, index: int)
    requires 0 < index < |list|
    ensures Moved(Moved(list, index, Up), index - 1, Down) == list
  {
  }

  // ---------------------------------------------------------------------------
  // Removing an entry

  /** Where `splice(start, 1)` starts on a list of `len` entries: negative starts count from the end. */
  function SpliceStart(len: nat, start: int): (k: nat)
    ensures k <= len
    ensures 0 <= start <= len ==> k == start
    ensures start > len ==> k == len
    ensures start < 0 ==> k == if len + start < 0 then 0 else len + start
  {
    if start < 0 then (if len + start < 0 then 0 else len + start)
    else if start > len then len
    else start
  }

  /** `list.splice(start, 1)`: at most one entry, the one at the actual start, goes. */
  function Spliced<T>(list: seq<T>, start: int): seq<T>
  {
    var k := SpliceStart(|list|, start);
    if k < |list| then list[..k] + list[k + 1..] else list
  }

  /** Removing a valid index drops exactly that entry and keeps the others in order. */
  lemma SplicedAt<T>(list: seq<T>, index: int)
    requires 0 <= index < |list|
    ensures |Spliced(list, index)| == |list| - 1
    ensures forall k :: 0 <= k < index ==> Spliced(list, index)[k] == list[k]
    ensures forall k :: index <= k < |list| - 1 ==> Spliced(list, index)[k] == list[k + 1]
    ensures multiset(Spliced(list, index)) + multiset{list[index]} == multiset(list)
  {
    assert list == list[..index] + [list[index]] + list[index + 1..];
  }

  /** An index past the end removes nothing; `-1` removes the last entry. */
  lemma SplicedOutOfRange<T>(list: seq<T>, index: int)
    ensures index >= |list| ==> Spliced(list, index) == list
    ensures index == -1 && |list| > 0 ==> Spliced(list, index) == list[..|list| - 1]
  {
  }

  // ---------------------------------------------------------------------------
  // The joined name
  //
  // `findCommonPrefix` measures and indexes JavaScript strings, which count UTF-16
  // code units: its names, prefix and result are code-unit sequences (`Utf16`), and a
  // prefix may end between the two halves of a surrogate pair. The prefix functions
  // below are generic in the element type for that reason.

  /** `p` is a prefix of every name. */
  predicate IsCommonPrefix<T(==)>(p: seq<T>, names: seq<seq<T>>)
  {
    forall k :: 0 <= k < |names| ==> p <= names[k]
  }

  /** The longest common prefix of two sequences. */
  function CommonPrefix2<T(==)>(a: seq<T>, b: seq<T>): (p: seq<T>)
    ensures p <= a && p <= b
    ensures |p| < |a| && |p| < |b| ==> a[|p|] != b[|p|]
  {
    if a == [] || b == [] || a[0] != b[0] then []
    else [a[0]] + CommonPrefix2(a[1..], b[1..])
  }

  /** Any prefix of both sequences is a prefix of their longest common prefix. */
  lemma {:induction false} CommonPrefix2Longest<T>(p: seq<T>, a: seq<T>, b: seq<T>)
    requires p <= a && p <= b
    ensures p <= CommonPrefix2(a, b)
  {
    if p != [] {
      CommonPrefix2Longest(p[1..], a[1..], b[1..]);
    }
  }

  /** The longest common prefix of a non-empty list of names. */
  function LongestCommonPrefix<T(==)>(names: seq<seq<T>>): (p: seq<T>)
    requires |names| > 0
    ensures IsCommonPrefix(p, names)
  {
    if |names| == 1 then names[0]
    else
      var rest := LongestCommonPrefix(names[1..]);
      var p := CommonPrefix2(names[0], rest);
      assert forall k :: 0 <= k < |names[1..]| ==> rest <= names[1..][k];
      p
  }

  /** Every common prefix of the names is a prefix of the longest one. */
  lemma {:induction false} LongestCommonPrefixIsLongest<T>(p: seq<T>, names: seq<seq<T>>)
    requires |names| > 0 && IsCommonPrefix(p, names)
    ensures p <= LongestCommonPrefix(names)
  {
    if |names| > 1 {
      assert IsCommonPrefix(p, names[1..]) by {
        forall k | 0 <= k < |names[1..]| ensures p <= names[1..][k] { assert names[1..][k] == names[k + 1]; }
      }
      LongestCommonPrefixIsLongest(p, names[1..]);
      assert p <= names[0];
      CommonPrefix2Longest(p, names[0], LongestCommonPrefix(names[1..]));
    }
  }

  /**
   * Each name with its first `.pdf` removed (`name.replace('.pdf', '')`), as the code
   * units JavaScript holds. The pattern is ASCII and no half of a surrogate pair is,
   * so removing it from the characters and encoding gives the same code units as
   * removing it from the code units.
   */
  function Stripped(filenames: seq<string>): (names: seq<seq<CodeUnit>>)
    ensures |names| == |filenames|
    ensures forall k :: 0 <= k < |filenames| ==> names[k] == Utf16(ReplaceFirst(filenames[k], ".pdf", ""))
  {
    seq(|filenames|, k requires 0 <= k < |filenames| => Utf16(ReplaceFirst(filenames[k], ".pdf", "")))
  }

  /**
   * What `findCommonPrefix` returns: the longest common prefix of the stripped names,
   * in code units, if it has three code units or more.
   */
  function CommonNamePrefix(filenames: seq<string>): seq<CodeUnit>
  {
    if filenames == [] then []
    else
      var p := LongestCommonPrefix(Stripped(filenames));
      if |p| >= MinPrefixLength then p else []
  }

  /**
   * `findCommonPrefix` returns `''` for no names; otherwise either `''`, when the
   * stripped names share no prefix of three code units, or their longest common prefix.
   */
  lemma CommonNamePrefixMeaning(filenames: seq<string>)
    ensures filenames == [] ==> CommonNamePrefix(filenames) == []
    ensures CommonNamePrefix(filenames) != [] ==>
      |CommonNamePrefix(filenames)| >= MinPrefixLength &&
      IsCommonPrefix(CommonNamePrefix(filenames), Stripped(filenames)) &&
      forall p :: IsCommonPrefix(p, Stripped(filenames)) ==> p <= CommonNamePrefix(filenames)
    ensures filenames != [] && CommonNamePrefix(filenames) == [] ==>
      forall p :: IsCommonPrefix(p, Stripped(filenames)) ==> |p| < MinPrefixLength
  {
    if filenames != [] {
      forall p | IsCommonPrefix(p, Stripped(filenames)) ensures p <= LongestCommonPrefix(Stripped(filenames)) {
        LongestCommonPrefixIsLongest(p, Stripped(filenames));
      }
    }
  }

  /** The length of the shortest name (`Math.min(...names.map(name => name.length))`). */
  function MinLength<T>(names: seq<seq<T>>): (m: nat)
    requires |names| > 0
    ensures forall k :: 0 <= k < |names| ==> m <= |names[k]|
    ensures exists k :: 0 <= k < |names| && m == |names[k]|
  {
    if |names| == 1 then |names[0]|
    else
      var rest := MinLength(names[1..]);
      if |names[0]| <= rest then |names[0]| else rest
  }

  /** `findCommonPrefix`: counts the positions, up to the shortest name, where every name has the first name's code unit. */
  method FindCommonPrefix(filenames: seq<string>) returns (prefix: seq<CodeUnit>)
    ensures prefix == CommonNamePrefix(filenames)
  {
    if |filenames| == 0 {
      return [];
    }
    var names := Stripped(filenames);
    var minLength := MinLength(names);
    var prefixLength := 0;
    for i := 0 to minLength
      invariant prefixLength == i
      invariant IsCommonPrefix(names[0][..i], names)
    {
      var c := names[0][i];
      if forall k :: 0 <= k < |names| ==> names[k][i] == c {
        prefixLength := prefixLength + 1;
        CommonPrefixExtends(names, i);
      } else {
        break;
      }
    }
    var common := names[0][..prefixLength];
    PrefixUpToMismatch(names, prefixLength, minLength);
    assert common == LongestCommonPrefix(names);
    prefix := if |common| >= MinPrefixLength then common else [];
  }

  /**
   * The prefix the loop of `findCommonPrefix` stops at is the longest common one:
   * it is common and either reaches the shortest name or ends at a mismatch.
   */
  lemma PrefixUpToMismatch<T>(names: seq<seq<T>>, n: nat, minLength: nat)
    requires |names| > 0 && minLength == MinLength(names) && n <= minLength
    requires IsCommonPrefix(names[0][..n], names)
    requires n < minLength ==> exists k :: 0 <= k < |names| && names[k][n] != names[0][n]
    ensures names[0][..n] == LongestCommonPrefix(names)
  {
    LongestCommonPrefixIsLongest(names[0][..n], names);
  }

  /** A common prefix grows by one element when every name has the first name's element next. */
  lemma CommonPrefixExtends<T>(names: seq<seq<T>>, i: nat)
    requires |names| > 0 && i < |names[0]| && IsCommonPrefix(names[0][..i], names)
    requires forall k :: 0 <= k < |names| ==> i < |names[k]| && names[k][i] == names[0][i]
    ensures IsCommonPrefix(names[0][..i + 1], names)
  {
    forall k | 0 <= k < |names| ensures names[0][..i + 1] <= names[k] {
      assert names[k][..i + 1] == names[k][..i] + [names[k][i]];
      assert names[0][..i + 1] == names[0][..i] + [names[0][i]];
    }
  }

  /** Names that are one shared prefix followed by one element, the first two different, have that prefix as their longest common prefix. */
  lemma LongestCommonPrefixOfSiblings<T>(p: seq<T>, names: seq<seq<T>>)
    requires |names| >= 2
    requires forall k :: 0 <= k < |names| ==> |names[k]| == |p| + 1 && p <= names[k]
    requires names[0][|p|] != names[1][|p|]
    ensures LongestCommonPrefix(names) == p
  {
    LongestCommonPrefixIsLongest(p, names);
  }

  /** The names of the entries. */
  function Names(list: seq<PdfEntry>): (names: seq<string>)
    ensures |names| == |list|
    ensures forall k :: 0 <= k < |list| ==> names[k] == list[k].name
  {
    seq(|list|, k requires 0 <= k < |list| => list[k].name)
  }

  /**
   * The name `joinPdfs` downloads under, in code units: nothing below two entries;
   * for two, both names without their first `.pdf`, joined by `_`, then `.pdf`; for
   * more, the common prefix followed by `-joined.pdf`, or the default name.
   */
  function JoinedName(names: seq<string>): (r: Option<seq<CodeUnit>>)
    ensures r.None? <==> |names| < MinFilesToJoin
  {
    if |names| < MinFilesToJoin then None
    else if |names| == 2 then
      Some(Utf16(ReplaceFirst(names[0], ".pdf", "") + "_" + ReplaceFirst(names[1], ".pdf", "") + ".pdf"))
    else
      var base := CommonNamePrefix(names);
      Some(if base != [] then base + JoinedSuffixUnits else DefaultJoinedUnits)
  }

  /** Two names whose only `.pdf` is the extension are joined as `<first>_<second>.pdf`. */
  lemma JoinedNameOfTwo(base1: string, base2: string)
    requires forall j :: 0 <= j < |base1| ==> !OccursAt(base1 + ".pdf", ".pdf", j)
    requires forall j :: 0 <= j < |base2| ==> !OccursAt(base2 + ".pdf", ".pdf", j)
    ensures JoinedName([base1 + ".pdf", base2 + ".pdf"]) == Some(Utf16(base1 + "_" + base2 + ".pdf"))
  {
    ReplacePdfExtension(base1, "");
    ReplacePdfExtension(base2, "");
    assert base1 + "" == base1;
    assert base2 + "" == base2;
  }

  /**
   * Three or more names: the joined name is `<prefix>-joined.pdf` with the longest
   * common prefix of the stripped names when that has three code units or more,
   * and `joined-document.pdf` otherwise.
   */
  lemma JoinedNameOfMany(names: seq<string>)
    requires |names| > 2
    ensures |LongestCommonPrefix(Stripped(names))| >= MinPrefixLength ==>
      JoinedName(names) == Some(LongestCommonPrefix(Stripped(names)) + JoinedSuffixUnits)
    ensures |LongestCommonPrefix(Stripped(names))| < MinPrefixLength ==>
      JoinedName(names) == Some(DefaultJoinedUnits)
  {
  }

  /** The code units of a dot-free name followed by `.pdf`, with the `.pdf` removed. */
  lemma StrippedNoDot(base: string)
    requires '.' !in base
    ensures Utf16(ReplaceFirst(base + ".pdf", ".pdf", "")) == Utf16(base)
  {
    ReplacePdfExtensionNoDot(base, "");
    assert base + "" == base;
  }

  /** Stripping a `.pdf` name whose stem is `pre` and one more character. */
  lemma StrippedLastChar(pre: string, c: char)
    requires '.' !in pre && c != '.'
    ensures Utf16(ReplaceFirst(pre + [c] + ".pdf", ".pdf", "")) == Utf16(pre) + CharUnits(c)
  {
    StrippedNoDot(pre + [c]);
    Utf16Single(c);
    Utf16Concat(pre, [c]);
  }

  /**
   * Three names made of one stem `pre`, one more character each and `.pdf`, whose
   * code units first differ at the last unit, are named after all the units before it.
   */
  lemma JoinedNameOfSiblings(pre: string, c: seq<char>, p: seq<CodeUnit>, last: seq<CodeUnit>)
    requires '.' !in pre && |c| == 3 && '.' !in c
    requires |last| == 3 && last[0] != last[1] && |p| >= MinPrefixLength
    requires forall k :: 0 <= k < 3 ==> Utf16(pre) + CharUnits(c[k]) == p + [last[k]]
    ensures JoinedName([pre + [c[0]] + ".pdf", pre + [c[1]] + ".pdf", pre + [c[2]] + ".pdf"]) ==
      Some(p + JoinedSuffixUnits)
  {
    var filenames := [pre + [c[0]] + ".pdf", pre + [c[1]] + ".pdf", pre + [c[2]] + ".pdf"];
    forall k | 0 <= k < 3
      ensures Stripped(filenames)[k] == p + [last[k]]
    {
      assert c[k] in c;
      StrippedLastChar(pre, c[k]);
    }
    LongestCommonPrefixOfSiblings<CodeUnit>(p, Stripped(filenames));
    JoinedNameOfMany(filenames);
  }

  /**
   * A character above U+FFFF counts two towards the three: names such as `😀a1.pdf`,
   * `😀a2.pdf`, `😀a3.pdf` share the two characters `😀a`, which are three code
   * units, and are joined as `😀a-joined.pdf`.
   */
  lemma SurrogatePairCountsTwice(e: char, x: char, d: string)
    requires (e as int) >= 0x1_0000 && (x as int) < 0x1_0000 && x != '.'
    requires |d| == 3 && '.' !in d && d[0] != d[1]
    requires forall k :: 0 <= k < 3 ==> (d[k] as int) < 0x1_0000
    ensures |Utf16([e, x])| == MinPrefixLength
    ensures JoinedName([[e, x] + [d[0]] + ".pdf", [e, x] + [d[1]] + ".pdf", [e, x] + [d[2]] + ".pdf"]) ==
      Some(Utf16([e, x]) + JoinedSuffixUnits)
  {
    Utf16Single(e);
    Utf16Single(x);
    assert [e, x] == [e] + [x];
    Utf16Concat([e], [x]);
    var last := seq(3, k requires 0 <= k < 3 => d[k] as int);
    assert '.' !in [e, x];
    JoinedNameOfSiblings([e, x], d, Utf16([e, x]), last);
  }

  /**
   * A prefix can end inside a surrogate pair: names such as `ab😀.pdf`, `ab😁.pdf`,
   * `ab😂.pdf` share `a`, `b` and the high half of the pair, and the joined name keeps
   * that lone surrogate, so it spells no string.
   */
  lemma PrefixSplitsSurrogatePair(a: char, b: char, e: seq<char>)
    requires (a as int) < 0x1_0000 && (b as int) < 0x1_0000 && a != '.' && b != '.'
    requires |e| == 3 && forall k :: 0 <= k < 3 ==> (e[k] as int) >= 0x1_0000
    requires forall k :: 0 <= k < 3 ==> CharUnits(e[k])[0] == CharUnits(e[0])[0]
    requires CharUnits(e[0])[1] != CharUnits(e[1])[1]
    ensures JoinedName([[a, b] + [e[0]] + ".pdf", [a, b] + [e[1]] + ".pdf", [a, b] + [e[2]] + ".pdf"]) ==
      Some([a as int, b as int, CharUnits(e[0])[0]] + JoinedSuffixUnits)
    ensures Utf16Decode([a as int, b as int, CharUnits(e[0])[0]] + JoinedSuffixUnits) == None
  {
    Utf16Single(a);
    Utf16Single(b);
    assert [a, b] == [a] + [b];
    Utf16Concat([a], [b]);
    var p: seq<CodeUnit> := [a as int, b as int, CharUnits(e[0])[0]];
    var last := seq(3, k requires 0 <= k < 3 => CharUnits(e[k])[1]);
    forall k | 0 <= k < 3
      ensures Utf16([a, b]) + CharUnits(e[k]) == p + [last[k]]
    {
    }
    assert '.' !in [a, b];
    assert '.' !in e by {
      forall k | 0 <= k < 3 ensures e[k] != '.' { }
    }
    JoinedNameOfSiblings([a, b], e, p, last);
    assert JoinedSuffixUnits[0] == '-' as int;
    assert p == [a as int, b as int] + [CharUnits(e[0])[0]];
    DecodeLoneHighSurrogate([a as int, b as int], CharUnits(e[0])[0], JoinedSuffixUnits);
  }

  // ---------------------------------------------------------------------------
  // The joiner's page state

  /** What a join hands to the merging library: the entries, in order, and the download name. */
  datatype JoinRequest = JoinRequest(entries: seq<PdfEntry>, fileName: seq<CodeUnit>)

  /** The globals `pdfsToJoin` and `joinedPdfName`, and the join button's `disabled` flag. */
  class JoinList {
    var pdfsToJoin: seq<PdfEntry>
    var joinedPdfName: seq<CodeUnit>
    var joinDisabled: bool

    /** The join button is disabled exactly when fewer than two entries are listed. */
    ghost predicate Valid()
      reads this
    {
      joinDisabled == (|pdfsToJoin| < MinFilesToJoin)
    }

    /** The page as loaded: an empty list and the join button disabled. */
    constructor ()
      ensures Valid() && pdfsToJoin == [] && joinedPdfName == DefaultJoinedUnits
    {
      pdfsToJoin := [];
      joinedPdfName := DefaultJoinedUnits;
      joinDisabled := true;
    }

    /** `handlePdfAdd`: every picked file that is a loadable PDF is appended, in order. */
    method HandlePdfAdd(files: seq<PickedFile>)
      requires Valid()
      modifies this
      ensures Valid()
      ensures pdfsToJoin == old(pdfsToJoin) + Accepted(files)
      ensures joinedPdfName == old(joinedPdfName)
    {
      if |files| == 0 {
        return;
      }
      for i := 0 to |files|
        invariant Valid()
        invariant pdfsToJoin == old(pdfsToJoin) + Accepted(files[..i])
        invariant joinedPdfName == old(joinedPdfName)
      {
        assert files[..i + 1][..i] == files[..i];
        var file := files[i];
        if file.mimeType != PdfMimeType {
          continue;
        }
        if file.pageCount.None? {
          // the library refused the bytes: the error is logged and the file skipped
          continue;
        }
        pdfsToJoin := pdfsToJoin + [EntryOf(file)];
        joinDisabled := |pdfsToJoin| < MinFilesToJoin;
      }
      assert files[..|files|] == files;
    }

    /** `movePdf`: the entry at `index` changes place with its upper or lower neighbour, if any. */
    method MovePdf(index: int, direction: Direction)
      requires Valid() && 0 <= index < |pdfsToJoin|
      modifies this
      ensures Valid()
      ensures pdfsToJoin == Moved(old(pdfsToJoin), index, direction)
      ensures joinedPdfName == old(joinedPdfName)
    {
      if direction == Up && index > 0 {
        var temp := pdfsToJoin[index];
        pdfsToJoin := pdfsToJoin[index := pdfsToJoin[index - 1]];
        pdfsToJoin := pdfsToJoin[index - 1 := temp];
      } else if direction == Down && index < |pdfsToJoin| - 1 {
        var temp := pdfsToJoin[index];
        pdfsToJoin := pdfsToJoin[index := pdfsToJoin[index + 1]];
        pdfsToJoin := pdfsToJoin[index + 1 := temp];
      }
    }

    /** `removePdf`: `splice(index, 1)`, then the join button follows the new length. */
    method RemovePdf(index: int)
      requires Valid()
      modifies this
      ensures Valid()
      ensures pdfsToJoin == Spliced(old(pdfsToJoin), index)
      ensures joinedPdfName == old(joinedPdfName)
    {
      pdfsToJoin := Spliced(pdfsToJoin, index);
      joinDisabled := |pdfsToJoin| < MinFilesToJoin;
    }

    /** `clearPdfs`: an empty list and a disabled join button. */
    method ClearPdfs()
      requires Valid()
      modifies this
      ensures Valid()
      ensures pdfsToJoin == [] && joinDisabled
      ensures joinedPdfName == old(joinedPdfName)
    {
      pdfsToJoin := [];
      joinDisabled := true;
    }

    /**
     * `joinPdfs`: below two entries nothing happens; otherwise every entry, in
     * list order, is handed to the merge under the computed name, which is also
     * kept in `joinedPdfName`.
     */
    method JoinPdfs() returns (request: Option<JoinRequest>)
      requires Valid()
      modifies this
      ensures Valid()
      ensures pdfsToJoin == old(pdfsToJoin) && joinDisabled == old(joinDisabled)
      ensures |pdfsToJoin| < MinFilesToJoin ==> request == None && joinedPdfName == old(joinedPdfName)
      ensures |pdfsToJoin| >= MinFilesToJoin ==>
        joinedPdfName == JoinedName(Names(pdfsToJoin)).value &&
        request == Some(JoinRequest(pdfsToJoin, joinedPdfName))
    {
      if |pdfsToJoin| < MinFilesToJoin {
        return None;
      }
      if |pdfsToJoin| == 2 {
        var name1 := ReplaceFirst(pdfsToJoin[0].name, ".pdf", "");
        var name2 := ReplaceFirst(pdfsToJoin[1].name, ".pdf", "");
        joinedPdfName := Utf16(name1 + "_" + name2 + ".pdf");
      } else {
        var baseName := FindCommonPrefix(Names(pdfsToJoin));
        joinedPdfName := if baseName != [] then baseName + JoinedSuffixUnits else DefaultJoinedUnits;
      }
      request := Some(JoinRequest(pdfsToJoin, joinedPdfName));
    }
  }
}
