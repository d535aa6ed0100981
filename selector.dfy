/**
 * The name-based selector (pdf-selector.js): pasted text becomes a list of
 * target names; a search picks, for each target in turn, the first file of the
 * chosen folder whose name matches it and has not been picked yet; the picked
 * files can be removed by name and joined under a name built from the first two.
 */
module Selector {
  import opened Wrappers
  import opened Text

  /** A file of the chosen folder: its name (case preserved) and an opaque handle to its bytes. */
  datatype PdfFile = PdfFile(name: string, handle: nat)

  // ---------------------------------------------------------------------------
  // Parsing the pasted names

  /** Each line trimmed, the lines that trim to nothing dropped (`map(trim)` then `filter`). */
  function NamesOfLines(lines: seq<string>): seq<string>
  {
    if lines == [] then []
    else
      var name := Trim(lines[0]);
      (if name == [] then [] else [name]) + NamesOfLines(lines[1..])
  }

  /** The target names of the pasted text: its lines, trimmed, without the empty ones. */
  function ParseNames(text: string): (names: seq<string>)
  {
    NamesOfLines(Split(text, '\n'))
  }

  lemma {:induction false} NamesOfLinesWellFormed(lines: seq<string>)
    ensures forall k :: 0 <= k < |NamesOfLines(lines)| ==>
      NamesOfLines(lines)[k] != [] && Trim(NamesOfLines(lines)[k]) == NamesOfLines(lines)[k]
  {
    if lines != [] {
      NamesOfLinesWellFormed(lines[1..]);
      TrimIdempotent(lines[0]);
    }
  }

  /** Every target name is non-empty and equal to its own trim. */
  lemma ParsedNamesAreTrimmed(text: string)
    ensures forall k :: 0 <= k < |ParseNames(text)| ==>
      ParseNames(text)[k] != [] && Trim(ParseNames(text)[k]) == ParseNames(text)[k]
  {
    NamesOfLinesWellFormed(Split(text, '\n'));
  }

  lemma {:induction false} NamesOfLinesConcat(a: seq<string>, b: seq<string>)
    ensures NamesOfLines(a + b) == NamesOfLines(a) + NamesOfLines(b)
  {
    if a == [] {
      assert a + b == b;
    } else {
      assert (a + b)[0] == a[0];
      assert (a + b)[1..] == a[1..] + b;
      NamesOfLinesConcat(a[1..], b);
      var name := Trim(a[0]);
      AppendAssoc(if name == [] then [] else [name], NamesOfLines(a[1..]), NamesOfLines(b));
    }
  }

  /** The names of two pieces of text pasted on separate lines are those of the first followed by those of the second. */
  lemma ParseNamesConcat(a: string, b: string)
    ensures ParseNames(a + "\n" + b) == ParseNames(a) + ParseNames(b)
  {
    SplitConcat(a, b, '\n');
    NamesOfLinesConcat(Split(a, '\n'), Split(b, '\n'));
  }

  /** A single line gives its trim as the one name, or no name when it is blank. */
  lemma ParseNamesLine(line: string)
    requires '\n' !in line
    ensures ParseNames(line) == if Trim(line) == [] then [] else [Trim(line)]
  {
    SplitNoSeparator(line, '\n');
    assert [line][1..] == [];
    var name := Trim(line);
    assert NamesOfLines([line]) == (if name == [] then [] else [name]) + NamesOfLines([]);
  }

  /** Names that are non-empty, trimmed and one per line come back unchanged when pasted one per line. */
  lemma {:induction false} ParseNamesOfLines(names: seq<string>)
    requires forall k :: 0 <= k < |names| ==> names[k] != [] && Trim(names[k]) == names[k] && '\n' !in names[k]
    ensures ParseNames(Join(names, '\n')) == names
    decreases |names|
  {
    if names == [] {
      assert Split([], '\n') == [[]];
    } else {
      SplitJoin(names, '\n');
      NamesOfLinesIdentity(names);
    }
  }

  lemma {:induction false} NamesOfLinesIdentity(names: seq<string>)
    requires forall k :: 0 <= k < |names| ==> names[k] != [] && Trim(names[k]) == names[k]
    ensures NamesOfLines(names) == names
  {
    if names != [] {
      NamesOfLinesIdentity(names[1..]);
      assert [names[0]] + names[1..] == names;
    }
  }

  // ---------------------------------------------------------------------------
  // Matching

  /** The name compared by the search: `.pdf` at the end, in any case, removed; case preserved. */
  function Stem(name: string): string
  {
    StripPdfExtension(name)
  }

  /** The test of the search: same stem as the target ignoring case, and a stem not matched yet. */
  predicate Matches(file: PdfFile, target: string, matchedNames: set<string>)
  {
    ToLower(Stem(file.name)) == ToLower(Stem(target)) && Stem(file.name) !in matchedNames
  }

  /** `Array.from(files).find(...)`: the position of the first file in folder order that matches. */
  function FirstMatch(files: seq<PdfFile>, target: string, matchedNames: set<string>): (r: Option<nat>)
    ensures r.Some? ==> r.value < |files| && Matches(files[r.value], target, matchedNames)
    ensures r.Some? ==> forall j :: 0 <= j < r.value ==> !Matches(files[j], target, matchedNames)
    ensures r.None? ==> forall j :: 0 <= j < |files| ==> !Matches(files[j], target, matchedNames)
  {
    if files == [] then None
    else if Matches(files[0], target, matchedNames) then Some(0)
    else
      assert forall j :: 1 <= j < |files| ==> files[j] == files[1..][j - 1];
      match FirstMatch(files[1..], target, matchedNames)
      case None => None
      case Some(k) => Some(k + 1)
  }

  /** The files chosen for `targets`, in target order, when the stems in `matchedNames` are already taken. */
  function SelectFrom(targets: seq<string>, files: seq<PdfFile>, matchedNames: set<string>): seq<PdfFile>
  {
    if targets == [] then []
    else
      match FirstMatch(files, targets[0], matchedNames)
      case None => SelectFrom(targets[1..], files, matchedNames)
      case Some(k) => [files[k]] + SelectFrom(targets[1..], files, matchedNames + {Stem(files[k].name)})
  }

  /** The outcome of one search: matching starts with no stem taken. */
  function Select(targets: seq<string>, files: seq<PdfFile>): seq<PdfFile>
  {
    SelectFrom(targets, files, {})
  }

  /** The stems of a list of files. */
  function Stems(files: seq<PdfFile>): set<string>
  {
    set k | 0 <= k < |files| :: Stem(files[k].name)
  }

  /** The target names ignoring case and extension. */
  function TargetKeys(targets: seq<string>): set<string>
  {
    set k | 0 <= k < |targets| :: ToLower(Stem(targets[k]))
  }

  /**
   * What a search can choose: at most one file per target, only files of the folder,
   * each with the stem of some target ignoring case, none with a stem already taken.
   */
  lemma {:induction false} SelectFromSound(targets: seq<string>, files: seq<PdfFile>, matchedNames: set<string>)
    ensures |SelectFrom(targets, files, matchedNames)| <= |targets|
    ensures forall i :: 0 <= i < |SelectFrom(targets, files, matchedNames)| ==>
      var f := SelectFrom(targets, files, matchedNames)[i];
      f in files && ToLower(Stem(f.name)) in TargetKeys(targets) && Stem(f.name) !in matchedNames
  {
    if targets != [] {
      var rest := targets[1..];
      assert TargetKeys(rest) <= TargetKeys(targets) by {
        forall k | 0 <= k < |rest| ensures ToLower(Stem(rest[k])) in TargetKeys(targets) {
          assert rest[k] == targets[k + 1];
        }
      }
      match FirstMatch(files, targets[0], matchedNames)
      case None =>
        SelectFromSound(rest, files, matchedNames);
      case Some(k) =>
        SelectFromSound(rest, files, matchedNames + {Stem(files[k].name)});
        assert ToLower(Stem(targets[0])) in TargetKeys(targets);
    }
  }

  /** No two chosen files share a stem, and no chosen stem was taken before: each file is used at most once. */
  lemma {:induction false} SelectFromDistinct(targets: seq<string>, files: seq<PdfFile>, matchedNames: set<string>)
    ensures forall i, j :: 0 <= i < j < |SelectFrom(targets, files, matchedNames)| ==>
      Stem(SelectFrom(targets, files, matchedNames)[i].name) != Stem(SelectFrom(targets, files, matchedNames)[j].name)
  {
    if targets != [] {
      match FirstMatch(files, targets[0], matchedNames)
      case None =>
        SelectFromDistinct(targets[1..], files, matchedNames);
      case Some(k) =>
        var taken := matchedNames + {Stem(files[k].name)};
        SelectFromDistinct(targets[1..], files, taken);
        SelectFromSound(targets[1..], files, taken);
    }
  }

  /** The stems of a list led by `f` are `f`'s stem and those of the rest. */
  lemma StemsCons(f: PdfFile, rest: seq<PdfFile>)
    ensures Stems([f] + rest) == {Stem(f.name)} + Stems(rest)
  {
    var all := [f] + rest;
    forall s | s in Stems(all) ensures s in {Stem(f.name)} + Stems(rest) {
      var i :| 0 <= i < |all| && s == Stem(all[i].name);
      if i > 0 { assert all[i] == rest[i - 1]; }
    }
    forall s | s in Stems(rest) ensures s in Stems(all) {
      var i :| 0 <= i < |rest| && s == Stem(rest[i].name);
      assert all[i + 1] == rest[i];
    }
    assert all[0] == f;
  }

  /**
   * Searching for `a + b` chooses the files for `a`, then the files for `b`
   * with the stems chosen for `a` taken: targets are served one by one, in order.
   */
  lemma {:induction false} SelectFromConcat(a: seq<string>, b: seq<string>, files: seq<PdfFile>, matchedNames: set<string>)
    ensures SelectFrom(a + b, files, matchedNames) ==
      SelectFrom(a, files, matchedNames) + SelectFrom(b, files, matchedNames + Stems(SelectFrom(a, files, matchedNames)))
  {
    if a == [] {
      assert a + b == b;
      assert Stems([]) == {};
      assert matchedNames + {} == matchedNames;
    } else {
      assert (a + b)[0] == a[0];
      assert (a + b)[1..] == a[1..] + b;
      match FirstMatch(files, a[0], matchedNames)
      case None =>
        SelectFromConcat(a[1..], b, files, matchedNames);
      case Some(k) =>
        var taken := matchedNames + {Stem(files[k].name)};
        SelectFromConcat(a[1..], b, files, taken);
        var chosen := SelectFrom(a[1..], files, taken);
        StemsCons(files[k], chosen);
        assert taken + Stems(chosen) == matchedNames + Stems([files[k]] + chosen);
    }
  }

  /** One target chooses the first file, in folder order, that matches it and is not taken, or nothing. */
  lemma SelectOne(target: string, files: seq<PdfFile>, matchedNames: set<string>)
    ensures |SelectFrom([target], files, matchedNames)| <= 1
    ensures SelectFrom([target], files, matchedNames) == [] <==>
      forall j :: 0 <= j < |files| ==> !Matches(files[j], target, matchedNames)
    ensures forall k :: (0 <= k < |files| && Matches(files[k], target, matchedNames) &&
      (forall j :: 0 <= j < k ==> !Matches(files[j], target, matchedNames))) ==>
      SelectFrom([target], files, matchedNames) == [files[k]]
  {
    assert [target][1..] == [];
    match FirstMatch(files, target, matchedNames)
    case None =>
    case Some(i) =>
      assert Matches(files[i], target, matchedNames);
  }

  /** The stems and keys of the names used in the examples below. */
  lemma CaseExampleStems()
    ensures Stem("a.pdf") == "a" && Stem("A.pdf") == "A" && Stem("a") == "a"
    ensures ToLower("A") == "a" && ToLower("a") == "a"
  {
    StripPdfExtensionOf("a", ".pdf");
    assert "a" + ".pdf" == "a.pdf";
    StripPdfExtensionOf("A", ".pdf");
    assert "A" + ".pdf" == "A.pdf";
    StripPdfExtensionNoDot("a");
    ToLowerOfLower("a");
  }

  /** A name pasted twice takes a single `a.pdf` only once. */
  lemma RepeatedTargetTakesOneFile()
    ensures Select(["a", "a"], [PdfFile("a.pdf", 0)]) == [PdfFile("a.pdf", 0)]
  {
    CaseExampleStems();
    var a := PdfFile("a.pdf", 0);
    var twice, once: seq<string> := ["a", "a"], ["a"];
    assert twice[1..] == once;
    assert once[1..] == [];
    assert FirstMatch([a], "a", {}) == Some(0);
    assert FirstMatch([a], "a", {"a"}) == None;
    assert SelectFrom(once, [a], {"a"}) == [];
    assert {} + {Stem(a.name)} == {"a"};
    assert SelectFrom(twice, [a], {}) == [[a][0]] + SelectFrom(twice[1..], [a], {} + {Stem([a][0].name)});
  }

  /** A name pasted twice takes both `a.pdf` and `A.pdf`, since their stems differ in case. */
  lemma RepeatedTargetTakesEachCase()
    ensures Select(["a", "a"], [PdfFile("a.pdf", 0), PdfFile("A.pdf", 1)]) == [PdfFile("a.pdf", 0), PdfFile("A.pdf", 1)]
  {
    CaseExampleStems();
    var a, big := PdfFile("a.pdf", 0), PdfFile("A.pdf", 1);
    var twice, once: seq<string> := ["a", "a"], ["a"];
    assert twice[1..] == once;
    assert once[1..] == [];
    assert FirstMatch([a, big], "a", {}) == Some(0);
    assert FirstMatch([a, big], "a", {"a"}) == Some(1);
    assert FirstMatch([a, big], "a", {"a", "A"}) == None;
    assert SelectFrom(once, [a, big], {"a", "A"}) == [];
    assert SelectFrom(once, [a, big], {"a"}) == [big] + SelectFrom(once[1..], [a, big], {"a"} + {"A"});
    assert SelectFrom(twice, [a, big], {}) == [[a, big][0]] + SelectFrom(twice[1..], [a, big], {} + {Stem([a, big][0].name)});
  }

  /** A lower-case name without a dot is its own stem and key, with or without `.pdf` after it. */
  lemma PlainName(base: string)
    requires '.' !in base
    requires forall k :: 0 <= k < |base| ==> !('A' <= base[k] <= 'Z')
    ensures Stem(base + ".pdf") == base && Stem(base) == base && ToLower(base) == base
  {
    StripPdfExtensionOf(base, ".pdf");
    StripPdfExtensionNoDot(base);
    ToLowerOfLower(base);
  }

  /** `find` over two files. */
  lemma FirstMatchOfTwo(f0: PdfFile, f1: PdfFile, target: string, matchedNames: set<string>)
    ensures FirstMatch([f0, f1], target, matchedNames) ==
      if Matches(f0, target, matchedNames) then Some(0)
      else if Matches(f1, target, matchedNames) then Some(1)
      else None
  {
    assert [f0, f1][1..] == [f1];
    assert [f1][1..] == [];
  }

  /** A name with no file is skipped without a report: `x, y, z` against `x.pdf, y.pdf` selects both files. */
  lemma MissingNameIsSkipped(x: string, y: string, z: string)
    requires '.' !in x && '.' !in y && '.' !in z
    requires forall k :: 0 <= k < |x| ==> !('A' <= x[k] <= 'Z')
    requires forall k :: 0 <= k < |y| ==> !('A' <= y[k] <= 'Z')
    requires forall k :: 0 <= k < |z| ==> !('A' <= z[k] <= 'Z')
    requires x != y && z != x && z != y
    ensures Select([x, y, z], [PdfFile(x + ".pdf", 0), PdfFile(y + ".pdf", 1)]) ==
      [PdfFile(x + ".pdf", 0), PdfFile(y + ".pdf", 1)]
  {
    PlainName(x);
    PlainName(y);
    PlainName(z);
    var files := [PdfFile(x + ".pdf", 0), PdfFile(y + ".pdf", 1)];
    FirstMatchOfTwo(files[0], files[1], x, {});
    FirstMatchOfTwo(files[0], files[1], y, {x});
    FirstMatchOfTwo(files[0], files[1], z, {x, y});
    var t3, t2, t1: seq<string> := [x, y, z], [y, z], [z];
    assert t3[1..] == t2 && t2[1..] == t1 && t1[1..] == [];
    assert SelectFrom(t1, files, {x, y}) == [];
    assert {x} + {Stem(files[1].name)} == {x, y};
    assert SelectFrom(t2, files, {x}) == [files[1]];
    assert {} + {Stem(files[0].name)} == {x};
    assert SelectFrom(t3, files, {}) == [files[0]] + SelectFrom(t2, files, {x});
  }

  /**
   * The search loop (pdf-selector.js:75-102): targets in pasted order, the first
   * unmatched file for each, its stem recorded in `matchedNames`.
   */
  method SelectByNames(targets: seq<string>, files: seq<PdfFile>) returns (selected: seq<PdfFile>)
    ensures selected == Select(targets, files)
  {
    selected := [];
    var matchedNames: set<string> := {};
    var i := 0;
    while i < |targets|
      invariant 0 <= i <= |targets|
      invariant selected + SelectFrom(targets[i..], files, matchedNames) == Select(targets, files)
    {
      assert targets[i..][0] == targets[i];
      assert targets[i..][1..] == targets[i + 1..];
      var found := FirstMatch(files, targets[i], matchedNames);
      if found.Some? {
        var matchedFile := files[found.value];
        selected := selected + [matchedFile];
        matchedNames := matchedNames + {Stem(matchedFile.name)};
      }
      i := i + 1;
    }
  }

  // ---------------------------------------------------------------------------
  // Removing, the join guard and the joined name

  /** `selectedPdfs.filter(file => file.name !== fileName)`. */
  function RemoveByName(files: seq<PdfFile>, fileName: string): (r: seq<PdfFile>)
    ensures |r| <= |files|
    ensures forall f :: f in r <==> f in files && f.name != fileName
  {
    if files == [] then []
    else (if files[0].name != fileName then [files[0]] else []) + RemoveByName(files[1..], fileName)
  }

  /** Removal keeps the other files in their order: it works piece by piece. */
  lemma {:induction false} RemoveByNameConcat(a: seq<PdfFile>, b: seq<PdfFile>, fileName: string)
    ensures RemoveByName(a + b, fileName) == RemoveByName(a, fileName) + RemoveByName(b, fileName)
  {
    if a == [] {
      assert a + b == b;
    } else {
      assert (a + b)[0] == a[0];
      assert (a + b)[1..] == a[1..] + b;
      RemoveByNameConcat(a[1..], b, fileName);
    }
  }

  /** Files with another name are all kept, so removing a name nobody has changes nothing. */
  lemma {:induction false} RemoveAbsentName(files: seq<PdfFile>, fileName: string)
    requires forall k :: 0 <= k < |files| ==> files[k].name != fileName
    ensures RemoveByName(files, fileName) == files
  {
    if files != [] {
      RemoveAbsentName(files[1..], fileName);
      assert [files[0]] + files[1..] == files;
    }
  }

  /** Removing the same name twice removes nothing more. */
  lemma RemoveByNameIdempotent(files: seq<PdfFile>, fileName: string)
    ensures RemoveByName(RemoveByName(files, fileName), fileName) == RemoveByName(files, fileName)
  {
    var once := RemoveByName(files, fileName);
    forall k | 0 <= k < |once| ensures once[k].name != fileName {
      assert once[k] in once;
    }
    RemoveAbsentName(once, fileName);
  }

  /** The minimum of files the join asks for. */
  const MinFilesToJoin := 2

  /** What a join hands to the merging library: the files, in order, and the download name. */
  datatype JoinRequest = JoinRequest(files: seq<PdfFile>, fileName: string)

  /** The name of the joined file: the first two names, each without its first `.pdf`, with `_` between and `_joined.pdf` after. */
  function JoinedFileName(first: PdfFile, second: PdfFile): string
  {
    ReplaceFirst(first.name, ".pdf", "") + "_" + ReplaceFirst(second.name, ".pdf", "") + "_joined.pdf"
  }

  /** The join button's handler: nothing below two files, otherwise every selected file under the joined name. */
  function JoinSelection(selected: seq<PdfFile>): (r: Option<JoinRequest>)
    ensures r.None? <==> |selected| < MinFilesToJoin
    ensures r.Some? ==> r.value.files == selected && r.value.fileName == JoinedFileName(selected[0], selected[1])
  {
    if |selected| < MinFilesToJoin then None
    else Some(JoinRequest(selected, JoinedFileName(selected[0], selected[1])))
  }

  /** With names whose only `.pdf` is the extension, the joined name is `<first>_<second>_joined.pdf`. */
  lemma JoinedFileNameOfPdfs(base1: string, base2: string, h1: nat, h2: nat)
    requires forall j :: 0 <= j < |base1| ==> !OccursAt(base1 + ".pdf", ".pdf", j)
    requires forall j :: 0 <= j < |base2| ==> !OccursAt(base2 + ".pdf", ".pdf", j)
    ensures JoinedFileName(PdfFile(base1 + ".pdf", h1), PdfFile(base2 + ".pdf", h2)) ==
      base1 + "_" + base2 + "_joined.pdf"
  {
    ReplacePdfExtension(base1, "");
    ReplacePdfExtension(base2, "");
    assert base1 + "" == base1;
    assert base2 + "" == base2;
  }

  // ---------------------------------------------------------------------------
  // The selector's page state

  /** Which message a search ends with. */
  datatype SearchOutcome = NoNamesGiven | NoneFound | Found(count: nat)

  /** The globals `pdfNamesToMatch` and `selectedPdfs`, and the join button's `disabled` flag. */
  class SelectorSession {
    var namesToMatch: seq<string>
    var selectedPdfs: seq<PdfFile>
    var joinDisabled: bool

    /** The page as loaded: no names, nothing selected, the join button disabled. */
    constructor ()
      ensures namesToMatch == [] && selectedPdfs == [] && joinDisabled
    {
      namesToMatch := [];
      selectedPdfs := [];
      joinDisabled := true;
    }

    /** Editing the text area re-parses the whole text. */
    method OnNamesInput(text: string)
      modifies this
      ensures namesToMatch == ParseNames(text)
      ensures selectedPdfs == old(selectedPdfs) && joinDisabled == old(joinDisabled)
    {
      namesToMatch := ParseNames(text);
    }

    /**
     * The search button: the selection is cleared first; without names nothing is
     * matched and the join button is left as it was; otherwise the new selection is
     * matched and the join button is disabled below two files.
     */
    method OnSearch(files: seq<PdfFile>) returns (outcome: SearchOutcome)
      modifies this
      ensures namesToMatch == old(namesToMatch)
      ensures namesToMatch == [] ==>
        selectedPdfs == [] && joinDisabled == old(joinDisabled) && outcome == NoNamesGiven
      ensures namesToMatch != [] ==>
        selectedPdfs == Select(namesToMatch, files) &&
        joinDisabled == (|selectedPdfs| < MinFilesToJoin) &&
        outcome == (if selectedPdfs == [] then NoneFound else Found(|selectedPdfs|))
    {
      selectedPdfs := [];
      if |namesToMatch| == 0 {
        outcome := NoNamesGiven;
        return;
      }
      selectedPdfs := SelectByNames(namesToMatch, files);
      joinDisabled := |selectedPdfs| < MinFilesToJoin;
      outcome := if |selectedPdfs| == 0 then NoneFound else Found(|selectedPdfs|);
    }

    /** A remove button: every selected file with that exact name goes. */
    method OnRemove(fileName: string)
      modifies this
      ensures selectedPdfs == RemoveByName(old(selectedPdfs), fileName)
      ensures joinDisabled == (|selectedPdfs| < MinFilesToJoin)
      ensures namesToMatch == old(namesToMatch)
    {
      selectedPdfs := RemoveByName(selectedPdfs, fileName);
      joinDisabled := |selectedPdfs| < MinFilesToJoin;
    }

    /** The join button: checked again at click time, whatever the button's state. */
    method OnJoin() returns (request: Option<JoinRequest>)
      ensures request == JoinSelection(selectedPdfs)
    {
      request := JoinSelection(selectedPdfs);
    }
  }
}
