# PDF tools: selector, joiner and page editor

This project models the in-memory logic of three browser PDF tools and proves
properties of it in Dafny:

- **Name-based selector** (`selector.dfy`, module `Selector`). Pasted text is split into
  lines. Each line is trimmed and blank lines are dropped, which gives the target names.
  A search walks the targets in pasted order. For each one it picks the first file of the
  chosen folder whose name, without a trailing `.pdf` of any case, equals the target's
  name, also without a trailing `.pdf`, ignoring case, as long as that case-preserved
  stem has not been picked yet. The
  picked files can be removed by exact name. They can be joined once there are at least
  two, under `<first>_<second>_joined.pdf`, where each part has its first `.pdf` removed.
- **Joiner** (`joiner.dfy`, module `Joiner`). An ordered list of entries (name, size, bytes,
  page count):
  - Picked files are appended when they are PDFs the library can load.
  - An entry can move one place up or down, or be removed with `splice(index, 1)`.
  - The list can be cleared.
  - The join button is disabled exactly when fewer than two entries are listed.
  - A join of two entries is named `<first>_<second>.pdf`, each without its first `.pdf`. A join of more is named
    `<prefix>-joined.pdf` when the names, each without its first `.pdf`, share a prefix of
    at least three UTF-16 code units, and `joined-document.pdf` otherwise.
- **Page editor** (`editor.dfy`, module `Editor`). One loaded document and a set of 1-based
  page numbers marked for deletion:
  - Each thumbnail's button toggles its page's mark.
  - Loading a file and clearing both empty the marks; clearing also sets the page count to 0.
  - Saving does nothing without a document or without marks. Otherwise it lists, in
    increasing order, the 0-based indices of the unmarked pages, and names the output
    after the input with its first `.pdf` replaced by `-modificado.pdf`.

`text.dfy` (module `Text`) gives the JavaScript string operations these rely on, on
`seq<char>`: `split`, `join`, `trim` (the full ECMAScript whitespace set), `toLowerCase`
(ASCII letters), `indexOf`, `replace` with a string pattern (first occurrence only,
case-sensitive) and `replace(/\.pdf$/i, '')` (trailing only, ASCII case-insensitive).
`wrappers.dfy` holds the `Option` type.

The model's strings are sequences of Unicode characters; `Text.Utf16` gives the UTF-16
code units a JavaScript string holds for one, and `Text.Utf16Decode` reads them back.
Only `findCommonPrefix` counts or indexes a string, so only there does the difference
show: a character above U+FFFF counts two towards its minimum of three, and the prefix
it returns may end between the two halves of a surrogate pair. The joiner's prefix, its
joined name and its `joinedPdfName` are therefore code-unit sequences. Every other
string operation of the source gives the same result on characters as on code units,
because its patterns (`.pdf`, `\n`, whitespace) are single code units and no half of a
surrogate pair is one of them.

Each tool's global state is a class: `Selector.SelectorSession`, `Joiner.JoinList` and
`Editor.PageEditor`. Each event handler is a method whose `ensures` gives the whole new
state in terms of pure functions, and the lemmas about those functions state what the
tools promise. The loops of the source stay loops:
- the search over the targets (`Selector.SelectByNames`);
- the prefix count of `findCommonPrefix` (`Joiner.FindCommonPrefix`);
- the file-adding loop (`Joiner.JoinList.HandlePdfAdd`);
- the page-collecting loop of the save (`Editor.PagesToKeep`).

The selector reports no duplicate, ambiguous or unmatched names: a repeated name takes
the next unmatched file with the same stem, of several matching files the first wins,
and a name without a file is skipped. The model follows the code.

## Model

| member | source | states |
|---|---|---|
| Text.Split | pdf-selector.js:55 | `s.split('\n')`: the pieces between separators, at least one; `JoinSplit`, `SplitJoin`, `SplitPartsLackSeparator` and `SplitConcat` state its meaning |
| Text.JoinSplit | pdf-selector.js:55 | joining the pieces of `split('\n')` with `'\n'` gives the text back |
| Text.SplitJoin | pdf-selector.js:55 | splitting pieces that hold no `'\n'`, after joining them, gives the pieces back |
| Text.SplitPartsLackSeparator | pdf-selector.js:55 | no piece of a split holds the separator |
| Text.SplitConcat | pdf-selector.js:55 | `split` of `a + '\n' + b` is the split of `a` followed by the split of `b` |
| Text.Trim | pdf-selector.js:56 | the result is the slice of the input left after its leading and trailing ECMAScript whitespace, which it neither starts nor ends with |
| Text.TrimIdempotent | pdf-selector.js:56 | trimming twice is trimming once |
| Text.ToLower | pdf-selector.js:85 | `toLowerCase` on ASCII letters: same length, each character lower-cased by itself (see Left out); `ToLowerOfLower` and `ToLowerIdempotent` state it |
| Text.ToLowerOfLower | pdf-selector.js:85 | a string without upper-case ASCII letters is its own lower case |
| Text.ToLowerIdempotent | pdf-selector.js:85 | lower-casing twice gives the same as lower-casing once |
| Text.StripPdfExtension | pdf-selector.js:81-82 | `replace(/\.pdf$/i, '')`: the name less its last four characters when they lower-case to `.pdf`, otherwise the name; `StripPdfExtensionOf`, `StripPdfExtensionNoDot` and `StripPdfExtensionExamples` state it |
| Text.StripPdfExtensionOf | pdf-selector.js:81-82 | a base followed by any 4-character extension that lower-cases to `.pdf` strips back to the base |
| Text.StripPdfExtensionExamples | pdf-selector.js:92 | only one trailing `.pdf` goes: `a.pdf.PDF` gives `a.pdf`; `a.pdf.txt` and `pdf` are unchanged |
| Text.StripPdfExtensionNoDot | pdf-selector.js:81 | a name without a dot has nothing stripped |
| Text.IndexOf | pdf-joiner.js:184 | the result is the first index at which the pattern occurs, or none when it occurs nowhere |
| Text.ReplaceFirst | pdf-joiner.js:184 | `replace(pat, rep)` with a string pattern: the first occurrence `IndexOf` finds is replaced, nothing otherwise; `ReplaceFirstSplit`, `ReplaceFirstAbsent`, `ReplacePdfExtension` and `ReplaceFirstCaseSensitive` state it |
| Text.ReplaceFirstSplit | pdf-joiner.js:217 | for `a + pat + b` where `pat` does not start earlier, the string-pattern `replace` gives `a + rep + b` |
| Text.ReplaceFirstAbsent | pdf-editor.js:201 | without an occurrence, `replace` changes nothing |
| Text.ReplacePdfExtension | pdf-joiner.js:184-185 | a name whose only `.pdf` is its extension has that extension replaced |
| Text.ReplaceFirstExample | pdf-selector.js:149 | for a dot-free `a`, `a.pdf.pdf` with its first `.pdf` removed is `a.pdf` |
| Text.ReplacePdfExtensionNoDot | pdf-joiner.js:217 | a dot-free base followed by `.pdf` has exactly that extension replaced |
| Text.ReplaceFirstCaseSensitive | pdf-selector.js:149 | `B.PDF` is left unchanged by `replace('.pdf', '')` |
| Text.Utf16 | pdf-joiner.js:218 | the code units a JavaScript string holds, at least one per character; `Utf16RoundTrip`, `Utf16Concat` and `Utf16Bmp` state it |
| Text.CharUnits | pdf-joiner.js:218 | a character below U+10000 is one code unit, its own value; above it, a high surrogate followed by a low one |
| Text.Utf16RoundTrip | pdf-joiner.js:218 | decoding the code units of any string gives the string back |
| Text.Utf16Concat | pdf-joiner.js:218 | the code units of `a + b` are those of `a` followed by those of `b` |
| Text.Utf16Bmp | pdf-joiner.js:218 | a string of characters below U+10000 has one code unit per character, each its value |
| Text.AsciiIsUtf16 | pdf-joiner.js:190 | the code units of an ASCII string are its character values |
| Text.DecodeLoneHighSurrogate | pdf-joiner.js:232 | a high surrogate without a low one after it leaves the code units undecodable |
| Text.Utf16Astral | pdf-joiner.js:218 | U+1F600 is the two code units `D83D DE00` |
| Selector.ParseNames | pdf-selector.js:55-57 | the pasted text split into lines, each trimmed, blank ones dropped; `ParsedNamesAreTrimmed`, `ParseNamesConcat`, `ParseNamesLine` and `ParseNamesOfLines` state it |
| Selector.ParsedNamesAreTrimmed | pdf-selector.js:55-57 | every parsed name is non-empty and equal to its own trim |
| Selector.ParseNamesConcat | pdf-selector.js:55-57 | the names of `a + '\n' + b` are those of `a` followed by those of `b`, so names keep the order of the lines |
| Selector.ParseNamesLine | pdf-selector.js:55-57 | one line gives its trim as the only name, or no name when it is blank |
| Selector.ParseNamesOfLines | pdf-selector.js:55-57 | non-empty, trimmed names pasted one per line parse back to the same list |
| Selector.Stem | pdf-selector.js:81-82 | a file or target name without a trailing `.pdf` of any case, the key kept in `matchedNames` (line 92) |
| Selector.Matches | pdf-selector.js:81-86 | the `find` test: same stem ignoring case and a stem not yet matched; `FirstMatch` and `SelectOne` state its use |
| Selector.FirstMatch | pdf-selector.js:79-87 | the result is the index of the first file, in folder order, whose stem equals the target's ignoring case and is not already matched; none when no file qualifies |
| Selector.SelectFrom | pdf-selector.js:78-102 | the files the `forEach` over the targets chooses, given the stems already matched; `SelectFromSound`, `SelectFromDistinct`, `SelectFromConcat` and `SelectOne` state it |
| Selector.Select | pdf-selector.js:75-102 | the search from an empty `matchedNames`; `SelectByNames` is proved equal to it |
| Selector.SelectFromSound | pdf-selector.js:78-101 | at most one file per target; every chosen file is in the folder, has the stem of some target ignoring case, and has a stem not taken before |
| Selector.SelectFromDistinct | pdf-selector.js:75-92 | no two chosen files share a case-preserved stem |
| Selector.SelectFromConcat | pdf-selector.js:78-102 | the targets `a + b` choose the files of `a`, then the files of `b` with `a`'s stems taken: targets are served one by one, in order |
| Selector.SelectOne | pdf-selector.js:79-92 | one target chooses nothing exactly when no unmatched file matches it, and otherwise the first such file in folder order |
| Selector.RepeatedTargetTakesOneFile | pdf-selector.js:75-92 | `a` pasted twice selects `a.pdf` once against `[a.pdf]` |
| Selector.RepeatedTargetTakesEachCase | pdf-selector.js:75-92 | `a` pasted twice selects `a.pdf` then `A.pdf` against `[a.pdf, A.pdf]`, since the taken stems keep their case |
| Selector.PlainName | pdf-selector.js:81-85 | a lower-case, dot-free base is its own stem and key, with or without `.pdf` after it |
| Selector.MissingNameIsSkipped | pdf-selector.js:78-102 | for three distinct plain names `x, y, z` against `x.pdf, y.pdf`, both files are selected and the name without a file adds nothing |
| Selector.SelectByNames | pdf-selector.js:75-102 | the loop over the targets with its `matchedNames` set computes exactly the specified selection |
| Selector.RemoveByName | pdf-selector.js:111 | a file stays exactly when it was selected and has another name |
| Selector.RemoveByNameConcat | pdf-selector.js:111 | removal works piece by piece, so it keeps the remaining files in order |
| Selector.RemoveAbsentName | pdf-selector.js:111 | removing a name no selected file has changes nothing |
| Selector.RemoveByNameIdempotent | pdf-selector.js:111 | removing the same name twice removes nothing more |
| Selector.JoinedFileName | pdf-selector.js:148-151 | the first two names, each without its first `.pdf`, joined by `_`, then `_joined.pdf`; `JoinedFileNameOfPdfs` states it |
| Selector.JoinSelection | pdf-selector.js:127-151 | nothing happens below two files; otherwise all selected files, in order, are joined under the name built from the first two |
| Selector.JoinedFileNameOfPdfs | pdf-selector.js:148-151 | for names `x.pdf`, `y.pdf` whose only `.pdf` is the extension, the joined name is `x_y_joined.pdf` |
| Selector.SelectorSession.constructor | pdf-selector.js:1-35 | no names, nothing selected, join button disabled |
| Selector.SelectorSession.OnNamesInput | pdf-selector.js:53-58 | the names are the parse of the whole new text; nothing else changes |
| Selector.SelectorSession.OnSearch | pdf-selector.js:61-122 | the selection is cleared; with no names nothing is matched and the join button keeps its state; otherwise the selection is the specified one and the button is disabled below two files |
| Selector.SelectorSession.OnRemove | pdf-selector.js:109-114 | the selection loses every file with that exact name; join disabled iff fewer than two remain |
| Selector.SelectorSession.OnJoin | pdf-selector.js:126-151 | the join asked for is the one `JoinSelection` gives for the current selection |
| Joiner.Accepted | pdf-joiner.js:29-51 | the entries the picked files add, in order, at most one per file; `AcceptedConcat` and `AcceptedSingle` state it |
| Joiner.AcceptedConcat | pdf-joiner.js:29-51 | files picked as `a + b` add the entries of `a`, then those of `b` |
| Joiner.AcceptedSingle | pdf-joiner.js:32-51 | a file adds its entry exactly when its type is PDF and the library loads it |
| Joiner.Moved | pdf-joiner.js:111-120 | the list after `movePdf`; `MovedUp`, `MovedDown`, `MovedAtEdges`, `MovedIsPermutation` and `MoveUpThenDown` state it |
| Joiner.MovedUp | pdf-joiner.js:112-115 | moving up at `i > 0` swaps positions `i - 1` and `i`; the other entries and the length stay |
| Joiner.MovedDown | pdf-joiner.js:116-119 | moving down above the last index swaps positions `i` and `i + 1`; the other entries and the length stay |
| Joiner.MovedAtEdges | pdf-joiner.js:111-120 | up at index 0 and down at the last index leave the list unchanged |
| Joiner.MovedIsPermutation | pdf-joiner.js:111-120 | every move leaves a permutation of the list |
| Joiner.MoveUpThenDown | pdf-joiner.js:111-120 | moving an entry up and then down again restores the list |
| Joiner.SwapKeepsEntries | pdf-joiner.js:117-119 | swapping two neighbours keeps the multiset of entries |
| Joiner.SwapKeepsEntriesReversed | pdf-joiner.js:113-115 | the same swap with its two writes in the other order keeps the multiset too |
| Joiner.SwapSlices | pdf-joiner.js:113-119 | a list that differs from another only by exchanging two neighbours has the same entries |
| Joiner.SpliceStart | pdf-joiner.js:127 | where `splice` starts: the index itself when within the list, the length past it, counted from the end when negative |
| Joiner.Spliced | pdf-joiner.js:127 | the list after `splice(index, 1)`; `SplicedAt` and `SplicedOutOfRange` state it |
| Joiner.SplicedAt | pdf-joiner.js:127 | for a valid index exactly that entry goes: the length drops by one and the others keep their order |
| Joiner.SplicedOutOfRange | pdf-joiner.js:127 | an index past the end removes nothing; `-1` removes the last entry |
| Joiner.CommonPrefix2 | pdf-joiner.js:222-229 | the result is a prefix of both sequences and, when shorter than both, is followed by different elements |
| Joiner.CommonPrefix2Longest | pdf-joiner.js:222-229 | every common prefix of two sequences is a prefix of the computed one |
| Joiner.LongestCommonPrefix | pdf-joiner.js:221-232 | the longest prefix shared by all names, a common prefix by its own ensures; `LongestCommonPrefixIsLongest` shows no common prefix is longer |
| Joiner.LongestCommonPrefixIsLongest | pdf-joiner.js:222-229 | every common prefix of all names is a prefix of their longest common prefix |
| Joiner.Stripped | pdf-joiner.js:217 | each name with its first `.pdf` removed, as UTF-16 code units, one per name and in order |
| Joiner.MinLength | pdf-joiner.js:218 | the result is the length, in code units, of some name and at most the length of each |
| Joiner.CommonNamePrefix | pdf-joiner.js:213-234 | what `findCommonPrefix` returns; `CommonNamePrefixMeaning` states it and `FindCommonPrefix` is proved equal to it |
| Joiner.CommonNamePrefixMeaning | pdf-joiner.js:213-234 | `''` for no names; otherwise either the longest common code-unit prefix of the stripped names, of at least 3 code units, or `''` when no common prefix reaches 3 |
| Joiner.FindCommonPrefix | pdf-joiner.js:213-234 | the counting loop returns exactly the specified prefix |
| Joiner.PrefixUpToMismatch | pdf-joiner.js:221-232 | a common prefix of the first name that reaches the shortest name or ends at a mismatch is the longest one |
| Joiner.CommonPrefixExtends | pdf-joiner.js:222-225 | a common prefix grows by one when all names share the next code unit |
| Joiner.LongestCommonPrefixOfSiblings | pdf-joiner.js:222-229 | names that all extend `p` by one element, the first two by different ones, have `p` as their longest common prefix |
| Joiner.JoinedName | pdf-joiner.js:155-158 | there is a name exactly when at least two entries are listed |
| Joiner.JoinedNameOfTwo | pdf-joiner.js:182-186 | two names `x.pdf`, `y.pdf` whose only `.pdf` is the extension give the code units of `x_y.pdf` |
| Joiner.JoinedNameOfMany | pdf-joiner.js:187-191 | three or more names give the common code-unit prefix followed by `-joined.pdf` when that prefix has at least 3 code units, and `joined-document.pdf` otherwise |
| Joiner.StrippedNoDot | pdf-joiner.js:217 | a dot-free base followed by `.pdf` strips to the code units of the base |
| Joiner.StrippedLastChar | pdf-joiner.js:217 | a dot-free stem and one more character, followed by `.pdf`, strip to the stem's code units followed by the character's |
| Joiner.JoinedNameOfSiblings | pdf-joiner.js:187-191 | three such names whose code units first differ at their last unit are joined after all the units before it, if at least 3 |
| Joiner.SurrogatePairCountsTwice | pdf-joiner.js:218-233 | names like `😀a1.pdf`, `😀a2.pdf`, `😀a3.pdf` share two characters but three code units, and are joined as `😀a-joined.pdf` |
| Joiner.PrefixSplitsSurrogatePair | pdf-joiner.js:222-233 | names like `ab😀.pdf`, `ab😁.pdf`, `ab😂.pdf` are joined under `ab`, a lone high surrogate and `-joined.pdf`, which decodes to no string |
| Joiner.JoinList.constructor | pdf-joiner.js:2-3 | an empty list, the default name in code units and a disabled join button |
| Joiner.JoinList.HandlePdfAdd | pdf-joiner.js:19-69 | the accepted files are appended in order after the existing entries; join disabled iff fewer than two |
| Joiner.JoinList.MovePdf | pdf-joiner.js:111-123 | the list becomes the moved list; the join state stays |
| Joiner.JoinList.RemovePdf | pdf-joiner.js:126-139 | the list becomes `splice(index, 1)` of the old one; join disabled iff fewer than two |
| Joiner.JoinList.ClearPdfs | pdf-joiner.js:142-151 | the list is empty and the join button disabled |
| Joiner.JoinList.JoinPdfs | pdf-joiner.js:154-194 | below two entries nothing happens; otherwise the entries, in order, are joined under `JoinedName`, whose code units are kept in `joinedPdfName` |
| Editor.Toggled | pdf-editor.js:132-149 | the page's mark flips and no other page's mark changes |
| Editor.ToggleTwice | pdf-editor.js:133-149 | toggling the same page twice restores the marks |
| Editor.ToggleCommutes | pdf-editor.js:133-149 | toggling two pages gives the same marks in either order |
| Editor.IsKeepList | pdf-editor.js:181-186 | a strictly increasing list of 0-based indices below the page count holding exactly the unmarked pages; `PagesToKeep` meets it and `KeepListUnique` shows it fixes the list |
| Editor.PagesToKeep | pdf-editor.js:181-186 | the list is strictly increasing, within `[0, totalPages)`, holds `i` iff page `i + 1` is unmarked, and has `totalPages - |marked pages within 1..totalPages|` entries |
| Editor.IncreasingSameElements | pdf-editor.js:181-186 | two strictly increasing lists with the same elements are equal |
| Editor.KeepListUnique | pdf-editor.js:181-186 | the pages to keep are fixed by the page count and the marks alone |
| Editor.KeepAllWithoutMarks | pdf-editor.js:181-186 | with no mark inside the document every index `0 .. totalPages - 1` is kept |
| Editor.ModifiedName | pdf-editor.js:201 | the save name: the first `.pdf` replaced by `-modificado.pdf`; `ModifiedNameOf` and `ModifiedNameFirstOccurrence` state it |
| Editor.ModifiedNameOf | pdf-editor.js:201 | `x.pdf` whose only `.pdf` is the extension is saved as `x-modificado.pdf` |
| Editor.ModifiedNameFirstOccurrence | pdf-editor.js:201 | only the first `.pdf` is rewritten: `a.pdf.pdf` becomes `a-modificado.pdf.pdf` |
| Editor.PageEditor.constructor | pdf-editor.js:12-17 | no document, no name, no pages, no marks |
| Editor.PageEditor.HandleFileSelect | pdf-editor.js:24-64 | a missing or non-PDF file changes nothing; otherwise the name is taken and the marks cleared, and the document and page count are taken only if loading succeeds |
| Editor.PageEditor.TogglePageDeletion | pdf-editor.js:132-157 | the marks become the toggled set; nothing else changes |
| Editor.PageEditor.SaveModifiedPdf | pdf-editor.js:160-201 | nothing without a document or marks; otherwise the pages to keep are the specified list and the name is the rewritten one |
| Editor.PageEditor.ClearAll | pdf-editor.js:225-237 | no document, no pages, no marks; the name is left as it was |

## Left out

- Rendering and thumbnails (pdf-editor.js:50, 77-129) are foreign library and canvas work. A document's page count, and whether the library can load a file, are inputs.
- Building, copying, adding and saving PDF pages (pdf-joiner.js:42, 168-179; pdf-selector.js:133-145; pdf-editor.js:177-198) are foreign library calls. The model stops at the request it hands over: the files or pages, in order, and the download name.
- Browser I/O is left out: `FileReader`, `Blob`, object URLs and download links (pdf-editor.js:67-74, 215-223; pdf-selector.js:154-158).
- DOM construction, `innerHTML` templates, event wiring, alerts and info texts are left out, and so is the save button's enabled state. The selector's alert choice is kept only as `SearchOutcome`.
- The `.remove-btn` selector is shared by both tools (pdf-selector.js:108; pdf-joiner.js:105). That coupling between the two pages' listeners is DOM wiring and is not modelled.
- `formatFileSize` (pdf-joiner.js:206-210) rests on floating-point division and `toFixed`. Entries keep the raw byte count.
- Async interleaving is not modelled: each handler runs to completion. Exceptions from the libraries are modelled only as a file that is skipped or not loaded.
- Joiner.Stripped: removes `.pdf` from the characters and then encodes, rather than removing it from the code units as JavaScript does. The two agree because the pattern is ASCII and no half of a surrogate pair is ASCII; that agreement is argued here, not proved.
- Text.ToLower: lower-cases ASCII letters only, where JavaScript's `toLowerCase` lower-cases all of Unicode. Names differing only in non-ASCII case match in the browser but not in the model.
- Joiner.JoinList.MovePdf: requires an index inside the list. The move buttons exist only for such indices (pdf-joiner.js:87-88). Out-of-range JavaScript array writes, which would create holes, are not modelled.
- `replace` special replacement patterns such as `$&` do not arise, because every replacement string in the source is a fixed literal without `$`.
- The joiner's join button is assumed to start disabled. Its initial state comes from the page's HTML, which is not part of this model; the selector's is disabled by its own markup (pdf-selector.js:35).
