/**
 * The page-deletion editor (pdf-editor.js): one loaded document, a set of
 * 1-based page numbers marked for deletion that each thumbnail's button
 * toggles, and a save that copies every unmarked page, by 0-based index and in
 * order, into a new document named after the original.
 */
module Editor {
  import opened Wrappers
  import opened Text

  const PdfMimeType := "application/pdf"

  /** What replaces the first `.pdf` of the name of the saved file. */
  const ModifiedSuffix := "-modificado.pdf"

  // ---------------------------------------------------------------------------
  // Marking pages

  /** `togglePageDeletion`: the page's mark flips and no other page's does. */
  function Toggled(marked: set<int>, pageNumber: int): (r: set<int>)
    ensures pageNumber in r <==> pageNumber !in marked
    ensures forall q :: q != pageNumber ==> (q in r <==> q in marked)
  {
    if pageNumber in marked then marked - {pageNumber} else marked + {pageNumber}
  }

  /** Pressing the same page's button twice restores the marks. */
  lemma ToggleTwice(marked: set<int>, pageNumber: int)
    ensures Toggled(Toggled(marked, pageNumber), pageNumber) == marked
  {
  }

  /** Toggling two different pages gives the same marks in either order. */
  lemma ToggleCommutes(marked: set<int>, p: int, q: int)
    ensures Toggled(Toggled(marked, p), q) == Toggled(Toggled(marked, q), p)
  {
  }

  // ---------------------------------------------------------------------------
  // The pages to keep

  /** The marked page numbers that are pages of a document of `totalPages` pages. */
  function MarkedWithin(marked: set<int>, totalPages: nat): set<int>
  {
    set p | p in marked && 1 <= p <= totalPages
  }

  /** Strictly increasing. */
  predicate Increasing(s: seq<nat>)
  {
    forall i, j :: 0 <= i < j < |s| ==> s[i] < s[j]
  }

  /**
   * `keep` lists, in increasing order, the 0-based indices of the document's pages
   * whose 1-based numbers are not marked, and nothing else.
   */
  predicate IsKeepList(keep: seq<nat>, totalPages: nat, marked: set<int>)
  {
    Increasing(keep) &&
    (forall k :: 0 <= k < |keep| ==> keep[k] < totalPages) &&
    (forall i :: 0 <= i < totalPages ==> (i in keep <==> i + 1 !in marked))
  }

  /** The loop of `saveModifiedPDF` that collects the indices of the pages to keep. */
  method PagesToKeep(totalPages: nat, deletedPages: set<int>) returns (pagesToKeep: seq<nat>)
    ensures IsKeepList(pagesToKeep, totalPages, deletedPages)
    ensures |pagesToKeep| == totalPages - |MarkedWithin(deletedPages, totalPages)|
  {
    pagesToKeep := [];
    for i := 0 to totalPages
      invariant Increasing(pagesToKeep)
      invariant forall k :: 0 <= k < |pagesToKeep| ==> pagesToKeep[k] < i
      invariant forall j :: 0 <= j < i ==> (j in pagesToKeep <==> j + 1 !in deletedPages)
      invariant |pagesToKeep| == i - |MarkedWithin(deletedPages, i)|
    {
      assert MarkedWithin(deletedPages, i + 1) ==
        MarkedWithin(deletedPages, i) + (if i + 1 in deletedPages then {i + 1} else {});
      if i + 1 !in deletedPages {
        pagesToKeep := pagesToKeep + [i];
      }
    }
  }

  /** Two strictly increasing lists with the same elements are the same list. */
  lemma {:induction false} IncreasingSameElements(a: seq<nat>, b: seq<nat>)
    requires Increasing(a) && Increasing(b)
    requires forall x :: x in a <==> x in b
    ensures a == b
    decreases |a|
  {
    assert b != [] ==> b[0] in b;
    if a != [] {
      assert a[0] in b;
      assert b != [];
      assert b[0] in a;
      var i :| 0 <= i < |a| && a[i] == b[0];
      var j :| 0 <= j < |b| && b[j] == a[0];
      assert a[0] <= a[i] && b[0] <= b[j];
      assert a[0] == b[0];
      forall x ensures x in a[1..] <==> x in b[1..] {
        if x in a[1..] {
          var m :| 1 <= m < |a| && a[m] == x;
          assert a[0] < a[m];
        }
        if x in b[1..] {
          var m :| 1 <= m < |b| && b[m] == x;
          assert b[0] < b[m];
        }
        assert x in a <==> x == a[0] || x in a[1..] by { assert a == [a[0]] + a[1..]; }
        assert x in b <==> x == b[0] || x in b[1..] by { assert b == [b[0]] + b[1..]; }
      }
      IncreasingSameElements(a[1..], b[1..]);
      assert a == [a[0]] + a[1..] && b == [b[0]] + b[1..];
    }
  }

  /** The pages to keep are determined by the page count and the marks alone. */
  lemma KeepListUnique(a: seq<nat>, b: seq<nat>, totalPages: nat, marked: set<int>)
    requires IsKeepList(a, totalPages, marked) && IsKeepList(b, totalPages, marked)
    ensures a == b
  {
    forall x ensures x in a <==> x in b {
      if x in a {
        var k :| 0 <= k < |a| && a[k] == x;
        assert x < totalPages;
      }
      if x in b {
        var k :| 0 <= k < |b| && b[k] == x;
        assert x < totalPages;
      }
    }
    IncreasingSameElements(a, b);
  }

  /** Marks outside the document take no page away; with no mark every page is kept. */
  lemma KeepAllWithoutMarks(keep: seq<nat>, totalPages: nat, marked: set<int>)
    requires IsKeepList(keep, totalPages, marked)
    requires forall p :: p in marked ==> !(1 <= p <= totalPages)
    ensures keep == seq(totalPages, i requires 0 <= i < totalPages => i as nat)
  {
    var all := seq(totalPages, i requires 0 <= i < totalPages => i as nat);
    assert IsKeepList(all, totalPages, marked) by {
      forall i | 0 <= i < totalPages ensures i in all { assert all[i] == i; }
    }
    KeepListUnique(keep, all, totalPages, marked);
  }

  // ---------------------------------------------------------------------------
  // The name of the saved file

  /** `pdfName.replace('.pdf', '-modificado.pdf')`. */
  function ModifiedName(pdfName: string): string
  {
    ReplaceFirst(pdfName, ".pdf", ModifiedSuffix)
  }

  /** A name whose only `.pdf` is its extension gets `-modificado` before it. */
  lemma ModifiedNameOf(base: string)
    requires forall j :: 0 <= j < |base| ==> !OccursAt(base + ".pdf", ".pdf", j)
    ensures ModifiedName(base + ".pdf") == base + "-modificado.pdf"
  {
    ReplacePdfExtension(base, ModifiedSuffix);
  }

  /** Only the first `.pdf` is rewritten: `a.pdf.pdf` is saved as `a-modificado.pdf.pdf`. */
  lemma ModifiedNameFirstOccurrence()
    ensures ModifiedName("a.pdf.pdf") == "a" + ModifiedSuffix + ".pdf"
  {
    var s := "a.pdf.pdf";
    assert s == "a" + ".pdf" + ".pdf";
    assert !OccursAt(s, ".pdf", 0) by { assert s[0] != ".pdf"[0]; }
    ReplaceFirstSplit("a", ".pdf", ".pdf", ModifiedSuffix);
  }

  // ---------------------------------------------------------------------------
  // The editor's page state

  /** The file chosen in the picker; `numPages` is `None` when the rendering library cannot load it. */
  datatype SelectedFile = SelectedFile(name: string, mimeType: string, numPages: Option<nat>)

  /** What a save hands to the document library: the 0-based pages to copy and the download name. */
  datatype SavePlan = SavePlan(pagesToKeep: seq<nat>, fileName: string)

  /** The globals `pdfDocument` (whether one is loaded), `pdfName`, `totalPages` and `deletedPages`. */
  class PageEditor {
    var documentLoaded: bool
    var pdfName: string
    var totalPages: nat
    var deletedPages: set<int>

    /** The page as loaded: no document, no name, no pages, no marks. */
    constructor ()
      ensures !documentLoaded && pdfName == [] && totalPages == 0 && deletedPages == {}
    {
      documentLoaded := false;
      pdfName := [];
      totalPages := 0;
      deletedPages := {};
    }

    /**
     * `handleFileSelect`: a missing or non-PDF file changes nothing; otherwise the
     * name is taken and the marks cleared, and the page count is taken only if the
     * library loads the document (on failure no document is loaded and the old
     * count stays).
     */
    method HandleFileSelect(file: Option<SelectedFile>)
      modifies this
      ensures file.None? || file.value.mimeType != PdfMimeType ==>
        documentLoaded == old(documentLoaded) && pdfName == old(pdfName) &&
        totalPages == old(totalPages) && deletedPages == old(deletedPages)
      ensures file.Some? && file.value.mimeType == PdfMimeType ==>
        pdfName == file.value.name && deletedPages == {} &&
        documentLoaded == file.value.numPages.Some? &&
        totalPages == (if file.value.numPages.Some? then file.value.numPages.value else old(totalPages))
    {
      if file.None? || file.value.mimeType != PdfMimeType {
        return;
      }
      documentLoaded := false;
      pdfName := file.value.name;
      deletedPages := {};
      match file.value.numPages
      case Some(n) =>
        documentLoaded := true;
        totalPages := n;
      case None =>
    }

    /** A thumbnail's delete button: the page's mark flips. */
    method TogglePageDeletion(pageNumber: int)
      modifies this
      ensures deletedPages == Toggled(old(deletedPages), pageNumber)
      ensures documentLoaded == old(documentLoaded) && pdfName == old(pdfName) && totalPages == old(totalPages)
    {
      if pageNumber in deletedPages {
        deletedPages := deletedPages - {pageNumber};
      } else {
        deletedPages := deletedPages + {pageNumber};
      }
    }

    /**
     * `saveModifiedPDF`: nothing without a document or without a marked page;
     * otherwise the unmarked pages, as 0-based indices in order, go to a file
     * named after the original.
     */
    method SaveModifiedPdf() returns (plan: Option<SavePlan>)
      ensures plan.None? <==> !documentLoaded || deletedPages == {}
      ensures plan.Some? ==>
        IsKeepList(plan.value.pagesToKeep, totalPages, deletedPages) &&
        |plan.value.pagesToKeep| == totalPages - |MarkedWithin(deletedPages, totalPages)| &&
        plan.value.fileName == ModifiedName(pdfName)
    {
      if !documentLoaded || |deletedPages| == 0 {
        return None;
      }
      var pagesToKeep := PagesToKeep(totalPages, deletedPages);
      plan := Some(SavePlan(pagesToKeep, ModifiedName(pdfName)));
    }

    /** `clearAll`: no document, no pages, no marks; the name is left as it was. */
    method ClearAll()
      modifies this
      ensures !documentLoaded && totalPages == 0 && deletedPages == {}
      ensures pdfName == old(pdfName)
    {
      documentLoaded := false;
      totalPages := 0;
      deletedPages := {};
    }
  }
}
