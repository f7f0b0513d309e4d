/** `extract_text_chunks`: one chunk per page whose stripped text is not
    empty, numbered from 1 and tagged with the document's base name. */
module Extraction {
  import opened Wrappers
  import opened Strings
  import opened Paths
  import opened Chunks

  /** What the PDF reader delivered for one file: the texts of the pages it
      yielded, in order, and whether it stopped with an error (a file that
      cannot be opened yields no page and `failed`). The error is caught and
      only reported, so `failed` does not change the result. */
  datatype PageTexts = PageTexts(pages: seq<string>, failed: bool)

  /** The chunks of a document whose successive page texts are `pages`. */
  function PageChunks<S>(document: string, pages: seq<string>): seq<Chunk<S>>
  {
    if pages == [] then []
    else
      var text := Strip(pages[|pages| - 1]);
      PageChunks<S>(document, pages[..|pages| - 1])
        + (if text == [] then [] else [Chunk(document, |pages|, text, None)])
  }

  /** The page loop of `extract_text_chunks`, appending as it goes. */
  method ExtractTextChunks<S>(pdfPath: string, pdf: PageTexts) returns (chunks: seq<Chunk<S>>)
    ensures chunks == PageChunks(Basename(pdfPath), pdf.pages)
  {
    var document := Basename(pdfPath);
    chunks := [];
    for i := 0 to |pdf.pages|
      invariant chunks == PageChunks(document, pdf.pages[..i])
    {
      PageChunksStep<S>(document, pdf.pages, i);
      var text := Strip(pdf.pages[i]);
      if text != [] {
        chunks := chunks + [Chunk(document, i + 1, text, None)];
      }
    }
    assert pdf.pages[..|pdf.pages|] == pdf.pages;
  }

  /** One more page read extends the chunks by at most that page's chunk. */
  lemma PageChunksStep<S>(document: string, pages: seq<string>, i: nat)
    requires i < |pages|
    ensures PageChunks<S>(document, pages[..i + 1]) == PageChunks<S>(document, pages[..i])
      + (if Strip(pages[i]) == [] then [] else [Chunk(document, i + 1, Strip(pages[i]), None)])
  {
    assert pages[..i + 1][..i] == pages[..i];
  }

  /** `c` belongs to `document` and holds the stripped text of the page its
      (1-based) number names. */
  ghost predicate OfPage<S>(document: string, pages: seq<string>, c: Chunk<S>) {
    c.document == document && 1 <= c.page <= |pages| && c.text == Strip(pages[c.page - 1])
  }

  /** A chunk of the first `n` pages is a chunk of the whole document. */
  lemma OfPagePrefix<S>(document: string, pages: seq<string>, n: nat, c: Chunk<S>)
    requires n <= |pages| && OfPage(document, pages[..n], c)
    ensures OfPage(document, pages, c)
  {
    assert pages[..n][c.page - 1] == pages[c.page - 1];
  }

  /** Writing a score into a chunk does not change which page it holds. */
  lemma OfPageRescored<S>(document: string, pages: seq<string>, c: Chunk<S>, score: Option<S>)
    requires OfPage(document, pages, c)
    ensures OfPage(document, pages, c.(score := score))
  {
  }

  /** Every chunk belongs to the document, carries no score yet, and holds
      the stripped, non-empty text of the page its (1-based) number names. */
  lemma {:induction false} PageChunksSound<S>(document: string, pages: seq<string>)
    ensures |PageChunks<S>(document, pages)| <= |pages|
    ensures forall c :: c in PageChunks<S>(document, pages) ==>
      OfPage(document, pages, c) && c.score == None && c.text != [] && IsStripped(c.text)
  {
    if pages != [] {
      var n := |pages| - 1;
      var before := PageChunks<S>(document, pages[..n]);
      PageChunksSound<S>(document, pages[..n]);
      forall c | c in before ensures OfPage(document, pages, c) {
        OfPagePrefix(document, pages, n, c);
      }
    }
  }

  /** Page numbers stay within the document. */
  lemma {:induction false} PageChunksInRange<S>(document: string, pages: seq<string>)
    ensures forall c :: c in PageChunks<S>(document, pages) ==> 1 <= c.page <= |pages|
  {
    if pages != [] {
      PageChunksInRange<S>(document, pages[..|pages| - 1]);
    }
  }

  /** Page numbers increase strictly along the chunk list. */
  lemma {:induction false} PageChunksIncreasing<S>(document: string, pages: seq<string>)
    ensures forall i, j :: 0 <= i < j < |PageChunks<S>(document, pages)| ==>
      PageChunks<S>(document, pages)[i].page < PageChunks<S>(document, pages)[j].page
  {
    if pages != [] {
      var init := pages[..|pages| - 1];
      var before := PageChunks<S>(document, init);
      var all := PageChunks<S>(document, pages);
      PageChunksIncreasing<S>(document, init);
      PageChunksInRange<S>(document, init);
      forall i, j | 0 <= i < j < |all| ensures all[i].page < all[j].page {
        assert all[i] == before[i];
        if j < |before| {
          assert all[j] == before[j];
        } else {
          assert before[i] in before;
        }
      }
    }
  }

  /** No page with text is lost: each such page has a chunk with its number. */
  lemma {:induction false} PageChunksComplete<S>(document: string, pages: seq<string>, p: nat)
    requires p < |pages| && Strip(pages[p]) != []
    ensures exists c :: c in PageChunks<S>(document, pages) && c.page == p + 1
  {
    var init := pages[..|pages| - 1];
    if p == |pages| - 1 {
      assert Chunk(document, |pages|, Strip(pages[p]), None) in PageChunks<S>(document, pages);
    } else {
      assert init[p] == pages[p];
      PageChunksComplete<S>(document, init, p);
    }
  }

  /** A document yields no chunk exactly when every page is blank (this
      covers zero pages and a file that cannot be opened). */
  lemma {:induction false} PageChunksEmptyIff<S>(document: string, pages: seq<string>)
    ensures PageChunks<S>(document, pages) == [] <==> forall p :: 0 <= p < |pages| ==> AllSpace(pages[p])
  {
    var all := PageChunks<S>(document, pages);
    if all == [] {
      forall p | 0 <= p < |pages| ensures AllSpace(pages[p]) {
        if !AllSpace(pages[p]) {
          PageChunksComplete<S>(document, pages, p);
          assert false;
        }
      }
    } else {
      PageChunksSound<S>(document, pages);
      assert all[0] in all;
      var p := all[0].page - 1;
      assert Strip(pages[p]) != [];
    }
  }

  /** When the reader fails after `n` pages, the chunks already appended are
      kept: the result for the pages read is a prefix of the result the
      whole document would give. */
  lemma {:induction false} PageChunksPrefix<S>(document: string, pages: seq<string>, n: nat)
    requires n <= |pages|
    ensures PageChunks<S>(document, pages[..n]) <= PageChunks<S>(document, pages)
    decreases |pages|
  {
    if n < |pages| {
      var init := pages[..|pages| - 1];
      assert init[..n] == pages[..n];
      PageChunksPrefix<S>(document, init, n);
    } else {
      assert pages[..n] == pages;
    }
  }
}
