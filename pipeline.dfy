/** `process_pdf` and the per-document loop of `main`: extract, rank against
    the configured persona and task, and hand each non-empty result to the
    writer under a name derived from the entry's name. */
module Pipeline {
  import opened Wrappers
  import opened Strings
  import opened Paths
  import opened Chunks
  import opened Extraction
  import opened Ranking

  /** The settings of one run, fixed before it starts: the script's
      `PERSONA`, `TASK` and `OUTPUT_DIR`. */
  datatype Config = Config(persona: string, task: string, outputDir: string)

  datatype Metadata = Metadata(persona: string, task: string, source: string)

  /** The record `process_pdf` returns and `main` serialises. */
  datatype RankedResult<S> = RankedResult(metadata: Metadata, sections: seq<Chunk<S>>)

  /** The value of `process_pdf(pdfPath)` when the reader delivers `pdf`. */
  function ProcessResult<S>(pdfPath: string, pdf: PageTexts, config: Config, ranker: Ranker<S>)
    : Option<RankedResult<S>>
  {
    var chunks := PageChunks<S>(Basename(pdfPath), pdf.pages);
    if chunks == [] then None
    else
      var scores := ranker.Scores(Query(config.persona, config.task), Texts(chunks));
      Some(RankedResult(Metadata(config.persona, config.task, Basename(pdfPath)),
                        Rank(chunks, scores, ranker.lt)))
  }

  /** `process_pdf`: the extracted chunks are put in a mutable list that
      the ranker scores in place. */
  method ProcessPdf<S>(pdfPath: string, pdf: PageTexts, config: Config, ranker: Ranker<S>)
    returns (result: Option<RankedResult<S>>)
    ensures result == ProcessResult(pdfPath, pdf, config, ranker)
  {
    var chunks := ExtractTextChunks<S>(pdfPath, pdf);
    if chunks == [] {
      return None;
    }
    var cells := new Chunk<S>[|chunks|](i requires 0 <= i < |chunks| => chunks[i]);
    assert cells[..] == chunks;
    var top := RankChunks(cells, config.persona, config.task, ranker);
    result := Some(RankedResult(Metadata(config.persona, config.task, Basename(pdfPath)), top));
  }

  /** `process_pdf` gives no result exactly when every page is blank;
      otherwise the metadata carries the configured persona and task and
      the file's base name, and the sections are between one and ten chunks
      of that document, each holding the stripped text of its page and a
      score. */
  lemma ProcessResultShape<S>(pdfPath: string, pdf: PageTexts, config: Config, ranker: Ranker<S>)
    ensures var r := ProcessResult(pdfPath, pdf, config, ranker);
      && (r.None? <==> forall p :: 0 <= p < |pdf.pages| ==> AllSpace(pdf.pages[p]))
      && (r.Some? ==>
            && r.value.metadata == Metadata(config.persona, config.task, Basename(pdfPath))
            && 1 <= |r.value.sections| <= MaxSections
            && forall c :: c in r.value.sections ==> c.score.Some? && OfPage(Basename(pdfPath), pdf.pages, c))
  {
    var document := Basename(pdfPath);
    var chunks := PageChunks<S>(document, pdf.pages);
    PageChunksEmptyIff<S>(document, pdf.pages);
    if chunks != [] {
      var scores := ranker.Scores(Query(config.persona, config.task), Texts(chunks));
      RankSize(chunks, scores, ranker.lt);
      PageChunksSound<S>(document, pdf.pages);
      RankOfPages(document, pdf.pages, chunks, scores, ranker.lt);
    }
  }

  /** Ranking only adds scores: chunks that came from pages still do. */
  lemma RankOfPages<S>(document: string, pages: seq<string>, chunks: seq<Chunk<S>>,
                       scores: seq<S>, lt: (S, S) -> bool)
    requires |scores| == |chunks|
    requires forall c :: c in chunks ==> OfPage(document, pages, c)
    ensures forall c :: c in Rank(chunks, scores, lt) ==> c.score.Some? && OfPage(document, pages, c)
  {
    forall c | c in Rank(chunks, scores, lt) ensures c.score.Some? && OfPage(document, pages, c) {
      RankMember(chunks, scores, lt, c);
      var j :| 0 <= j < |chunks| && c == chunks[j].(score := Some(scores[j]));
      assert chunks[j] in chunks;
      OfPageRescored(document, pages, chunks[j], Some(scores[j]));
    }
  }

  /** With a totally ordered score type the sections of a result are in
      non-increasing score order. */
  lemma ProcessResultSorted<S(!new)>(pdfPath: string, pdf: PageTexts, config: Config, ranker: Ranker<S>)
    requires StrictTotalOrder(ranker.lt)
    requires ProcessResult(pdfPath, pdf, config, ranker).Some?
    ensures var sections := ProcessResult(pdfPath, pdf, config, ranker).value.sections;
      AllScored(sections) && SortedDesc(ranker.lt, sections)
  {
    var chunks := PageChunks<S>(Basename(pdfPath), pdf.pages);
    var scores := ranker.Scores(Query(config.persona, config.task), Texts(chunks));
    RankSorted(chunks, scores, ranker.lt);
  }

  /** The sections are the best-scoring chunks of the document: no chunk
      of the document that is left out scores higher than any section. */
  lemma ProcessResultTop<S(!new)>(pdfPath: string, pdf: PageTexts, config: Config, ranker: Ranker<S>)
    requires StrictTotalOrder(ranker.lt)
    requires ProcessResult(pdfPath, pdf, config, ranker).Some?
    ensures var chunks := PageChunks<S>(Basename(pdfPath), pdf.pages);
      var scored := WithScores(chunks, ranker.Scores(Query(config.persona, config.task), Texts(chunks)));
      var sections := ProcessResult(pdfPath, pdf, config, ranker).value.sections;
      forall c: Chunk<S>, x: Chunk<S> :: c in sections && x in scored && x !in sections ==>
        x.score.Some? && c.score.Some? && !Above(ranker.lt, x, c)
  {
    var chunks := PageChunks<S>(Basename(pdfPath), pdf.pages);
    var scores := ranker.Scores(Query(config.persona, config.task), Texts(chunks));
    var scored := WithScores(chunks, scores);
    var sections := Rank(chunks, scores, ranker.lt);
    assert sections == ProcessResult(pdfPath, pdf, config, ranker).value.sections;
    RankTop(chunks, scores, ranker.lt);
    forall c: Chunk<S>, x: Chunk<S> | c in sections && x in scored && x !in sections
      ensures x.score.Some? && c.score.Some? && !Above(ranker.lt, x, c)
    {
      assert x in multiset(scored) - multiset(sections);
    }
  }

  /** `sorted` is stable and a document's chunks come in page order, so
      sections with equal scores appear in the order of their pages. */
  lemma ProcessResultTiesByPage<S(!new)>(pdfPath: string, pdf: PageTexts, config: Config, ranker: Ranker<S>,
                                         p: nat, q: nat)
    requires StrictTotalOrder(ranker.lt)
    requires ProcessResult(pdfPath, pdf, config, ranker).Some?
    requires p < |ProcessResult(pdfPath, pdf, config, ranker).value.sections|
    requires q < |ProcessResult(pdfPath, pdf, config, ranker).value.sections|
    requires ProcessResult(pdfPath, pdf, config, ranker).value.sections[p].score
          == ProcessResult(pdfPath, pdf, config, ranker).value.sections[q].score
    requires ProcessResult(pdfPath, pdf, config, ranker).value.sections[p].page
           < ProcessResult(pdfPath, pdf, config, ranker).value.sections[q].page
    ensures p < q
  {
    var document := Basename(pdfPath);
    var chunks := PageChunks<S>(document, pdf.pages);
    var scores := ranker.Scores(Query(config.persona, config.task), Texts(chunks));
    assert Rank(chunks, scores, ranker.lt) == ProcessResult(pdfPath, pdf, config, ranker).value.sections;
    PageChunksIncreasing<S>(document, pdf.pages);
    RankTiesByPage(chunks, scores, ranker.lt, p, q);
  }

  // ---------------------------------------------------------------------
  // main

  /** A directory entry and what reading it as a PDF yields. */
  datatype Entry = Entry(name: string, pdf: PageTexts)

  /** A configured folder: absent (reported and skipped) or present with its
      entries in listing order. */
  datatype Folder = Missing(path: string) | Present(path: string, entries: seq<Entry>)

  /** One `json.dump` of `main`: the output path and the record written. */
  datatype Written<S> = Written(path: string, result: RankedResult<S>)

  /** The write, if any, that `main` performs for one entry of `folder`. */
  function EntryOutput<S>(folder: string, e: Entry, config: Config, ranker: Ranker<S>): seq<Written<S>> {
    if !IsPdfName(e.name) then []
    else match ProcessResult(Join(folder, e.name), e.pdf, config, ranker)
      case None => []
      case Some(res) => [Written(Join(config.outputDir, OutputName(e.name)), res)]
  }

  /** The writes for the entries of one folder, in listing order. */
  function FolderOutputs<S>(folder: string, entries: seq<Entry>, config: Config, ranker: Ranker<S>)
    : seq<Written<S>>
  {
    Concat(entries, e => EntryOutput(folder, e, config, ranker))
  }

  /** A missing folder is reported and skipped. */
  function FolderWrites<S>(f: Folder, config: Config, ranker: Ranker<S>): seq<Written<S>> {
    match f
    case Missing(_) => []
    case Present(path, entries) => FolderOutputs(path, entries, config, ranker)
  }

  /** Everything `main` writes, in order, for the configured folders. */
  function RunOutputs<S>(folders: seq<Folder>, config: Config, ranker: Ranker<S>): seq<Written<S>> {
    Concat(folders, f => FolderWrites(f, config, ranker))
  }

  /** The body of `main`'s inner loop for one entry of `folder`: skip
      names that do not end in `.pdf`, process the file, and write its
      result, if any, under the derived name. */
  method ProcessEntry<S>(folder: string, e: Entry, config: Config, ranker: Ranker<S>)
    returns (out: seq<Written<S>>)
    ensures out == EntryOutput(folder, e, config, ranker)
  {
    out := [];
    if IsPdfName(e.name) {
      var result := ProcessPdf(Join(folder, e.name), e.pdf, config, ranker);
      if result.Some? {
        out := [Written(Join(config.outputDir, OutputName(e.name)), result.value)];
      }
    }
  }

  /** The inner loop of `main` over the entries of one existing folder, in
      listing order. */
  method ProcessFolder<S>(folder: string, entries: seq<Entry>, config: Config, ranker: Ranker<S>)
    returns (out: seq<Written<S>>)
    ensures out == FolderOutputs(folder, entries, config, ranker)
  {
    out := [];
    for j := 0 to |entries|
      invariant out == FolderOutputs(folder, entries[..j], config, ranker)
    {
      ConcatSnoc(entries, e => EntryOutput(folder, e, config, ranker), j);
      var written := ProcessEntry(folder, entries[j], config, ranker);
      out := out + written;
    }
    assert entries[..|entries|] == entries;
  }

  /** The loops of `main`: folders in configured order, entries in listing
      order, a write for each PDF entry that yields a result. */
  method Run<S>(folders: seq<Folder>, config: Config, ranker: Ranker<S>) returns (written: seq<Written<S>>)
    ensures written == RunOutputs(folders, config, ranker)
  {
    written := [];
    for i := 0 to |folders|
      invariant written == RunOutputs(folders[..i], config, ranker)
    {
      ConcatSnoc(folders, f => FolderWrites(f, config, ranker), i);
      match folders[i]
      case Missing(_) =>
      case Present(path, entries) =>
        var out := ProcessFolder(path, entries, config, ranker);
        written := written + out;
    }
    assert folders[..|folders|] == folders;
  }

  /** `w` is the write `main` makes for entry `e` of `folder`: the entry's
      name passes the `.pdf` filter, processing it gives `w.result`, and the
      file is `<stem>_output.json` in the output directory. */
  ghost predicate Produces<S>(folder: string, e: Entry, w: Written<S>, config: Config, ranker: Ranker<S>) {
    && IsPdfName(e.name)
    && ProcessResult(Join(folder, e.name), e.pdf, config, ranker) == Some(w.result)
    && w.path == Join(config.outputDir, OutputName(e.name))
  }

  /** `main` writes `w` exactly when `w` is produced by an entry of a
      folder that exists: only `.pdf` entries are processed, and every one
      with a non-blank page is written under its derived name. */
  lemma RunOutputsIff<S>(folders: seq<Folder>, config: Config, ranker: Ranker<S>, w: Written<S>)
    ensures w in RunOutputs(folders, config, ranker) <==>
      exists i, j :: 0 <= i < |folders| && folders[i].Present? && 0 <= j < |folders[i].entries|
                     && Produces(folders[i].path, folders[i].entries[j], w, config, ranker)
  {
    var perFolder := f => FolderWrites(f, config, ranker);
    ConcatIff(folders, perFolder, w);
    forall i | 0 <= i < |folders| && folders[i].Present?
      ensures w in perFolder(folders[i]) <==>
        exists j :: 0 <= j < |folders[i].entries| && Produces(folders[i].path, folders[i].entries[j], w, config, ranker)
    {
      var path, entries := folders[i].path, folders[i].entries;
      var perEntry := e => EntryOutput(path, e, config, ranker);
      ConcatIff(entries, perEntry, w);
      forall j | 0 <= j < |entries|
        ensures w in perEntry(entries[j]) <==> Produces(path, entries[j], w, config, ranker)
      {
        EntryOutputIff(path, entries[j], config, ranker, w);
      }
    }
  }

  lemma EntryOutputIff<S>(folder: string, e: Entry, config: Config, ranker: Ranker<S>, w: Written<S>)
    ensures w in EntryOutput(folder, e, config, ranker) <==> Produces(folder, e, w, config, ranker)
  {
  }

  /** When no configured folder exists nothing is written. */
  lemma RunAllMissing<S>(folders: seq<Folder>, config: Config, ranker: Ranker<S>)
    requires forall i :: 0 <= i < |folders| ==> folders[i].Missing?
    ensures RunOutputs(folders, config, ranker) == []
  {
    var perFolder := f => FolderWrites(f, config, ranker);
    ConcatEmpty(folders, perFolder);
  }

  /** For an entry name (never holding a `/`), the record written for it
      names the entry itself as `source` and as every section's `document`,
      and the output file is the entry's stem plus `_output.json`. */
  lemma ProducedFor<S>(folder: string, e: Entry, w: Written<S>, config: Config, ranker: Ranker<S>)
    requires '/' !in e.name && Produces(folder, e, w, config, ranker)
    ensures w.result.metadata == Metadata(config.persona, config.task, e.name)
    ensures 1 <= |w.result.sections| <= MaxSections
    ensures forall c :: c in w.result.sections ==> c.document == e.name
    ensures w.path == Join(config.outputDir,
      (if exists k :: 0 <= k < |e.name| - 4 && e.name[k] != '.' then e.name[..|e.name| - 4] else e.name)
      + "_output.json")
  {
    BasenameOfJoin(folder, e.name);
    ProcessResultShape(Join(folder, e.name), e.pdf, config, ranker);
    PdfOutputName(e.name);
  }

  // ---------------------------------------------------------------------
  // Concatenating the writes of a sequence of entries or folders

  function Concat<T, U>(s: seq<T>, f: T -> seq<U>): seq<U> {
    if s == [] then [] else Concat(s[..|s| - 1], f) + f(s[|s| - 1])
  }

  lemma ConcatSnoc<T, U>(s: seq<T>, f: T -> seq<U>, n: nat)
    requires n < |s|
    ensures Concat(s[..n + 1], f) == Concat(s[..n], f) + f(s[n])
  {
    assert s[..n + 1][..n] == s[..n];
  }

  /** An element is in the concatenation exactly when it comes from one of
      the parts. */
  lemma {:induction false} ConcatIff<T, U>(s: seq<T>, f: T -> seq<U>, u: U)
    ensures u in Concat(s, f) <==> exists j :: 0 <= j < |s| && u in f(s[j])
  {
    if s != [] {
      var init := s[..|s| - 1];
      ConcatIff(init, f, u);
      assert forall j :: 0 <= j < |init| ==> init[j] == s[j];
    }
  }

  lemma {:induction false} ConcatEmpty<T, U>(s: seq<T>, f: T -> seq<U>)
    requires forall j :: 0 <= j < |s| ==> f(s[j]) == []
    ensures Concat(s, f) == []
  {
    if s != [] {
      ConcatEmpty(s[..|s| - 1], f);
    }
  }
}
