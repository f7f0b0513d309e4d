/** The chunk record the script passes between its stages: one page of one
    document, with the relevance score the ranker writes into it. */
module Chunks {
  import opened Wrappers

  /** `{"document", "page", "text"}` as extraction creates it; `score` is
      `None` until the ranker adds the `"score"` key. */
  datatype Chunk<S> = Chunk(document: string, page: nat, text: string, score: Option<S>)

  /** `[chunk["text"] for chunk in chunks]`: the corpus handed to the
      vectorizer, in chunk order. */
  function Texts<S>(chunks: seq<Chunk<S>>): seq<string> {
    seq(|chunks|, i requires 0 <= i < |chunks| => chunks[i].text)
  }
}
