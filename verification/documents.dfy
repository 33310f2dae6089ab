/**
 * `extract_resume_text` (app.py and Custom_Resume.py carry the same
 * definition): the text of the document chunks produced by the PDF loader
 * and splitter, joined in order with single line feeds.
 */
module Documents {
  import opened Text

  const ChunkSeparator := "\n"

  /** `"\n".join([doc.page_content for doc in docs])`, given the chunk texts. */
  function ExtractResumeText(chunks: seq<string>): (text: string)
    ensures |chunks| == 0 ==> text == ""
    ensures |text| == TotalLength(chunks) + (if |chunks| == 0 then 0 else |chunks| - 1)
    ensures forall k :: 0 <= k < |chunks| ==> Contains(text, chunks[k])
  {
    JoinLength(chunks);
    forall k | 0 <= k < |chunks| ensures Contains(Join(ChunkSeparator, chunks), chunks[k]) {
      PartInJoin(ChunkSeparator, chunks, k);
    }
    Join(ChunkSeparator, chunks)
  }

  /** The number of characters in all chunks together. */
  function TotalLength(chunks: seq<string>): nat
    decreases |chunks|
  {
    if |chunks| == 0 then 0 else |chunks[0]| + TotalLength(chunks[1..])
  }

  lemma {:induction false} JoinLength(chunks: seq<string>)
    ensures |Join(ChunkSeparator, chunks)| == TotalLength(chunks) + (if |chunks| == 0 then 0 else |chunks| - 1)
    decreases |chunks|
  {
    if |chunks| > 1 {
      JoinLength(chunks[1..]);
    }
  }

  /** A single chunk is extracted as it is. */
  lemma ExtractSingle(chunk: string)
    ensures ExtractResumeText([chunk]) == chunk
  {
  }

  /** Extraction keeps the chunks in order: the text of two runs of chunks is
      the text of the first run, a line feed, and the text of the second. */
  lemma ExtractAppend(a: seq<string>, b: seq<string>)
    requires |a| >= 1 && |b| >= 1
    ensures ExtractResumeText(a + b) == ExtractResumeText(a) + ChunkSeparator + ExtractResumeText(b)
  {
    JoinAppend(ChunkSeparator, a, b);
  }

  /** Chunks without line feeds can be recovered by splitting the text on line feeds. */
  lemma ChunksRecoverable(chunks: seq<string>)
    requires |chunks| >= 1
    requires forall k :: 0 <= k < |chunks| ==> '\n' !in chunks[k]
    ensures SplitOn(ExtractResumeText(chunks), ChunkSeparator) == chunks
  {
    SplitOnJoin(chunks, '\n');
  }

  /** Splitting any text on line feeds and extracting gives the text back. */
  lemma LinesRejoin(text: string)
    ensures ExtractResumeText(SplitOn(text, ChunkSeparator)) == text
  {
    JoinSplitOn(text, ChunkSeparator);
  }
}
