/** What every text splitter checks before splitting, and how splitting can fail. */
module TextSplitter {
  import opened Wrappers

  /** The exceptions splitting can end in, plus the one outcome that is not an exception: a loop that never ends. */
  datatype SplitError =
    | NullText               // IllegalArgumentException "Text cannot be null"
    | NonPositiveChunkSize   // IllegalArgumentException "Chunk Size should be greater than 0"
    | NegativeChunkOverlap   // IllegalArgumentException "Chunk Overlap should be greater than or equal to 0"
    | NullSeparator          // IllegalArgumentException "Separator cannot be null"
    | InvalidPattern         // PatternSyntaxException from the regex split
    | IndexOutOfBounds       // StringIndexOutOfBoundsException from substring with a negative start
    | Diverges               // the chunking loop revisits a cursor position and never ends

  /**
   * `TextSplitter.validateParameters`: the first failed check, in the order
   * text, chunk size, chunk overlap; None when the call returns normally.
   */
  function ValidateParameters(text: Option<string>, chunkSize: int, chunkOverlap: int): (r: Option<SplitError>)
    ensures r.None? <==> text.Some? && chunkSize > 0 && chunkOverlap >= 0
    ensures text.None? ==> r == Some(NullText)
    ensures text.Some? && chunkSize <= 0 ==> r == Some(NonPositiveChunkSize)
    ensures text.Some? && chunkSize > 0 && chunkOverlap < 0 ==> r == Some(NegativeChunkOverlap)
  {
    if text.None? then Some(NullText)
    else if chunkSize <= 0 then Some(NonPositiveChunkSize)
    else if chunkOverlap < 0 then Some(NegativeChunkOverlap)
    else None
  }
}
