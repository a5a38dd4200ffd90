/**
 * `createDocuments`: every chunk of a document's text becomes a new document
 * carrying a copy of the parent's metadata plus a `lookup_index` entry holding
 * the chunk's position.
 */
module ChunkDocuments {
  import opened Wrappers
  import opened JavaStrings
  import opened Documents
  import opened TextSplitter
  import opened CharacterSplitter

  const LookupIndex: string := "lookup_index"

  /** The metadata of chunk `i`: the parent's entries, with `lookup_index` set to `i` in decimal. */
  function ChunkMetadata(parent: Metadata, i: nat): (m: Metadata)
    ensures m.Keys == parent.Keys + {LookupIndex}
    ensures m[LookupIndex] == NatToString(i)
    ensures forall k :: k in parent && k != LookupIndex ==> m[k] == parent[k]
  {
    parent[LookupIndex := NatToString(i)]
  }

  /** The documents made from the chunks of one parent, in chunk order. */
  function ChunkDocs(chunks: seq<string>, parent: Metadata): (ds: seq<Doc>)
    ensures |ds| == |chunks|
    ensures forall i :: 0 <= i < |chunks| ==> ds[i] == Doc(chunks[i], ChunkMetadata(parent, i))
  {
    seq(|chunks|, i requires 0 <= i < |chunks| => Doc(chunks[i], ChunkMetadata(parent, i)))
  }

  /** What `createDocuments(inputDocument)` returns for a document holding `parent`. */
  function SplitDocument(s: CharacterTextSplitter, parent: Doc, regexSplit: RegexSplit): Result<seq<Doc>, SplitError> {
    match Split(s, Some(parent.text), regexSplit)
    case Success(chunks) => Success(ChunkDocs(chunks, parent.metadata))
    case Failure(e) => Failure(e)
  }

  /** What `createDocuments(inputDocuments)` returns: the per-document results in input order; the first failure ends it. */
  function SplitDocuments(s: CharacterTextSplitter, parents: seq<Doc>, regexSplit: RegexSplit): Result<seq<Doc>, SplitError> {
    if |parents| == 0 then Success([])
    else Concatenated(SplitDocuments(s, parents[..|parents| - 1], regexSplit),
                      SplitDocument(s, parents[|parents| - 1], regexSplit))
  }

  /** `createDocuments(inputDocument)`. */
  method CreateDocuments(s: CharacterTextSplitter, inputDocument: Document, regexSplit: RegexSplit)
    returns (r: Result<seq<Document>, SplitError>)
    ensures inputDocument.Value() == old(inputDocument.Value())
    ensures r.Failure? ==> SplitDocument(s, inputDocument.Value(), regexSplit) == Failure(r.error)
    ensures r.Success? ==> SplitDocument(s, inputDocument.Value(), regexSplit) == Success(Values(r.value))
    ensures r.Success? ==> forall d :: d in r.value ==> fresh(d)
  {
    var text := inputDocument.GetText();
    var split := SplitText(s, Some(text), regexSplit);
    if split.Failure? {
      return Failure(split.error);
    }
    var splitChunks := split.value;
    ghost var parent := inputDocument.Value();
    var outputDocuments: seq<Document> := [];
    for i := 0 to |splitChunks|
      invariant |outputDocuments| == i
      invariant forall d :: d in outputDocuments ==> fresh(d)
      invariant forall j :: 0 <= j < i ==> outputDocuments[j].Value() == Doc(splitChunks[j], ChunkMetadata(parent.metadata, j))
    {
      var chunk := splitChunks[i];
      var metadata := inputDocument.GetMetadata();
      metadata := metadata[LookupIndex := NatToString(i)];
      var outputDocument := new Document(Some(chunk), Some(metadata));
      outputDocuments := outputDocuments + [outputDocument];
    }
    assert Values(outputDocuments) == ChunkDocs(splitChunks, parent.metadata);
    return Success(outputDocuments);
  }

  /** `createDocuments(inputDocuments)`. */
  method CreateDocumentsList(s: CharacterTextSplitter, inputDocuments: seq<Document>, regexSplit: RegexSplit)
    returns (r: Result<seq<Document>, SplitError>)
    ensures Values(inputDocuments) == old(Values(inputDocuments))
    ensures r.Failure? ==> SplitDocuments(s, Values(inputDocuments), regexSplit) == Failure(r.error)
    ensures r.Success? ==> SplitDocuments(s, Values(inputDocuments), regexSplit) == Success(Values(r.value))
    ensures r.Success? ==> forall d :: d in r.value ==> fresh(d)
  {
    ghost var parents := Values(inputDocuments);
    var outputDocuments: seq<Document> := [];
    for n := 0 to |inputDocuments|
      invariant Values(inputDocuments) == parents
      invariant forall d :: d in outputDocuments ==> fresh(d)
      invariant SplitDocuments(s, parents[..n], regexSplit) == Success(Values(outputDocuments))
    {
      var chunkDocuments := CreateDocuments(s, inputDocuments[n], regexSplit);
      assert inputDocuments[n].Value() == parents[n];
      SplitDocumentsStep(s, parents, n, regexSplit);
      if chunkDocuments.Failure? {
        SplitDocumentsFailurePersists(s, parents, n + 1, regexSplit);
        return Failure(chunkDocuments.error);
      }
      ValuesAppend(outputDocuments, chunkDocuments.value);
      outputDocuments := outputDocuments + chunkDocuments.value;
    }
    assert parents[..|inputDocuments|] == parents;
    return Success(outputDocuments);
  }

  /** One more input document: its chunk documents are appended, or its failure becomes the result. */
  lemma SplitDocumentsStep(s: CharacterTextSplitter, parents: seq<Doc>, n: nat, regexSplit: RegexSplit)
    requires n < |parents|
    ensures SplitDocuments(s, parents[..n + 1], regexSplit)
            == Concatenated(SplitDocuments(s, parents[..n], regexSplit), SplitDocument(s, parents[n], regexSplit))
  {
    assert parents[..n + 1][..n] == parents[..n];
  }

  /** Once a prefix of the inputs fails, the whole list fails with the same error. */
  lemma {:induction false} SplitDocumentsFailurePersists(s: CharacterTextSplitter, parents: seq<Doc>, n: nat, regexSplit: RegexSplit)
    requires n <= |parents|
    requires SplitDocuments(s, parents[..n], regexSplit).Failure?
    ensures SplitDocuments(s, parents, regexSplit) == SplitDocuments(s, parents[..n], regexSplit)
    decreases |parents| - n
  {
    if n < |parents| {
      assert parents[..n + 1][..n] == parents[..n];
      SplitDocumentsFailurePersists(s, parents, n + 1, regexSplit);
    } else {
      assert parents[..n] == parents;
    }
  }

  /** The `lookup_index` of chunk `i` reads back as `i`. */
  lemma ChunkIndexRoundTrip(parent: Metadata, i: nat)
    ensures IsDigits(ChunkMetadata(parent, i)[LookupIndex])
    ensures ParseNat(ChunkMetadata(parent, i)[LookupIndex]) == i
  {
    ParseNatToString(i);
  }

  /** Chunks of one parent carry pairwise different `lookup_index` values. */
  lemma ChunkIndicesDistinct(parent: Metadata, chunks: seq<string>, i: nat, j: nat)
    requires i < j < |chunks|
    ensures ChunkDocs(chunks, parent)[i].metadata[LookupIndex] != ChunkDocs(chunks, parent)[j].metadata[LookupIndex]
  {
    NatToStringInjective(i, j);
  }

  /** A Document's text is never null, so splitting one never fails with the null-text error. */
  lemma NeverNullText(s: CharacterTextSplitter, parent: Doc, regexSplit: RegexSplit)
    ensures SplitDocument(s, parent, regexSplit) != Failure(NullText)
  {
    if CharacterSplitter.ValidateParameters(s, Some(parent.text)).None? && !s.isSeparatorRegex {
      RunFailures(parent.text, s.separator.value, s.chunkSize, s.chunkOverlap, 0, {});
    }
  }

  /** A list of one document gives exactly that document's result. */
  lemma SplitDocumentsSingle(s: CharacterTextSplitter, parent: Doc, regexSplit: RegexSplit)
    ensures SplitDocuments(s, [parent], regexSplit) == SplitDocument(s, parent, regexSplit)
  {
    assert [parent][..0] == [];
    ConcatenatedNil(SplitDocument(s, parent, regexSplit));
  }

  /** Splitting two lists back to back: the outputs are concatenated, and the first failure is the result. */
  lemma {:induction false} SplitDocumentsAppend(s: CharacterTextSplitter, xs: seq<Doc>, ys: seq<Doc>, regexSplit: RegexSplit)
    ensures SplitDocuments(s, xs + ys, regexSplit)
            == Concatenated(SplitDocuments(s, xs, regexSplit), SplitDocuments(s, ys, regexSplit))
    decreases |ys|
  {
    if |ys| == 0 {
      assert xs + ys == xs;
      ConcatenatedNil(SplitDocuments(s, xs, regexSplit));
    } else {
      var zs := xs + ys;
      var init := ys[..|ys| - 1];
      assert zs[..|zs| - 1] == xs + init && zs[|zs| - 1] == ys[|ys| - 1];
      SplitDocumentsAppend(s, xs, init, regexSplit);
      ConcatenatedAssoc(SplitDocuments(s, xs, regexSplit), SplitDocuments(s, init, regexSplit),
                        SplitDocument(s, ys[|ys| - 1], regexSplit));
    }
  }

  /** The number of chunk documents each input yields, summed (inputs that fail count zero). */
  function DocCount(s: CharacterTextSplitter, parents: seq<Doc>, regexSplit: RegexSplit): nat {
    if |parents| == 0 then 0
    else
      DocCount(s, parents[..|parents| - 1], regexSplit)
      + match SplitDocument(s, parents[|parents| - 1], regexSplit)
        case Success(ds) => |ds|
        case Failure(_) => 0
  }

  /** A successful list split yields as many documents as its inputs' chunk counts add up to. */
  lemma {:induction false} SplitDocumentsCount(s: CharacterTextSplitter, parents: seq<Doc>, regexSplit: RegexSplit)
    requires SplitDocuments(s, parents, regexSplit).Success?
    ensures |SplitDocuments(s, parents, regexSplit).value| == DocCount(s, parents, regexSplit)
    decreases |parents|
  {
    if |parents| > 0 {
      SplitDocumentsCount(s, parents[..|parents| - 1], regexSplit);
    }
  }
}

