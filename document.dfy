/**
 * The uniform document: a text that is never null and a string-to-string
 * metadata map that `addMetadata` updates in place.
 */
module Documents {
  import opened Wrappers

  type Metadata = map<string, string>

  /** The value a Document holds at one moment. */
  datatype Doc = Doc(text: string, metadata: Metadata)

  class Document {
    var text: string
    var metadata: Metadata

    function Value(): Doc
      reads this
    {
      Doc(text, metadata)
    }

    /** `new Document()`: empty text, empty metadata. */
    constructor Empty()
      ensures Value() == Doc("", map[])
    {
      text := "";
      metadata := map[];
    }

    /** `new Document(text)`: a null text becomes the empty text. */
    constructor WithText(text: Option<string>)
      ensures Value() == Doc(text.GetOr(""), map[])
    {
      this.text := text.GetOr("");
      metadata := map[];
    }

    /**
     * `new Document(text, metadata)`: a null text becomes "", a null map an empty
     * one; the map is taken by value, so the caller's later changes are not seen.
     */
    constructor (text: Option<string>, metadata: Option<Metadata>)
      ensures Value() == Doc(text.GetOr(""), metadata.GetOr(map[]))
    {
      this.text := text.GetOr("");
      this.metadata := metadata.GetOr(map[]);
    }

    method GetText() returns (t: string)
      ensures t == Value().text
    {
      t := text;
    }

    /** The current metadata, as a value the caller cannot change. */
    method GetMetadata() returns (m: Metadata)
      ensures m == Value().metadata
    {
      m := metadata;
    }

    /** Inserts or overwrites `key`; a null key or a null value is ignored. */
    method AddMetadata(key: Option<string>, value: Option<string>)
      modifies this
      ensures text == old(text)
      ensures key.Some? && value.Some? ==> metadata == old(metadata)[key.value := value.value]
      ensures key.None? || value.None? ==> metadata == old(metadata)
    {
      if key.Some? && value.Some? {
        metadata := metadata[key.value := value.value];
      }
    }
  }

  /** The values held by a list of documents, in list order. */
  function Values(ds: seq<Document>): (vs: seq<Doc>)
    reads set d | d in ds
    ensures |vs| == |ds| && forall i :: 0 <= i < |ds| ==> vs[i] == ds[i].Value()
  {
    seq(|ds|, i reads set d | d in ds requires 0 <= i < |ds| => ds[i].Value())
  }

  /** The values of two lists glued together. */
  lemma ValuesAppend(xs: seq<Document>, ys: seq<Document>)
    ensures Values(xs + ys) == Values(xs) + Values(ys)
  {
  }
}
