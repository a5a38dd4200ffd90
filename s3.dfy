/**
 * The S3 loader's dispatch: an object's extension (the text after its last
 * `.`), upper-cased, selects the loader that reads the object through a
 * presigned URL; any other extension is rejected and `readData` returns null.
 * Presigning and the loaders themselves are parameters.
 */
module S3 {
  import opened Wrappers
  import opened JavaStrings
  import opened Documents

  datatype Loader = CsvLoader | HtmlLoader | PdfLoader | TextLoader | DocxLoader | PptxLoader | JsonLoader

  /** `objectName.substring(objectName.lastIndexOf(".") + 1)`: the whole name when it has no `.`. */
  function Extension(objectName: string): (extension: string)
    ensures '.' !in extension
    ensures |extension| <= |objectName| && extension == objectName[|objectName| - |extension|..]
    ensures |extension| < |objectName| ==> objectName[|objectName| - |extension| - 1] == '.'
    ensures '.' !in objectName ==> extension == objectName
  {
    var dot := LastIndexOf(objectName, '.');
    objectName[dot + 1..]
  }

  /** The switch on the upper-cased extension. */
  function LoaderFor(upperExtension: string): Option<Loader> {
    match upperExtension
    case "CSV" => Some(CsvLoader)
    case "HTML" => Some(HtmlLoader)
    case "PDF" => Some(PdfLoader)
    case "TXT" => Some(TextLoader)
    case "MD" => Some(TextLoader)
    case "DOCX" => Some(DocxLoader)
    case "DOTX" => Some(DocxLoader)
    case "PPTX" => Some(PptxLoader)
    case "JSON" => Some(JsonLoader)
    case _ => None
  }

  /** The upper-case extensions each loader is chosen for. */
  function Extensions(loader: Loader): (extensions: set<string>)
    ensures |extensions| >= 1
  {
    match loader
    case CsvLoader => {"CSV"}
    case HtmlLoader => {"HTML"}
    case PdfLoader => {"PDF"}
    case TextLoader => {"TXT", "MD"}
    case DocxLoader => {"DOCX", "DOTX"}
    case PptxLoader => {"PPTX"}
    case JsonLoader => {"JSON"}
  }

  /** The switch selects a loader for exactly its extensions, and rejects every other one. */
  lemma LoaderForMatchesExtensions(upperExtension: string, loader: Loader)
    ensures LoaderFor(upperExtension) == Some(loader) <==> upperExtension in Extensions(loader)
  {
    if upperExtension in Extensions(loader) {
      match loader
      case CsvLoader =>
      case HtmlLoader =>
      case PdfLoader =>
      case TextLoader => assert upperExtension == "TXT" || upperExtension == "MD";
      case DocxLoader => assert upperExtension == "DOCX" || upperExtension == "DOTX";
      case PptxLoader =>
      case JsonLoader =>
    }
  }

  /** The loader chosen for an object, if its extension is supported. */
  function SelectLoader(objectName: string): Option<Loader> {
    LoaderFor(ToUpper(Extension(objectName)))
  }

  /**
   * `readData(bucketName, objectName)`: the selected loader's documents for the
   * object's presigned URL. It is null (None) when the extension is unsupported,
   * when presigning throws (no S3 client, or the SDK fails), and when the loader
   * throws or itself returns null: the catch-all turns every exception into null.
   */
  function ReadData(bucketName: string, objectName: string,
                    presign: (string, string) -> Option<string>,
                    load: (Loader, string) -> Option<seq<Doc>>): (documents: Option<seq<Doc>>)
    ensures documents.Some? <==>
              && SelectLoader(objectName).Some?
              && presign(bucketName, objectName).Some?
              && load(SelectLoader(objectName).value, presign(bucketName, objectName).value).Some?
    ensures documents.Some? ==>
              documents == load(SelectLoader(objectName).value, presign(bucketName, objectName).value)
  {
    match SelectLoader(objectName)
    case None => None
    case Some(loader) =>
      match presign(bucketName, objectName)
      case None => None
      case Some(url) => load(loader, url)
  }

  /** The extension is what follows the last `.`. */
  lemma ExtensionAfterLastDot(stem: string, extension: string)
    requires '.' !in extension
    ensures Extension(stem + "." + extension) == extension
  {
    var name := stem + "." + extension;
    assert name[|stem|] == '.';
    assert forall j :: |stem| < j < |name| ==> name[j] == extension[j - |stem| - 1];
    assert LastIndexOf(name, '.') == |stem|;
    assert name[|stem| + 1..] == extension;
  }

  lemma UpperCharIdempotent(c: char)
    ensures UpperChar(UpperChar(c)) == UpperChar(c)
  {
  }

  /** Upper-casing twice changes nothing more. */
  lemma ToUpperIdempotent(s: string)
    ensures ToUpper(ToUpper(s)) == ToUpper(s)
  {
    forall i | 0 <= i < |s| ensures ToUpper(ToUpper(s))[i] == ToUpper(s)[i] {
      UpperCharIdempotent(s[i]);
    }
  }

  lemma UpperCharKeepsDot(c: char)
    ensures UpperChar(c) == '.' <==> c == '.'
  {
  }

  /** The loader does not depend on the extension's case: upper-casing it selects the same one. */
  lemma SelectLoaderIgnoresCase(stem: string, extension: string)
    requires '.' !in extension
    ensures SelectLoader(stem + "." + ToUpper(extension)) == SelectLoader(stem + "." + extension)
  {
    ExtensionAfterLastDot(stem, extension);
    forall i | 0 <= i < |extension| ensures ToUpper(extension)[i] != '.' {
      UpperCharKeepsDot(extension[i]);
    }
    ExtensionAfterLastDot(stem, ToUpper(extension));
    ToUpperIdempotent(extension);
  }

  /** An object whose name ends in a supported extension, in any case, is read by its loader. */
  lemma SupportedExtensionSelects(stem: string, extension: string, loader: Loader)
    requires '.' !in extension && ToUpper(extension) in Extensions(loader)
    ensures SelectLoader(stem + "." + extension) == Some(loader)
  {
    ExtensionAfterLastDot(stem, extension);
    LoaderForMatchesExtensions(ToUpper(extension), loader);
  }

  /** An object whose extension no loader claims makes `readData` return null. */
  lemma UnsupportedExtensionRejected(bucketName: string, stem: string, extension: string,
                                     presign: (string, string) -> Option<string>, load: (Loader, string) -> Option<seq<Doc>>)
    requires '.' !in extension
    requires forall loader: Loader :: ToUpper(extension) !in Extensions(loader)
    ensures ReadData(bucketName, stem + "." + extension, presign, load).None?
  {
    ExtensionAfterLastDot(stem, extension);
    if LoaderFor(ToUpper(extension)).Some? {
      LoaderForMatchesExtensions(ToUpper(extension), LoaderFor(ToUpper(extension)).value);
    }
  }

  /** Only the last extension counts, in any case. */
  lemma MixedCaseExample(stem: string)
    ensures SelectLoader(stem + ".PdF") == Some(PdfLoader)
  {
    assert stem + ".PdF" == stem + "." + "PdF";
    ExtensionAfterLastDot(stem, "PdF");
    assert ToUpper("PdF") == "PDF" by {
      assert UpperChar('d') == 'D';
    }
  }

  /** A supported extension followed by an unsupported one is rejected. */
  lemma LastExtensionExample(stem: string)
    ensures SelectLoader(stem + ".md.gz") == None
  {
    assert stem + ".md.gz" == (stem + ".md") + "." + "gz";
    ExtensionAfterLastDot(stem + ".md", "gz");
    assert ToUpper("gz") == "GZ" by {
      assert UpperChar('g') == 'G' && UpperChar('z') == 'Z';
    }
  }
}
