/**
 * The transfer side of the tool: the records a listing produces, the string buffer curl
 * writes a response into, the extension classifier and the download dispatch. The libcurl
 * calls themselves are outside the model; a transfer's outcome arrives as a parameter.
 */
module CurlUtils {
  import opened Wrappers
  import opened Calendar
  import opened Constants

  /** One blob of the listing: its URL, its Last-Modified date and the date in its name. */
  datatype BlobContainer = BlobContainer(url: string, lastModified: Date, fileNameDate: Date)

  /** The search window; DefaultDate in a bound means "not given". */
  datatype SearchDateParameters = SearchDateParameters(startDate: Date, endDate: Date)

  /** The std::string a transfer writes into (curl's CURLOPT_WRITEDATA target). */
  class StringBuffer {
    var value: string

    constructor ()
      ensures value == ""
    {
      value := "";
    }

    /** responseData = "": curl only appends, so the caller empties the buffer itself. */
    method Clear()
      modifies this
      ensures value == ""
    {
      value := "";
    }
  }

  /**
   * curl's write callback: appends size * nmemb bytes of the delivered data to the buffer
   * and reports them all as taken.
   */
  method WriteCallback(contents: string, size: nat, nmemb: nat, userp: StringBuffer) returns (written: nat)
    requires size * nmemb <= |contents|
    modifies userp
    ensures written == size * nmemb
    ensures userp.value == old(userp.value) + contents[..written]
  {
    written := size * nmemb;
    userp.value := userp.value + contents[..written];
  }

  /** The bytes of a response, in the order curl delivers its chunks. */
  function Concat(chunks: seq<string>): string {
    if |chunks| == 0 then "" else Concat(chunks[..|chunks| - 1]) + chunks[|chunks| - 1]
  }

  /** Concatenation distributes over splitting the chunk list. */
  lemma {:induction false} ConcatAppend(a: seq<string>, b: seq<string>)
    ensures Concat(a + b) == Concat(a) + Concat(b)
    decreases |b|
  {
    if |b| == 0 {
      assert a + b == a;
    } else {
      var ab := a + b;
      assert ab[..|ab| - 1] == a + b[..|b| - 1];
      assert ab[|ab| - 1] == b[|b| - 1];
      ConcatAppend(a, b[..|b| - 1]);
      calc {
        Concat(ab);
        Concat(a + b[..|b| - 1]) + b[|b| - 1];
        Concat(a) + Concat(b[..|b| - 1]) + b[|b| - 1];
        Concat(a) + Concat(b);
      }
    }
  }

  /**
   * PerformCurlRequest(curl) for a listing page: the transfer either fails (code 1) or
   * delivers its chunks one by one through WriteCallback (code 0). A failed transfer is
   * taken to deliver nothing.
   */
  method PerformListingRequest(response: Option<seq<string>>, buffer: StringBuffer) returns (code: int)
    modifies buffer
    ensures response.None? ==> code == 1 && buffer.value == old(buffer.value)
    ensures response.Some? ==> code == 0 && buffer.value == old(buffer.value) + Concat(response.value)
  {
    if response.None? {
      return 1;
    }
    var chunks := response.value;
    var i := 0;
    while i < |chunks|
      invariant 0 <= i <= |chunks|
      invariant buffer.value == old(buffer.value) + Concat(chunks[..i])
    {
      var n := WriteCallback(chunks[i], 1, |chunks[i]|, buffer);
      assert chunks[..i + 1][..i] == chunks[..i];
      assert chunks[i][..n] == chunks[i];
      assert Concat(chunks[..i + 1]) == Concat(chunks[..i]) + chunks[i];
      i := i + 1;
    }
    assert chunks[..i] == chunks;
    code := 0;
  }

  // ---------------------------------------------------------------------------
  // Extensions

  /** ConvertStrToFileExt: exact, case-sensitive names; anything else is UNSUPPORTED. */
  function ConvertStrToFileExt(s: string): (e: FileExtension)
    ensures e != NONE
    ensures e == UNSUPPORTED <==> s !in {"pdf", "txt", "csv", "zip", "gdx"}
  {
    if s == "pdf" then PDF
    else if s == "txt" then TXT
    else if s == "csv" then CSV
    else if s == "zip" then ZIP
    else if s == "gdx" then GDX
    else UNSUPPORTED
  }

  predicate IsSupported(e: FileExtension) {
    e != UNSUPPORTED && e != NONE
  }

  /** The name each supported extension is written with. */
  function ExtensionName(e: FileExtension): (s: string)
    requires IsSupported(e)
    ensures |s| == 3
  {
    match e
    case PDF => "pdf"
    case TXT => "txt"
    case CSV => "csv"
    case ZIP => "zip"
    case GDX => "gdx"
  }

  /** Classifying is the inverse of naming, in both directions. */
  lemma ExtensionRoundTrip(e: FileExtension, s: string)
    ensures IsSupported(e) ==> ConvertStrToFileExt(ExtensionName(e)) == e
    ensures IsSupported(ConvertStrToFileExt(s)) ==> ExtensionName(ConvertStrToFileExt(s)) == s
  {
  }

  /** Upper- or mixed-case names and the empty name are not recognised. */
  lemma ExtensionCaseSensitive()
    ensures ConvertStrToFileExt("PDF") == UNSUPPORTED
    ensures ConvertStrToFileExt("Csv") == UNSUPPORTED
    ensures ConvertStrToFileExt("") == UNSUPPORTED
  {
    assert "PDF" != "pdf";
    assert "Csv" != "csv";
  }

  // ---------------------------------------------------------------------------
  // Download dispatch

  /** The two download routines of the transfer layer. */
  datatype Transfer = TextDownload | BinaryDownload

  /** The switch in PerformCurlRequest(curl, parameters): which routine an extension goes to. */
  function Route(e: FileExtension): (t: Option<Transfer>)
    ensures t.None? <==> !IsSupported(e)
    ensures t == Some(TextDownload) <==> e == TXT || e == CSV
  {
    match e
    case TXT => Some(TextDownload)
    case CSV => Some(TextDownload)
    case GDX => Some(BinaryDownload)
    case ZIP => Some(BinaryDownload)
    case PDF => Some(BinaryDownload)
    case _ => None
  }

  /**
   * PerformCurlRequest(curl, parameters): 1 for an unsupported extension without any
   * download, otherwise the 0/1 result of the routine the extension is routed to (the
   * routines' outcomes are parameters: they do network and file I/O).
   */
  function PerformDownload(e: FileExtension, textResult: int, binaryResult: int): (code: int)
    ensures !IsSupported(e) ==> code == 1
    ensures Route(e) == Some(TextDownload) ==> code == textResult
    ensures Route(e) == Some(BinaryDownload) ==> code == binaryResult
  {
    match Route(e)
    case None => 1
    case Some(TextDownload) => textResult
    case Some(BinaryDownload) => binaryResult
  }

  /** By name: text files take the text route, the rest of the known names the binary route. */
  lemma RouteByName(s: string)
    ensures s == "txt" || s == "csv" ==> Route(ConvertStrToFileExt(s)) == Some(TextDownload)
    ensures s == "pdf" || s == "zip" || s == "gdx" ==> Route(ConvertStrToFileExt(s)) == Some(BinaryDownload)
    ensures s !in {"pdf", "txt", "csv", "zip", "gdx"} ==> PerformDownload(ConvertStrToFileExt(s), 0, 0) == 1
  {
  }
}
