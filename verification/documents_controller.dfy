/**
  `DocumentsController`: `create` takes an upload through two guards (present,
  then `.docx`) before attaching it and saving the record; `analyze` hands the
  posted text to the analyzer and returns its issues; `docx_file?` is the
  format guard.  Rendering, redirects and persistence are reduced to the
  response kind and the record's state.
 */
module DocumentsController {
  import opened Optional
  import opened RubyStrings
  import opened Storage
  import opened DocumentModel
  import ExtractTextService
  import AnalyzerService

  const MustUploadDocx: string := "必须上传一个 .docx 文件"
  const OnlyDocxSupported: string := "目前只支持 .docx 格式的 Word 文件"

  datatype CreateResponse =
    | UnprocessableNew   // `render :new, status: :unprocessable_entity`
    | RedirectToDocument // `redirect_to document_path(@document)`

  datatype AnalyzeResponse =
    | NotFound                               // `Document.find` raised
    | Json(issues: seq<AnalyzerService.Issue>) // `render json: { issues: ... }`

  /** `docx_file?`: the OOXML MIME type, or a `.docx` extension in any letter case. */
  predicate IsDocxFile(u: Upload) {
    u.contentType == DocxMime || Downcase(ExtName(u.originalFilename)) == ".docx"
  }

  /**
    `create`.  A missing upload and a non-docx upload each get one message and
    no attachment; otherwise the upload is attached, with the content type
    ActiveStorage identifies for it, and the record validated, and a valid
    record gets the extracted text, stripped, as its content.
   */
  method Create(title: Option<string>, upload: Option<Upload>, identifiedType: string,
                extraction: ExtractTextService.Extraction)
    returns (document: Document, response: CreateResponse)
    ensures fresh(document) && document.title == title
    ensures match upload
      case None =>
        response == UnprocessableNew && document.errors == [MustUploadDocx] && document.file.None?
      case Some(u) =>
        if !IsDocxFile(u) then
          response == UnprocessableNew && document.errors == [OnlyDocxSupported] && document.file.None?
        else
          && document.file == Some(BlobOf(u, identifiedType))
          && document.errors == ValidationErrors(document.file)
          && (response == RedirectToDocument <==> document.errors == [])
    ensures response == RedirectToDocument ==>
      document.content == Some(Strip(ExtractTextService.Call(document.file, extraction)))
    ensures response == UnprocessableNew ==> document.content.None?
  {
    document := new Document(title);
    if upload.None? {
      document.errors := document.errors + [MustUploadDocx];
      return document, UnprocessableNew;
    }
    if !IsDocxFile(upload.value) {
      document.errors := document.errors + [OnlyDocxSupported];
      return document, UnprocessableNew;
    }
    response := Attach(document, BlobOf(upload.value, identifiedType), extraction);
  }

  /**
    The second half of `create`: attach the blob, save (validate) the record,
    and on success store the stripped extracted text as its content.
   */
  method Attach(document: Document, blob: Blob, extraction: ExtractTextService.Extraction)
    returns (response: CreateResponse)
    modifies document
    ensures document.file == Some(blob)
    ensures document.errors == ValidationErrors(Some(blob))
    ensures response == RedirectToDocument <==> document.errors == []
    ensures response == RedirectToDocument ==>
      document.content == Some(Strip(ExtractTextService.Call(Some(blob), extraction)))
    ensures response == UnprocessableNew ==> document.content == old(document.content)
  {
    document.file := Some(blob);
    var saved := document.Validate();
    if saved {
      document.content := Some(Strip(ExtractTextService.Call(Some(blob), extraction)));
      response := RedirectToDocument;
    } else {
      response := UnprocessableNew;
    }
  }

  /** `analyze`: the issues of `AnalyzerService.call(params[:text].to_s)`, or 404 for an unknown document. */
  method Analyze(documentExists: bool, text: Option<string>, unitId: string, departmentId: string)
    returns (response: AnalyzeResponse)
    ensures !documentExists ==> response == NotFound
    ensures documentExists ==>
      response.Json? && AnalyzerService.IsAnalysis(ToS(text), unitId, departmentId, response.issues)
  {
    if !documentExists {
      return NotFound;
    }
    var issues := AnalyzerService.Call(ToS(text), unitId, departmentId);
    response := Json(issues);
  }

  /** The MIME type alone makes an upload a docx file, whatever its name. */
  lemma DocxByMime(u: Upload)
    requires u.contentType == DocxMime
    ensures IsDocxFile(u)
  {
  }

  /** The extension alone makes an upload a docx file in any letter case, whatever its type. */
  lemma DocxByExtension(stem: string, ext: string, contentType: string, size: nat)
    requires stem != [] && stem[0] != '.' && '/' !in stem
    requires |ext| == 5 && Downcase(ext) == ".docx"
    ensures IsDocxFile(Upload(stem + ext, contentType, size))
  {
    assert ext[0] == Downcase(ext)[0] == '.';
    assert forall i :: 1 <= i < 5 ==> ext[i] != '.' && ext[i] != '/' by {
      forall i | 1 <= i < 5 ensures ext[i] != '.' && ext[i] != '/' {
        assert LowerChar(ext[i]) == Downcase(ext)[i];
      }
    }
    assert '.' !in ext[1..] && '/' !in ext;
    ExtNameOfStemAndExtension(stem, ext);
  }

  /** Neither the MIME type nor the extension: not a docx file. */
  lemma NotDocxOtherwise(u: Upload)
    requires u.contentType != DocxMime && Downcase(ExtName(u.originalFilename)) != ".docx"
    ensures !IsDocxFile(u)
  {
  }

  /**
    `docx_blob?` of the attached blob against `docx_file?` of the upload.  For
    an upload whose name ActiveStorage keeps as it is, they agree when the
    identified type is the declared one, and an upload accepted for its
    extension is treated as docx again.  Whenever the shown name has no `.docx`
    extension, the blob is treated as docx exactly when the identified type is
    the OOXML one.
   */
  lemma DocxBlobAgreesWithDocxFile(u: Upload, identifiedType: string)
    ensures IsCleanFilename(u.originalFilename) && identifiedType == u.contentType ==>
      (ExtractTextService.IsDocxBlob(BlobOf(u, identifiedType)) <==> IsDocxFile(u))
    ensures IsCleanFilename(u.originalFilename) && Downcase(ExtName(u.originalFilename)) == ".docx" ==>
      ExtractTextService.IsDocxBlob(BlobOf(u, identifiedType))
    ensures Downcase(ExtName(SanitizedFilename(u.originalFilename))) != ".docx" ==>
      (ExtractTextService.IsDocxBlob(BlobOf(u, identifiedType)) <==> identifiedType == DocxMime)
  {
    SanitizedIffClean(u.originalFilename);
  }

  lemma DocxExtensionIsLowerCase()
    ensures Downcase(".docx") == ".docx"
  {
    assert HasNoUpper(".docx");
    DowncaseOfLower(".docx");
  }

  /** " .docx" has an extension as uploaded, but none as shown: it is then a leading-dot name. */
  lemma LeadingPaddingExtNames()
    ensures ExtName(" .docx") == ".docx"
    ensures ExtName(SanitizedFilename(" .docx")) == ""
  {
    var name: string := " .docx";
    assert '/' !in name && DropLeadingDots(name) == name;
    assert name[1] == '.' && LastIndexOf(name, '.') == Some(1);
    ShownNameDropsLeadingSpace();
    assert DropLeadingDots(".docx") == "docx" by {
      assert ".docx"[1..] == "docx";
    }
  }

  /** "a.docx " keeps its trailing space in the extension, until it is shown. */
  lemma TrailingPaddingExtNames()
    ensures ExtName("a.docx ") == ".docx "
    ensures ExtName(SanitizedFilename("a.docx ")) == ".docx"
  {
    var name: string := "a.docx ";
    assert '/' !in name && DropLeadingDots(name) == name;
    assert name[1] == '.' && LastIndexOf(name, '.') == Some(1);
    ShownNameDropsTrailingSpace();
    var shown: string := "a.docx";
    assert '/' !in shown && DropLeadingDots(shown) == shown;
    assert shown[1] == '.' && LastIndexOf(shown, '.') == Some(1);
  }

  /**
    Padding makes the two checks part ways.  With a PDF type throughout,
    " .docx" is accepted at upload for its extension, yet its blob, shown as a
    leading-dot name, yields no text.
   */
  lemma LeadingPaddingAcceptedButUnread(size: nat, texts: seq<string>)
    ensures IsDocxFile(Upload(" .docx", "application/pdf", size))
    ensures ExtractTextService.Call(
      Some(BlobOf(Upload(" .docx", "application/pdf", size), "application/pdf")),
      ExtractTextService.Paragraphs(texts)) == ""
  {
    var u := Upload(" .docx", "application/pdf", size);
    LeadingPaddingExtNames();
    DocxExtensionIsLowerCase();
    assert IsDocxFile(u);
    assert |"application/pdf"| != |DocxMime|;
    assert Downcase("") == "";
    assert !ExtractTextService.IsDocxBlob(BlobOf(u, "application/pdf"));
  }

  /**
    The other way round: "a.docx " with a PDF type is refused at upload, yet a
    blob of that name would yield its paragraphs, since the shown name is
    "a.docx".
   */
  lemma TrailingPaddingRefusedButReadable(size: nat, texts: seq<string>)
    ensures !IsDocxFile(Upload("a.docx ", "application/pdf", size))
    ensures ExtractTextService.Call(
      Some(BlobOf(Upload("a.docx ", "application/pdf", size), "application/pdf")),
      ExtractTextService.Paragraphs(texts)) == ExtractTextService.Join(texts, "\n")
  {
    var u := Upload("a.docx ", "application/pdf", size);
    TrailingPaddingExtNames();
    DocxExtensionIsLowerCase();
    assert |"application/pdf"| != |DocxMime|;
    assert |Downcase(".docx ")| != |".docx"|;
    assert ExtractTextService.IsDocxBlob(BlobOf(u, "application/pdf"));
    ExtractTextService.CallJoinsParagraphs(BlobOf(u, "application/pdf"), texts);
  }

  /**
    An upload accepted for its `.docx` extension alone, whose identified type
    lies outside the allow-list, gets past `docx_file?` but fails
    `acceptable_file`.
   */
  lemma ExtensionOnlyFailsFormatCheck(stem: string, ext: string, declaredType: string, identifiedType: string, size: nat)
    requires stem != [] && stem[0] != '.' && '/' !in stem
    requires |ext| == 5 && Downcase(ext) == ".docx"
    requires identifiedType !in AcceptedTypes
    ensures IsDocxFile(Upload(stem + ext, declaredType, size))
    ensures UnsupportedFormat in
      AcceptableFileErrors(Some(BlobOf(Upload(stem + ext, declaredType, size), identifiedType)))
  {
    DocxByExtension(stem, ext, declaredType, size);
  }

  /**
    An upload accepted for its MIME type passes the format check whenever the
    identified type confirms it.
   */
  lemma MimeAcceptedPassesFormatCheck(u: Upload, identifiedType: string)
    requires u.contentType == DocxMime && identifiedType == u.contentType
    ensures IsDocxFile(u)
    ensures UnsupportedFormat !in AcceptableFileErrors(Some(BlobOf(u, identifiedType)))
  {
    assert AcceptedTypes[2] == DocxMime;
  }
}
