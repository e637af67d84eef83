/**
  The two shapes a file takes in the application: the upload a form delivers
  (`ActionDispatch::Http::UploadedFile`) and the ActiveStorage blob a record
  holds once the upload is attached.  A nil content type reads as "", which is
  what `to_s` makes of it.
 */
module Storage {
  import opened RubyStrings

  /** The OOXML word-processing MIME type, the one a `.docx` file carries. */
  const DocxMime: string := "application/vnd.openxmlformats-officedocument.wordprocessingml.document"

  datatype Upload = Upload(originalFilename: string, contentType: string, byteSize: nat)

  datatype Blob = Blob(filename: string, contentType: string, byteSize: nat)

  /**
    What `attach` stores for an upload: its name and size, and the content type
    ActiveStorage identifies for it.  Identification looks at the file's bytes
    as well as the declared type and the name, so the identified type is a
    parameter; it need not equal the declared one.
   */
  function BlobOf(u: Upload, identifiedType: string): Blob {
    Blob(u.originalFilename, identifiedType, u.byteSize)
  }

  /** The characters `ActiveStorage::Filename#sanitized` replaces by "-". */
  predicate IsUnsafeFilenameChar(c: char) {
    || c == '\U{202E}' || c == '%' || c == '$' || c == '|' || c == ':' || c == ';'
    || c == '/' || c == '<' || c == '>' || c == '?' || c == '*' || c == '"'
    || c == '\t' || c == '\r' || c == '\n' || c == '\\'
  }

  /**
    `ActiveStorage::Filename#to_s`: the stored name, stripped, with every unsafe
    character replaced by "-".  The result has no unsafe character and no
    whitespace at either end.
   */
  function SanitizedFilename(name: string): (r: string)
    ensures |r| == |Strip(name)|
    ensures forall i :: 0 <= i < |r| ==> !IsUnsafeFilenameChar(r[i])
    ensures r == [] || (!IsStripSpace(r[0]) && !IsStripSpace(r[|r| - 1]))
  {
    var s := Strip(name);
    seq(|s|, i requires 0 <= i < |s| => if IsUnsafeFilenameChar(s[i]) then '-' else s[i])
  }

  /** A name ActiveStorage shows unchanged: no padding and no unsafe character. */
  predicate IsCleanFilename(name: string) {
    (name == [] || (!IsStripSpace(name[0]) && !IsStripSpace(name[|name| - 1])))
    && forall i :: 0 <= i < |name| ==> !IsUnsafeFilenameChar(name[i])
  }

  /** Sanitising leaves a name unchanged exactly when the name is clean. */
  lemma SanitizedIffClean(name: string)
    ensures SanitizedFilename(name) == name <==> IsCleanFilename(name)
  {
    if IsCleanFilename(name) && name != [] {
      assert TrimEnd(name) == name;
      assert TrimStart(name) == name;
    }
  }

  /** A sanitised name is clean, so sanitising twice changes nothing more. */
  lemma SanitizedIsIdempotent(name: string)
    ensures IsCleanFilename(SanitizedFilename(name))
    ensures SanitizedFilename(SanitizedFilename(name)) == SanitizedFilename(name)
  {
    SanitizedIffClean(SanitizedFilename(name));
  }

  /** A leading space goes: " .docx" is shown as the leading-dot name ".docx". */
  lemma ShownNameDropsLeadingSpace()
    ensures SanitizedFilename(" .docx") == ".docx"
  {
    var name: string := " .docx";
    assert Strip(name) == ".docx" by {
      assert TrimEnd(name) == name;
      assert name[1..] == ".docx";
    }
  }

  /** A trailing space goes: "a.docx " is shown as "a.docx". */
  lemma ShownNameDropsTrailingSpace()
    ensures SanitizedFilename("a.docx ") == "a.docx"
  {
    var name: string := "a.docx ";
    assert Strip(name) == "a.docx" by {
      assert TrimEnd(name) == TrimEnd(name[..6]);
      assert name[..6] == "a.docx";
    }
  }
}
