/**
  The `Document` record and its two validations on the attached file: presence,
  and `acceptable_file`, which bounds the size and checks the content type
  against an allow-list.  Errors are the messages recorded against the `:file`
  attribute, in the order they are added.
 */
module DocumentModel {
  import opened Optional
  import opened RubyStrings
  import opened Storage
  import opened ValidationMessages

  /** `15.megabytes`. */
  const MaxByteSize: nat := 15 * 1024 * 1024

  const AcceptedTypes: seq<string> :=
    ["application/pdf", "application/msword", DocxMime, "text/plain", "text/markdown"]

  const TooLarge: string := "文件过大（≤ 15MB）"
  const UnsupportedFormat: string := "不支持的格式"

  /** The messages `acceptable_file` adds for an attachment (none when nothing is attached). */
  function AcceptableFileErrors(file: Option<Blob>): (r: seq<string>)
    ensures file.None? ==> r == []
    ensures |r| <= 2
    ensures TooLarge in r <==> file.Some? && file.value.byteSize > MaxByteSize
    ensures UnsupportedFormat in r <==> file.Some? && file.value.contentType !in AcceptedTypes
  {
    match file
    case None => []
    case Some(b) =>
      (if b.byteSize > MaxByteSize then [TooLarge] else [])
      + (if b.contentType in AcceptedTypes then [] else [UnsupportedFormat])
  }

  /** All validation messages, in declaration order: presence first, then `acceptable_file`. */
  function ValidationErrors(file: Option<Blob>): seq<string> {
    (if file.None? then [CantBeBlank] else []) + AcceptableFileErrors(file)
  }

  class Document {
    const title: Option<string>
    var file: Option<Blob>
    var content: Option<string>
    var errors: seq<string>

    /** `Document.new(title: ...)`: nothing attached, no errors. */
    constructor (title: Option<string>)
      ensures this.title == title && file == None && content == None && errors == []
    {
      this.title := title;
      file := None;
      content := None;
      errors := [];
    }

    /** `acceptable_file`: returns early when nothing is attached, otherwise checks size, then type. */
    method AcceptableFile()
      modifies this`errors
      ensures errors == old(errors) + AcceptableFileErrors(file)
    {
      if file.None? {
        return;
      }
      if file.value.byteSize > MaxByteSize {
        errors := errors + [TooLarge];
      }
      if file.value.contentType !in AcceptedTypes {
        errors := errors + [UnsupportedFormat];
      }
    }

    /** `valid?`: clears the errors and runs the presence validator, then `acceptable_file`. */
    method Validate() returns (valid: bool)
      modifies this`errors
      ensures errors == ValidationErrors(file)
      ensures valid <==> errors == []
    {
      errors := [];
      if file.None? {
        errors := errors + [CantBeBlank];
      }
      AcceptableFile();
      valid := errors == [];
    }
  }

  /** An attached file passes both validations exactly when it is small enough and of a listed type. */
  lemma ValidIffSizeAndType(file: Option<Blob>)
    ensures ValidationErrors(file) == [] <==>
      file.Some? && file.value.byteSize <= MaxByteSize && file.value.contentType in AcceptedTypes
  {
  }

  /** Without an attachment `acceptable_file` is silent and presence alone reports it. */
  lemma MissingFileOnlyFailsPresence()
    ensures AcceptableFileErrors(None) == []
    ensures ValidationErrors(None) == [CantBeBlank]
  {
  }

  /** The size bound is inclusive: a file of exactly 15 MiB is not too large. */
  lemma SizeLimitIsInclusive(b: Blob)
    requires b.byteSize == 15728640
    ensures TooLarge !in AcceptableFileErrors(Some(b))
  {
  }

  /** The two checks are independent: an oversize file of an unlisted type gets both messages, size first. */
  lemma OversizeUnsupportedGetsBoth(b: Blob)
    requires b.byteSize > MaxByteSize && b.contentType !in AcceptedTypes
    ensures AcceptableFileErrors(Some(b)) == [TooLarge, UnsupportedFormat]
  {
  }
}
