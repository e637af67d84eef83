# Proofreading service for official documents, modelled in Dafny

The application lets a user upload a `.docx` document, extracts its text, asks an
analyzer for issues (spans of text with a suggested replacement), and shows them
in a browser editor where each issue can be highlighted, ignored, jumped to, or
replaced by its suggestion. This project models the parts of it that hold logic:

- `proofread_controller.dfy` — the editor's issue-range table (`issueRanges`, a map
  from issue id to `{index, length, suggestion}`), as a class whose methods are
  `applyHighlights`, `clearAllHighlights`, `ignore`, `replace` and `jump`, each proved
  against a specification function on maps. Lemmas state the frame of each operation,
  that the last issue with a given id wins, and that after `replace` every entry lying
  wholly before or after the replaced range still covers the same code units of the
  edited text. Indices, lengths and the shift of `replace` count UTF-16 code units, as
  JavaScript's `length` and the editor do. It also holds `escape`, the HTML escaping of issue texts, with its
  inverse and the fact that its output holds no `<`, `>`, `"` or `'`.
- `analyzer_service.dfy` — `Ai::AnalyzerService.call`, a two-rule mock that reports
  the leftmost occurrence of "貴單位" and of "請貴部門". The call is characterised
  completely: which issues appear, in which order, where they start and end, and with
  which message, suggestion and severity. It is also proved that its character offsets
  are UTF-16 offsets exactly when nothing before the issue lies outside the Basic
  Multilingual Plane (RFC 2781 section 2.1).
- `document.dfy` — the `Document` record with its presence validation and
  `acceptable_file` (15 MiB inclusive size bound, five-type MIME allow-list).
- `user.dfy` — the `User` email callback `email.to_s.downcase.strip`, the presence
  validation, and the format `\A[^@\s]+@[^@\s]+\z`.
- `documents_controller.dfy` — `docx_file?`, the guard order of `create` (blank
  upload, then format, then attach and validate, then extract), and `analyze`. The
  content type ActiveStorage identifies for an attached file is a parameter.
- `extract_text_service.dfy` — `ExtractTextService#call`: every failure gives "",
  otherwise the paragraphs joined by newlines; `docx_blob?`.
- `ruby_strings.dfy` and `storage.dfy` — the Ruby string operations used above
  (`to_s`, `downcase`, `strip`, `blank?`, `String#index`, `File.extname`) and the
  upload and blob records, with the name ActiveStorage shows for a blob
  (`ActiveStorage::Filename#to_s`: stripped, unsafe characters replaced by "-").
  `count` is not used by the application; it serves the proofs about the email
  format and about the newlines `join` puts between paragraphs. `blank?` counts every Unicode space, as
  ActiveSupport's `[[:space:]]` does, while `strip` removes only ASCII whitespace
  and NUL.
- `utf16.dfy` — UTF-16, the unit JavaScript strings and the editor count in, with
  how it relates to the character offsets Ruby uses.
- `validation.dfy` — the default presence and format messages, shared by both records.
- `option.dfy` — the optional value standing for Ruby's `nil`, JavaScript's `null`
  or `undefined`, and a missing map entry.

## Model

| member | source | states |
|---|---|---|
| `ProofreadController.IssueTable.constructor` | app/javascript/controllers/proofread_controller.js:40 | the table starts empty |
| `ProofreadController.IssueTable.ApplyHighlights` | app/javascript/controllers/proofread_controller.js:112-126 | the new table is the old one with one `set` per issue, in order, for exactly the issues with `end - start > 0`; every entry stays non-empty |
| `ProofreadController.HighlightAllDomain` | app/javascript/controllers/proofread_controller.js:113-122 | an id has an entry afterwards iff it had one or some issue with that id covers a character; ids no such issue carries keep their old entry |
| `ProofreadController.HighlightAllLastWins` | app/javascript/controllers/proofread_controller.js:113-122 | when several issues share an id, the last one that covers a character decides the entry (`Map.set` overwrites) |
| `ProofreadController.HighlightedEntry` | app/javascript/controllers/proofread_controller.js:114-121 | a stored entry has `index = start`, `length = end - start > 0`, and suggestion "" when the issue has none |
| `ProofreadController.IssueTable.ShowAnalysis` | app/javascript/controllers/proofread_controller.js:51-66 | after one analysis, with no other analysis overlapping it, the table holds exactly the highlights of the response's issues, nothing from before |
| `ProofreadController.IssueTable.ClearAllHighlights` | app/javascript/controllers/proofread_controller.js:128-132 | the table is empty afterwards |
| `ProofreadController.IssueTable.Ignore` | app/javascript/controllers/proofread_controller.js:135-145 | an absent id changes nothing; a present id loses its entry and every other entry is untouched |
| `ProofreadController.IssueTable.Replace` | app/javascript/controllers/proofread_controller.js:148-170 | the table becomes `AfterReplace` of the old one; the editor is asked to replace exactly the entry's range by its suggestion, and nothing when the id is absent |
| `ProofreadController.ReplaceAbsentIsNoOp` | app/javascript/controllers/proofread_controller.js:149-151 | `replace` on an absent id leaves the table as it was |
| `ProofreadController.ReplaceFrame` | app/javascript/controllers/proofread_controller.js:153-167 | `replace` deletes the id, moves exactly the entries with a larger index by the suggestion's UTF-16 length minus the range's length, and keeps every length and suggestion |
| `ProofreadController.ReplaceSameLengthKeepsOthers` | app/javascript/controllers/proofread_controller.js:158-165 | the remaining entries all stay as they were iff the suggestion takes as many UTF-16 code units as the range, or no entry starts after it |
| `ProofreadController.DeltaCountsCodeUnits` | app/javascript/controllers/proofread_controller.js:158 | the shift is at least the change in character count, and equals it iff the suggestion lies in the Basic Multilingual Plane |
| `Utf16.CharToUtf16` | app/javascript/controllers/proofread_controller.js:155 | a character takes one code unit in the Basic Multilingual Plane, otherwise a high then a low surrogate |
| `Utf16.ToUtf16` | app/javascript/controllers/proofread_controller.js:155 | the text the editor inserts for a suggestion has as many code units as its UTF-16 length |
| `Utf16.ToUtf16Append` | app/javascript/controllers/proofread_controller.js:155 | encoding distributes over concatenation |
| `Utf16.EncodedMiddle` | app/javascript/controllers/proofread_controller.js:114-124 | with everything before it in the Basic Multilingual Plane, a piece of text sits at its character offsets in the encoding |
| `ProofreadController.ReplaceKeepsNonEmpty` | app/javascript/controllers/proofread_controller.js:160-167 | `replace` keeps every entry non-empty |
| `ProofreadController.ReplaceKeepsOtherRangesAligned` | app/javascript/controllers/proofread_controller.js:153-164 | an entry wholly after or wholly before the replaced range still covers the same code units once the editor has replaced the range |
| `ProofreadController.ShiftedRangeAligned` | app/javascript/controllers/proofread_controller.js:154-162 | a range wholly after the edited one, moved by the change in UTF-16 length, covers the same code units of the edited text |
| `ProofreadController.EarlierRangeAligned` | app/javascript/controllers/proofread_controller.js:154-161 | a range wholly before the edited one, left in place, covers the same code units of the edited text |
| `ProofreadController.IssueTable.Jump` | app/javascript/controllers/proofread_controller.js:173-181 | an absent id selects nothing; a present one selects its range, and `max(1, length)` is always the stored length because entries are non-empty |
| `ProofreadController.HighlightAnalysis` | app/javascript/controllers/proofread_controller.js:112-122 | highlighting an analyzer response on an empty table gives each reported issue exactly one entry, whose index and length are the issue's character offsets and whose suggestion is the rule's, and no other entry |
| `ProofreadController.ReportedEntryCoversLiteral` | app/javascript/controllers/proofread_controller.js:114-124 | a reported issue's entry covers the literal's code units in the editor whenever no character before the issue lies outside the Basic Multilingual Plane |
| `ProofreadController.EscapeText` | app/javascript/controllers/proofread_controller.js:189-197 | the escaped text holds no `<`, `>`, `"` or `'` and is at least as long as the input |
| `ProofreadController.Escape` | app/javascript/controllers/proofread_controller.js:190 | null or undefined escapes to "" |
| `ProofreadController.UnescapeEscape` | app/javascript/controllers/proofread_controller.js:190-196 | decoding the five entities gives back the original text: escaping loses nothing |
| `ProofreadController.EscapeAppend` | app/javascript/controllers/proofread_controller.js:190 | escaping rewrites character by character, so it distributes over concatenation |
| `ProofreadController.EscapeIsIdentityIff` | app/javascript/controllers/proofread_controller.js:190-196 | a text is left unchanged iff it holds none of `&<>"'` |
| `AnalyzerService.Call` | app/services/ai/analyzer_service.rb:5-30 | one issue per rule whose literal occurs, the "貴單位" issue first; each starts at the leftmost occurrence, ends after the literal, carries the rule's message, suggestion and severity; at most two issues, each with `start < end <= |text|` |
| `AnalyzerService.ReportedSpanIsLiteral` | app/services/ai/analyzer_service.rb:9-23 | a reported issue's `text[start...end]` is exactly the rule's literal, inside the text |
| `AnalyzerService.AnalysisIsUnique` | app/services/ai/analyzer_service.rb:8-29 | the result is determined by the text and the two ids |
| `Utf16.Utf16LengthAgreesIffBmp` | app/services/ai/analyzer_service.rb:7 | a string's UTF-16 length is at least its character count, with equality iff every character lies in the Basic Multilingual Plane |
| `AnalyzerService.RuleLiteralsInBmp` | app/services/ai/analyzer_service.rb:9-19 | both rule literals lie in the Basic Multilingual Plane, so their UTF-16 length is their character count |
| `AnalyzerService.ReportedOffsetsAreUtf16Offsets` | app/services/ai/analyzer_service.rb:7 | an issue's start is also its UTF-16 offset iff no character before it lies outside the Basic Multilingual Plane, and then its end is too |
| `RubyStrings.Index` | app/services/ai/analyzer_service.rb:9 | `String#index` is nil iff the pattern does not occur, else the leftmost occurrence |
| `RubyStrings.IndexFrom` | app/services/ai/analyzer_service.rb:9 | the search behind `Index`: from a position it finds an occurrence with none between that position and it, or reports that none exists |
| `DocumentModel.AcceptableFileErrors` | app/models/document.rb:8-21 | no message without an attachment; the size message iff the size exceeds 15 MiB; the format message iff the type is not one of the five listed |
| `DocumentModel.Document.AcceptableFile` | app/models/document.rb:8-21 | appends exactly those messages to the record's errors |
| `DocumentModel.Document.Validate` | app/models/document.rb:5-6 | the errors are presence's then `acceptable_file`'s, and the record is valid iff there are none |
| `DocumentModel.ValidIffSizeAndType` | app/models/document.rb:9-20 | a record has no errors iff a file is attached, its size is at most 15 MiB and its type is listed |
| `DocumentModel.MissingFileOnlyFailsPresence` | app/models/document.rb:5-9 | without an attachment `acceptable_file` adds nothing and only presence fails |
| `DocumentModel.SizeLimitIsInclusive` | app/models/document.rb:10-12 | exactly 15 MiB is not too large |
| `DocumentModel.OversizeUnsupportedGetsBoth` | app/models/document.rb:10-20 | an oversize file of an unlisted type gets both messages, size first |
| `UserModel.NormalizeEmail` | app/models/user.rb:8 | the normalised email has no upper-case letter and no whitespace at either end; nil becomes "" |
| `UserModel.User.NormalizeBeforeValidation` | app/models/user.rb:8 | the callback stores the normalised email |
| `UserModel.User.Validate` | app/models/user.rb:4-8 | validation normalises first, then records presence's and format's messages; valid iff none |
| `UserModel.NormalizeIsIdempotent` | app/models/user.rb:8 | normalising twice equals normalising once |
| `UserModel.NormalizeIgnoresCaseAndPadding` | app/models/user.rb:8 | inputs that differ only in letter case and surrounding whitespace normalise to the same value |
| `UserModel.NormalizedBlankIsEmptyOrWideSpace` | app/models/user.rb:6-8 | an empty normalised email is blank, and a blank one that is not empty begins and ends with a Unicode space `strip` leaves in place |
| `UserModel.IdeographicSpaceIsBlank` | app/models/user.rb:6-8 | an email of one U+3000 survives normalisation, is blank, and gets both the presence and the format message |
| `UserModel.BlankEmailGetsBothErrors` | app/models/user.rb:4-8 | a blank email fails presence and then format |
| `UserModel.ValidIffFormat` | app/models/user.rb:4-6 | an email passes validation iff it matches the format |
| `UserModel.FormatIffSingleInnerAt` | app/models/user.rb:4 | the format matches iff there is exactly one `@`, neither first nor last, and no whitespace |
| `RubyStrings.TrimStartDropsSpacePrefix` | app/models/user.rb:8 | `lstrip` removes exactly the longest whitespace prefix |
| `RubyStrings.TrimEndDropsSpaceSuffix` | app/models/user.rb:8 | `rstrip` removes exactly the longest whitespace suffix |
| `RubyStrings.StripIgnoresPadding` | app/models/user.rb:8 | whitespace added at either end does not change `strip` |
| `RubyStrings.ExtNameOfStemAndExtension` | app/controllers/documents_controller.rb:50 | `File.extname` of a stem and a dot-led extension is that extension |
| `DocumentsController.Create` | app/controllers/documents_controller.rb:9-33 | a blank upload gets only the "必须上传…" message; a non-docx upload gets only the format message and is not attached; otherwise the upload is attached with its identified content type, the record validated, and a valid record gets the stripped extracted text and a redirect |
| `DocumentsController.Attach` | app/controllers/documents_controller.rb:24-32 | the blob is attached and the record validated; it redirects iff there are no errors, and only then stores the stripped extracted text as content |
| `DocumentsController.Analyze` | app/controllers/documents_controller.rb:39-44 | an unknown document gives not-found; otherwise the issues are the analyzer's result for `params[:text].to_s` |
| `DocumentsController.DocxByMime` | app/controllers/documents_controller.rb:52-53 | the OOXML MIME type makes an upload a docx file whatever its name |
| `DocumentsController.DocxByExtension` | app/controllers/documents_controller.rb:50-53 | a `.docx` extension in any letter case makes an upload a docx file whatever its type |
| `DocumentsController.NotDocxOtherwise` | app/controllers/documents_controller.rb:53 | with neither, it is not a docx file |
| `DocumentsController.DocxBlobAgreesWithDocxFile` | app/services/documents/extract_text_service.rb:26-32 | for an upload whose name ActiveStorage shows unchanged, `docx_blob?` of the attached blob agrees with `docx_file?` of the upload when the identified type is the declared one, and a `.docx` extension always passes it; whenever the shown name has no `.docx` extension, the blob passes iff the identified type is the OOXML one |
| `DocumentsController.LeadingPaddingExtNames` | app/services/documents/extract_text_service.rb:27 | " .docx" has the extension ".docx" as uploaded and none as shown, where it is a leading-dot name |
| `DocumentsController.TrailingPaddingExtNames` | app/services/documents/extract_text_service.rb:27 | "a.docx " has the extension ".docx " as uploaded and ".docx" as shown |
| `DocumentsController.LeadingPaddingAcceptedButUnread` | app/controllers/documents_controller.rb:50-53 | with a PDF type, " .docx" passes `docx_file?` on its extension, yet extraction from its blob gives "" |
| `DocumentsController.TrailingPaddingRefusedButReadable` | app/services/documents/extract_text_service.rb:26-32 | with a PDF type, "a.docx " fails `docx_file?`, yet a blob of that name yields its paragraphs |
| `DocumentsController.ExtensionOnlyFailsFormatCheck` | app/controllers/documents_controller.rb:53 | an upload passing on its extension alone, whose identified type is unlisted, passes `docx_file?` yet fails `acceptable_file` |
| `DocumentsController.MimeAcceptedPassesFormatCheck` | app/controllers/documents_controller.rb:52-53 | an upload passing on its MIME type, when identification confirms that type, passes the format check |
| `Storage.SanitizedFilename` | app/services/documents/extract_text_service.rb:27 | the name a blob shows is the stored one stripped, with each of U+202E `%$\|:;/<>?*"`, tab, CR, LF and backslash replaced by "-": it holds none of them and has no whitespace at either end |
| `Storage.SanitizedIffClean` | app/services/documents/extract_text_service.rb:27 | a name is shown unchanged iff it has no whitespace at either end and no unsafe character |
| `Storage.SanitizedIsIdempotent` | app/services/documents/extract_text_service.rb:27 | a shown name is clean, so showing it again changes nothing |
| `ExtractTextService.Call` | app/services/documents/extract_text_service.rb:14-22 | a blank blob, a non-docx blob (judged by the extension of its shown name or by its type) and a raised error each give "" |
| `ExtractTextService.CallJoinsParagraphs` | app/services/documents/extract_text_service.rb:18 | a docx blob yields its paragraphs joined by newlines, "" for none |
| `ExtractTextService.JoinAddsSeparators` | app/services/documents/extract_text_service.rb:42 | n newline-free paragraphs are joined with exactly n - 1 newlines |
| `ExtractTextService.LinesOfJoin` | app/services/documents/extract_text_service.rb:42 | splitting the extracted text at newlines gives back the paragraphs |

## Left out

- The HTTP client for the language model (`app/services/ai/siliconflow_client.rb`): network I/O; the analyzer modelled here is the mock.
- The editor library's effects (`formatText`, `deleteText`, `insertText`, `setSelection`), the HTML of `renderIssues`, `fetch` and the CSRF token, and the `setTimeout` flash in `jump`: foreign-library and DOM effects. `replace` and `jump` return the edit and selection they ask for instead.
- `ProofreadController.IssueTable.ShowAnalysis`: the request awaited between clearing and highlighting is taken as atomic. Two overlapping analyses (clear, clear, apply, apply) leave the first response's entries beside the second's; interleavings are not modelled.
- `Storage.BlobOf`: the identified content type is a parameter because identification reads the file's bytes. The name is stored as uploaded and sanitised where it is shown (`Storage.SanitizedFilename`); the replacement of invalid UTF-8 in that step is not modelled, as names here are sequences of characters already.
- `DocumentsController.DocxBlobAgreesWithDocxFile`: its first two clauses are stated for names ActiveStorage shows unchanged only; for other names the two checks can disagree either way, as `LeadingPaddingAcceptedButUnread` and `TrailingPaddingRefusedButReadable` show.
- The empty-text guard at the start of the editor's `analyze`: it depends on JavaScript's `trim` and the editor's text, which are not modelled; `ShowAnalysis` starts after it.
- Issue fields that are not integers (`start`/`end` missing or non-numeric in the response) and `escape` on values that are neither strings nor null: JavaScript coercions are not modelled.
- `app/javascript/controllers/dashboard_controller.js` and `app/javascript/sessions.js`: DOM event wiring.
- `app/controllers/sessions_controller.rb`: authentication and sessions; only its email transform, which is `NormalizeEmail`, is relevant.
- Persistence: `save`, `update!`, `attach` and `find` are reduced to the record's state and a `documentExists` flag; the database-backed uniqueness validation of `User#email` is not modelled.
- `UserModel.User.Validate`: covers the email validations only; the password validations `has_secure_password` adds (app/models/user.rb:2) are not modelled, as password hashing is outside the model.
- The Docx library, the temporary file and the UTF-8 re-encoding in the extraction service: the paragraphs, or the error raised, are a parameter.
- `SecureRandom.uuid`: issue ids are opaque strings supplied by the caller.
- `RubyStrings.Downcase`: folds ASCII letters only, where Ruby folds all of Unicode.
- `RubyStrings.ExtName`: takes the text after the last `/`, skips its leading dots and returns the part from the last dot on; Ruby's further special cases are not modelled.
- Presence and format messages are Rails' default English texts.
