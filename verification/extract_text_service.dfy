/**
  `Documents::ExtractTextService`: turns an attached `.docx` blob into plain
  text, one paragraph per line, and degrades every failure to "".  Reading the
  blob and parsing it with the Docx library are outside the model: their
  outcome, the paragraph texts or a raised error, is a parameter.
 */
module ExtractTextService {
  import opened Optional
  import opened RubyStrings
  import opened Storage

  /** What downloading and parsing the blob yields. */
  datatype Extraction = Paragraphs(texts: seq<string>) | Raised(error: string)

  /**
    `docx_blob?`: a `.docx` extension (any letter case) or the OOXML MIME type.
    The extension is read from the blob's name as ActiveStorage shows it,
    stripped and with unsafe characters replaced.
   */
  predicate IsDocxBlob(blob: Blob) {
    Downcase(ExtName(SanitizedFilename(blob.filename))) == ".docx" || blob.contentType == DocxMime
  }

  /** `parts.join(sep)`. */
  function Join(parts: seq<string>, sep: string): string {
    if parts == [] then ""
    else if |parts| == 1 then parts[0]
    else parts[0] + sep + Join(parts[1..], sep)
  }

  /** `call`: blank blob, non-docx blob and a raised error all give "". */
  function Call(blob: Option<Blob>, extraction: Extraction): (text: string)
    ensures blob.None? ==> text == ""
    ensures blob.Some? && !IsDocxBlob(blob.value) ==> text == ""
    ensures extraction.Raised? ==> text == ""
  {
    if blob.None? then ""
    else if !IsDocxBlob(blob.value) then ""
    else match extraction
      case Raised(_) => ""
      case Paragraphs(texts) => Join(texts, "\n")
  }

  /** A docx blob whose paragraphs were read yields them joined by newlines. */
  lemma CallJoinsParagraphs(blob: Blob, texts: seq<string>)
    requires IsDocxBlob(blob)
    ensures Call(Some(blob), Paragraphs(texts)) == Join(texts, "\n")
    ensures texts == [] ==> Call(Some(blob), Paragraphs(texts)) == ""
  {
  }

  predicate NoNewline(texts: seq<string>) {
    forall k :: 0 <= k < |texts| ==> '\n' !in texts[k]
  }

  /** Joining n newline-free paragraphs puts exactly n - 1 newlines between them. */
  lemma {:induction false} JoinAddsSeparators(texts: seq<string>)
    requires texts != [] && NoNewline(texts)
    ensures Count(Join(texts, "\n"), '\n') == |texts| - 1
  {
    if |texts| > 1 {
      JoinAddsSeparators(texts[1..]);
      CountAppend(texts[0] + "\n", Join(texts[1..], "\n"), '\n');
      CountAppend(texts[0], "\n", '\n');
    }
  }

  /** Splitting at every newline, keeping empty lines: the inverse of `join("\n")`. */
  function Lines(s: string): (r: seq<string>)
    ensures |r| >= 1
  {
    if s == [] then [""]
    else if s[0] == '\n' then [""] + Lines(s[1..])
    else var rest := Lines(s[1..]); [[s[0]] + rest[0]] + rest[1..]
  }

  lemma {:induction false} LinesOfLine(p: string)
    requires '\n' !in p
    ensures Lines(p) == [p]
  {
    if p != [] {
      assert p[0] != '\n' && '\n' !in p[1..];
      LinesOfLine(p[1..]);
      assert [p[0]] + p[1..] == p;
    }
  }

  lemma {:induction false} LinesOfLineThenRest(p: string, rest: string)
    requires '\n' !in p
    ensures Lines(p + "\n" + rest) == [p] + Lines(rest)
  {
    if p == [] {
      assert p + "\n" + rest == "\n" + rest;
      assert ("\n" + rest)[1..] == rest;
    } else {
      var s := p + "\n" + rest;
      assert s[0] == p[0] && s[0] != '\n';
      assert s[1..] == p[1..] + "\n" + rest;
      LinesOfLineThenRest(p[1..], rest);
      assert [p[0]] + p[1..] == p;
    }
  }

  /** The paragraphs can be read back from the extracted text, line by line. */
  lemma {:induction false} LinesOfJoin(texts: seq<string>)
    requires texts != [] && NoNewline(texts)
    ensures Lines(Join(texts, "\n")) == texts
  {
    if |texts| == 1 {
      LinesOfLine(texts[0]);
    } else {
      LinesOfJoin(texts[1..]);
      LinesOfLineThenRest(texts[0], Join(texts[1..], "\n"));
    }
  }
}
