/** filters/Linebreak.kt: rewrites every ".java" blob so that all its line
    breaks are the configured one. */
module LineBreaks {
  import opened KotlinText

  datatype Result<T> = Ok(value: T) | Failure(error: string)

  /** LineBreakConverter: `lines()` joined with the converter's separator. */
  datatype LineBreakConverter = CR | LF | CRLF
  {
    function Separator(): (sep: string)
      ensures IsLineSeparator(sep)
    {
      match this
      case CR => "\r"
      case LF => "\n"
      case CRLF => "\r\n"
    }

    /** The text's lines are kept, only the breaks between them change. */
    function Convert(txt: string): (r: string)
      ensures Lines(r) == Lines(txt)
    {
      LinesOfJoin(Lines(txt), Separator());
      Join(Lines(txt), Separator())
    }
  }

  /** The default of the `--to` option. */
  const DefaultOption := "LF"

  /** LineBreakerConverterConverter.convert: an exception for any other value. */
  function ParseConverter(value: string): (r: Result<LineBreakConverter>)
    ensures r.Ok? <==> value in {"CR", "cr", "LF", "lf", "CRLF", "crlf"}
    ensures r.Ok? ==> Lowercase(value) == Lowercase(Name(r.value))
  {
    match value
    case "CR" => Ok(CR)
    case "cr" => Ok(CR)
    case "LF" => Ok(LF)
    case "lf" => Ok(LF)
    case "CRLF" => Ok(CRLF)
    case "crlf" => Ok(CRLF)
    case _ => Failure("--to: Invalid argument")
  }

  function Name(c: LineBreakConverter): string
  {
    match c
    case CR => "CR"
    case LF => "LF"
    case CRLF => "CRLF"
  }

  /** Every converter's name, in upper or lower case, parses back to it; the
      default gives LF; mixed case is refused. */
  lemma ParseNames(c: LineBreakConverter)
    ensures ParseConverter(Name(c)) == Ok(c)
    ensures ParseConverter(Lowercase(Name(c))) == Ok(c)
    ensures ParseConverter(DefaultOption) == Ok(LF)
    ensures ParseConverter("Lf").Failure?
  {
    assert Lowercase("CR") == "cr";
    assert Lowercase("LF") == "lf";
    assert Lowercase("CRLF") == "crlf";
  }

  /** What `rewriteBlob` does with an entry: the engine's default rewrite,
      or a new blob with the converted content. */
  datatype BlobRewrite = Delegate | Write(content: string)

  /** `rewriteBlob` on the entry's name and its content decoded as UTF-8. */
  function RewriteBlob(converter: LineBreakConverter, entryName: string, content: string): (r: BlobRewrite)
    ensures r.Delegate? <==> !EndsWith(Lowercase(entryName), ".java")
    ensures r.Write? ==> Lines(r.content) == Lines(content)
  {
    if !EndsWith(Lowercase(entryName), ".java") then Delegate
    else Write(converter.Convert(content))
  }

  /** Converting again changes nothing. */
  lemma ConvertIsIdempotent(c: LineBreakConverter, txt: string)
    ensures c.Convert(c.Convert(txt)) == c.Convert(txt)
  {
  }

  /** The result depends only on the target converter: converting to LF,
      then to CRLF is converting to CRLF. */
  lemma ConvertForgetsEarlierConversion(a: LineBreakConverter, b: LineBreakConverter, txt: string)
    ensures a.Convert(b.Convert(txt)) == a.Convert(txt)
  {
  }

  /** Text without line breaks is returned unchanged. */
  lemma ConvertKeepsSingleLine(c: LineBreakConverter, txt: string)
    requires NoBreak(txt)
    ensures c.Convert(txt) == txt
  {
    SingleLine(txt);
  }

  /** The characters of the result are those of the lines and the separator. */
  lemma ConvertedCharacter(c: LineBreakConverter, txt: string, k: nat)
    requires k < |c.Convert(txt)|
    ensures !IsLineBreak(c.Convert(txt)[k]) || c.Convert(txt)[k] in c.Separator()
  {
    var ls := Lines(txt);
    JoinCharacters(ls, c.Separator(), k);
    if exists i, j :: 0 <= i < |ls| && 0 <= j < |ls[i]| && ls[i][j] == c.Convert(txt)[k] {
      var i, j :| 0 <= i < |ls| && 0 <= j < |ls[i]| && ls[i][j] == c.Convert(txt)[k];
      assert NoBreak(ls[i]);
    }
  }

  /** LF output holds no '\r', CR output holds no '\n'. */
  lemma ConvertLeavesOneKindOfBreak(txt: string)
    ensures forall k :: 0 <= k < |LF.Convert(txt)| ==> LF.Convert(txt)[k] != '\r'
    ensures forall k :: 0 <= k < |CR.Convert(txt)| ==> CR.Convert(txt)[k] != '\n'
  {
    forall k | 0 <= k < |LF.Convert(txt)| ensures LF.Convert(txt)[k] != '\r' {
      ConvertedCharacter(LF, txt, k);
    }
    forall k | 0 <= k < |CR.Convert(txt)| ensures CR.Convert(txt)[k] != '\n' {
      ConvertedCharacter(CR, txt, k);
    }
  }
}
