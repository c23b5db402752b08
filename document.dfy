/**
 * `Document::parse`: splits the front matter off a markdown file and decodes it into the
 * document's slug and keywords.
 */
module Document {
  import opened Wrappers
  import opened Strings
  import opened FrontMatter

  /** `document::FrontMatter`: the fields the linker reads from the front matter. */
  datatype Header = Header(slug: string, keywords: seq<string>)

  /** `document::Document`: the decoded header, the raw front matter and the markdown body. */
  datatype Doc = Doc(header: Header, frontMatterAll: string, body: string)

  datatype DocError =
    | MissingFrontMatter  // "Failed to parse front matter"
    | Undecodable         // the front matter is not a valid header

  /**
   * `Document::parse`, with the YAML decoding of the front matter (`serde_yaml::from_str`)
   * given as `decode`. It uses the corrected `SplitFrontMatter`: on input whose trimmed form is
   * shorter than `---` (such as `""`) it fails with `MissingFrontMatter`, where the source panics.
   */
  function Parse(content: string, decode: string -> Option<Header>): (r: Result<Doc, DocError>)
    ensures r.Success? ==> TrimStart(content) == Open + r.value.frontMatterAll + Close + r.value.body
    ensures r.Success? ==> decode(r.value.frontMatterAll) == Some(r.value.header)
    ensures r.Failure? ==> (r.error == MissingFrontMatter <==> SplitFrontMatter(content).None?)
  {
    match SplitFrontMatter(content)
    case None => Failure(MissingFrontMatter)
    case Some((fm, md)) =>
      match decode(fm)
      case None => Failure(Undecodable)
      case Some(header) => Success(Doc(header, fm, md))
  }

  /**
   * A parsed document is the input's front matter and body, around the first closing line,
   * with the header decoded from that front matter.
   */
  lemma ParseSound(content: string, decode: string -> Option<Header>)
    requires Parse(content, decode).Success?
    ensures var d := Parse(content, decode).value;
      && TrimStart(content) == Open + d.frontMatterAll + Close + d.body
      && NoCloseBefore(d.frontMatterAll + Close + d.body, |d.frontMatterAll|)
      && decode(d.frontMatterAll) == Some(d.header)
  {
    var d := Parse(content, decode).value;
    SplitFrontMatterIff(content, d.frontMatterAll, d.body);
  }

  /** Parsing fails with `MissingFrontMatter` exactly when there is nothing to split, and otherwise only when decoding fails. */
  lemma ParseFails(content: string, decode: string -> Option<Header>)
    ensures Parse(content, decode) == Failure(MissingFrontMatter) <==> SplitFrontMatter(content).None?
    ensures Parse(content, decode) == Failure(Undecodable) <==>
      SplitFrontMatter(content).Some? && decode(SplitFrontMatter(content).value.0).None?
  {
  }
}
