/**
 * The publication reference of the MIBiG JSON schema (models/schema/publication.rs):
 * a typed identifier written as one string `<tag>:<id>`, where the tag is one
 * of `pubmed`, `doi`, `url`, `patent`.
 */
module Publication {
  import opened Wrappers
  import Text

  datatype PublicationType = Pubmed | Doi | Patent | Url

  datatype Publication = Publication(idType: PublicationType, id: string)

  const FormatError: string := "invalid publication format"
  const TypeError: string := "invalid publication type"

  /** The tag `serialize` writes for each type. */
  function Tag(t: PublicationType): (s: string)
    ensures s != [] && forall i :: 0 <= i < |s| ==> 'a' <= s[i] <= 'z'
  {
    match t
    case Pubmed => "pubmed"
    case Doi => "doi"
    case Url => "url"
    case Patent => "patent"
  }

  /** The tag table of `visit_str`: exact, case-sensitive matches only. */
  function TypeOfTag(tag: string): (r: Option<PublicationType>)
    ensures r.Some? <==> tag in {"pubmed", "doi", "url", "patent"}
    ensures r.Some? ==> Tag(r.value) == tag
  {
    if tag == "pubmed" then Some(Pubmed)
    else if tag == "doi" then Some(Doi)
    else if tag == "url" then Some(Url)
    else if tag == "patent" then Some(Patent)
    else None
  }

  /** `Serialize for Publication`: the first `:` of the output is the one right
      after the tag, so everything after it is the id. */
  function Serialize(p: Publication): (s: string)
    ensures Text.SplitOnce(s, ':') == Some((Tag(p.idType), p.id))
  {
    Text.SplitOnceOfJoin(Tag(p.idType), ':', p.id);
    Tag(p.idType) + ":" + p.id
  }

  /**
   * `PublicationVisitor::visit_str`. Splits at the first `:` only, rejects a
   * string without one as a format error and an unknown prefix as a type error.
   * Every accepted string is exactly the serialisation of what it parses to.
   */
  function VisitStr(value: string): (r: Result<Publication, string>)
    ensures r == Err(FormatError) <==> ':' !in value
    ensures r == Err(TypeError) <==>
              ':' in value && TypeOfTag(Text.BeforeFirst(value, ':')).None?
    ensures r.Err? ==> r.error in {FormatError, TypeError}
    ensures r.Ok? ==> Serialize(r.value) == value
  {
    match Text.SplitOnce(value, ':')
    case None => Err(FormatError)
    case Some((tag, id)) =>
      match TypeOfTag(tag)
      case None => Err(TypeError)
      case Some(t) => Ok(Publication(t, id))
  }

  /** Parsing the serialisation of any publication gives it back. */
  lemma RoundTrip(p: Publication)
    ensures VisitStr(Serialize(p)) == Ok(p)
  {
    assert TypeOfTag(Tag(p.idType)) == Some(p.idType);
  }

  /** A string parses to `p` exactly when it is the serialisation of `p`. */
  lemma ParsesExactlySerialisations(s: string, p: Publication)
    ensures VisitStr(s) == Ok(p) <==> s == Serialize(p)
  {
    if s == Serialize(p) {
      RoundTrip(p);
    }
  }

  /** Distinct publications serialise differently. */
  lemma SerializeInjective(p: Publication, q: Publication)
    requires Serialize(p) == Serialize(q)
    ensures p == q
  {
    RoundTrip(p);
    RoundTrip(q);
  }

  /** The id is kept whole after the first colon: a URL with its own colons,
      or an empty id, comes back unchanged. */
  lemma IdKeptWhole(t: PublicationType, id: string)
    ensures VisitStr(Tag(t) + ":" + id) == Ok(Publication(t, id))
  {
    RoundTrip(Publication(t, id));
  }

  /** A URL id keeps its own colons. */
  lemma UrlIdKeepsColons()
    ensures VisitStr("url:https://example.org") == Ok(Publication(Url, "https://example.org"))
  {
    assert "url:https://example.org" == Tag(Url) + ":" + "https://example.org";
    IdKeptWhole(Url, "https://example.org");
  }

  /** An empty id after the colon is accepted. */
  lemma EmptyIdAccepted()
    ensures VisitStr("doi:") == Ok(Publication(Doi, ""))
  {
    assert "doi:" == Tag(Doi) + ":" + "";
    IdKeptWhole(Doi, "");
  }

  /** Tags are matched case-sensitively. */
  lemma UpperCaseTagRejected()
    ensures VisitStr("DOI:1") == Err(TypeError)
  {
    Text.SplitOnceOfJoin("DOI", ':', "1");
    assert "DOI:1" == "DOI" + [':'] + "1";
  }
}
