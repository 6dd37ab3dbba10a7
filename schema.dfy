/**
 * The second copy of the publication codec, in models/schema.rs. It has its
 * own `PublicationType` and `Publication` types (private fields) and its own
 * `serialize`/`visit_str`, textually the same as in models/schema/publication.rs.
 * The model keeps the copy and proves that the two behave identically.
 */
module Schema {
  import opened Wrappers
  import Text
  import Shared = Publication

  datatype PublicationType = Pubmed | Doi | Patent | Url

  datatype Publication = Publication(idType: PublicationType, id: string)

  const FormatError: string := "invalid publication format"
  const TypeError: string := "invalid publication type"

  function Tag(t: PublicationType): (s: string)
    ensures s != [] && forall i :: 0 <= i < |s| ==> 'a' <= s[i] <= 'z'
  {
    match t
    case Pubmed => "pubmed"
    case Doi => "doi"
    case Url => "url"
    case Patent => "patent"
  }

  function TypeOfTag(tag: string): (r: Option<PublicationType>)
    ensures r.Some? <==> tag in {"pubmed", "doi", "url", "patent"}
    ensures r.Some? ==> Tag(r.value) == tag
  {
    if tag == "pubmed" then Some(Pubmed)
    else if tag == "doi" then Some(Doi)
    else if tag == "url" then Some(Url)
    else if tag == "patent" then Some(Patent)
    else None
  }

  /** `Serialize for Publication` in schema.rs. */
  function Serialize(p: Publication): (s: string)
    ensures Text.SplitOnce(s, ':') == Some((Tag(p.idType), p.id))
  {
    Text.SplitOnceOfJoin(Tag(p.idType), ':', p.id);
    Tag(p.idType) + ":" + p.id
  }

  /** `PublicationVisitor::visit_str` in schema.rs. */
  function VisitStr(value: string): (r: Result<Publication, string>)
    ensures r == Err(FormatError) <==> ':' !in value
    ensures r == Err(TypeError) <==>
              ':' in value && TypeOfTag(Text.BeforeFirst(value, ':')).None?
    ensures r.Err? ==> r.error in {FormatError, TypeError}
    ensures r.Ok? ==> Serialize(r.value) == value
  {
    match Text.SplitOnce(value, ':')
    case None => Err(FormatError)
    case Some((tag, id)) =>
      match TypeOfTag(tag)
      case None => Err(TypeError)
      case Some(t) => Ok(Publication(t, id))
  }

  lemma RoundTrip(p: Publication)
    ensures VisitStr(Serialize(p)) == Ok(p)
  {
    assert TypeOfTag(Tag(p.idType)) == Some(p.idType);
  }

  /** The variant of publication.rs with the same name. */
  function ToSharedType(t: PublicationType): (u: Shared.PublicationType)
    ensures Shared.Tag(u) == Tag(t)
  {
    match t
    case Pubmed => Shared.Pubmed
    case Doi => Shared.Doi
    case Patent => Shared.Patent
    case Url => Shared.Url
  }

  function ToShared(p: Publication): Shared.Publication {
    Shared.Publication(ToSharedType(p.idType), p.id)
  }

  /** The two copies agree: same text for corresponding values, and the same
      verdict (value or error message) on every input string. */
  lemma AgreesWithPublicationCodec(p: Publication, s: string)
    ensures Serialize(p) == Shared.Serialize(ToShared(p))
    ensures VisitStr(s).Ok? <==> Shared.VisitStr(s).Ok?
    ensures VisitStr(s).Ok? ==> Shared.VisitStr(s).value == ToShared(VisitStr(s).value)
    ensures VisitStr(s).Err? ==> Shared.VisitStr(s).error == VisitStr(s).error
  {
    match Text.SplitOnce(s, ':')
    case None =>
    case Some((tag, id)) =>
      assert TypeOfTag(tag).Some? <==> Shared.TypeOfTag(tag).Some?;
  }
}
