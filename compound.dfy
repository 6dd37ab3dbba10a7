/**
 * The database cross-reference of a compound (models/schema/compound.rs): a
 * typed identifier written `<tag>:<id>`, with one of the five tags `chebi`,
 * `chembl`, `chemspider`, `npatlas`, `pubchem`.
 */
module Compound {
  import opened Wrappers
  import Text

  datatype DatabaseType = NPAtlas | PubChem | ChEBI | ChEMBL | ChemSpider

  datatype DatabaseId = DatabaseId(idType: DatabaseType, id: string)

  const FormatError: string := "invalid database id format"
  const TypeError: string := "invalid database id type"

  /** The tag `serialize` writes for each database. */
  function Tag(t: DatabaseType): (s: string)
    ensures s != [] && forall i :: 0 <= i < |s| ==> 'a' <= s[i] <= 'z'
  {
    match t
    case ChEBI => "chebi"
    case ChEMBL => "chembl"
    case ChemSpider => "chemspider"
    case NPAtlas => "npatlas"
    case PubChem => "pubchem"
  }

  /** The tag table of `visit_str`: exact, case-sensitive matches only. */
  function TypeOfTag(tag: string): (r: Option<DatabaseType>)
    ensures r.Some? <==> tag in {"chebi", "chembl", "chemspider", "npatlas", "pubchem"}
    ensures r.Some? ==> Tag(r.value) == tag
  {
    if tag == "chebi" then Some(ChEBI)
    else if tag == "chembl" then Some(ChEMBL)
    else if tag == "chemspider" then Some(ChemSpider)
    else if tag == "npatlas" then Some(NPAtlas)
    else if tag == "pubchem" then Some(PubChem)
    else None
  }

  /** Each database has its own tag, and the tag table reads it back. */
  lemma TagsDistinct(a: DatabaseType, b: DatabaseType)
    ensures Tag(a) == Tag(b) <==> a == b
    ensures TypeOfTag(Tag(a)) == Some(a)
  {
  }

  /** `Serialize for DatabaseId`: the first `:` of the output is the one right
      after the tag. */
  function Serialize(d: DatabaseId): (s: string)
    ensures Text.SplitOnce(s, ':') == Some((Tag(d.idType), d.id))
  {
    Text.SplitOnceOfJoin(Tag(d.idType), ':', d.id);
    Tag(d.idType) + ":" + d.id
  }

  /** `DatabaseIdVisitor::visit_str`. Every accepted string is exactly the
      serialisation of what it parses to. */
  function VisitStr(value: string): (r: Result<DatabaseId, string>)
    ensures r == Err(FormatError) <==> ':' !in value
    ensures r == Err(TypeError) <==>
              ':' in value && TypeOfTag(Text.BeforeFirst(value, ':')).None?
    ensures r.Err? ==> r.error in {FormatError, TypeError}
    ensures r.Ok? ==> Serialize(r.value) == value
  {
    match Text.SplitOnce(value, ':')
    case None => Err(FormatError)
    case Some((tag, id)) =>
      match TypeOfTag(tag)
      case None => Err(TypeError)
      case Some(t) => Ok(DatabaseId(t, id))
  }

  /** Parsing the serialisation of any id gives it back, whatever the id
      holds (colons included). */
  lemma RoundTrip(d: DatabaseId)
    ensures VisitStr(Serialize(d)) == Ok(d)
  {
    TagsDistinct(d.idType, d.idType);
  }

  /** A string parses to `d` exactly when it is the serialisation of `d`;
      so serialisation is injective. */
  lemma ParsesExactlySerialisations(s: string, d: DatabaseId)
    ensures VisitStr(s) == Ok(d) <==> s == Serialize(d)
  {
    if s == Serialize(d) {
      RoundTrip(d);
    }
  }

  /** `chembl` and `chemspider` share a prefix but are told apart. */
  lemma ChemblNotChemspider(id: string)
    ensures VisitStr("chembl" + ":" + id) == Ok(DatabaseId(ChEMBL, id))
    ensures VisitStr("chemspider" + ":" + id) == Ok(DatabaseId(ChemSpider, id))
  {
    RoundTrip(DatabaseId(ChEMBL, id));
    RoundTrip(DatabaseId(ChemSpider, id));
  }
}
