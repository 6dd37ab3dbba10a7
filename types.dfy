/**
 * `CiString` (utils/typedefs/types.rs): a string that keeps its original text
 * but compares and hashes case-insensitively, through lower-casing.
 */
module Types {
  import opened Wrappers
  import Text

  datatype CiString = CiString(value: string)

  /** The error type of `FromStr` (`fmt::Error`); never produced. */
  datatype FmtError = FmtError

  /** `CiString::new`: equal to exactly the strings that are empty. */
  function New(): (c: CiString)
    ensures Into(c) == []
    ensures forall s: string {:trigger EqText(c, s)} :: EqText(c, s) <==> s == []
  {
    CiString([])
  }

  /** `From<String>` and `From<&str>` (both take the text as it is). */
  function From(s: string): (c: CiString)
    ensures Into(c) == s
  {
    CiString(s)
  }

  /** `FromStr::from_str`: never fails, keeps the text exactly. */
  function FromStr(s: string): (r: Result<CiString, FmtError>)
    ensures r.Ok? && Into(r.value) == s
  {
    Ok(CiString(s))
  }

  /** `Into<String>`: the original, un-lower-cased text, from which the value
      is rebuilt unchanged. */
  function Into(c: CiString): (s: string)
    ensures CiString(s) == c
  {
    c.value
  }

  /** `Display::fmt`: also the original text. */
  function Display(c: CiString): (s: string)
    ensures s == Into(c)
  {
    c.value
  }

  /** `PartialEq for CiString`: identical texts are equal, and (under ASCII
      lower-casing) equal values have texts of the same length. */
  predicate Eq(a: CiString, b: CiString)
    ensures a.value == b.value ==> Eq(a, b)
    ensures Eq(a, b) ==> |a.value| == |b.value|
  {
    Text.Lower(a.value) == Text.Lower(b.value)
  }

  /** `PartialEq<String>` and `PartialEq<&str>`: both lower-case the other side. */
  predicate EqText(a: CiString, s: string)
    ensures EqText(a, s) <==> Eq(a, From(s))
  {
    Text.Lower(a.value) == Text.Lower(s)
  }

  /** What `Hash::hash` feeds the hasher: the lower-cased text, which is
      itself equal to the value and (under ASCII lower-casing) keeps the length. */
  function HashInput(c: CiString): (r: string)
    ensures |r| == |c.value|
    ensures Eq(c, From(r))
  {
    Text.LowerIdempotent(c.value);
    Text.Lower(c.value)
  }

  /** `Hash::hash` with an arbitrary hasher, seen as a function of its input:
      hashing a value is hashing its lower-cased copy. */
  function Hash(c: CiString, hasher: string -> int): (h: int)
    ensures h == hasher(HashInput(From(HashInput(c))))
  {
    Text.LowerIdempotent(c.value);
    hasher(HashInput(c))
  }

  /** `Eq` is justified: the equality is reflexive, symmetric and transitive. */
  lemma EqIsEquivalence(a: CiString, b: CiString, c: CiString)
    ensures Eq(a, a)
    ensures Eq(a, b) ==> Eq(b, a)
    ensures Eq(a, b) && Eq(b, c) ==> Eq(a, c)
  {
  }

  /** Two values are equal exactly when the hasher is fed the same text, so
      equal values hash equally under every hasher. */
  lemma HashAgreesWithEq(a: CiString, b: CiString, hasher: string -> int)
    ensures Eq(a, b) <==> HashInput(a) == HashInput(b)
    ensures Eq(a, b) ==> Hash(a, hasher) == Hash(b, hasher)
  {
  }

  /** The comparison ignores case: a value equals its own lower-cased form,
      while conversion back gives the original text. */
  lemma EqIgnoresCase(s: string)
    ensures Eq(From(s), From(Text.Lower(s)))
    ensures Into(From(s)) == s
  {
    Text.LowerIdempotent(s);
  }

  /** Concretely: "ChEBI" equals "chebi" but converts back to "ChEBI". */
  lemma MixedCaseExample()
    ensures Eq(From("ChEBI"), From("chebi"))
    ensures Display(From("ChEBI")) == "ChEBI"
  {
    EqIgnoresCase("ChEBI");
    assert Text.Lower("ChEBI") == "chebi";
  }

  /** `Borrow<str>` (as also `AsRef<str>` and `Deref`): the original text. */
  function Borrow(c: CiString): (s: string)
    ensures s == Into(c)
  {
    c.value
  }

  /**
   * Rust requires a type's `Borrow` form to compare and hash like the type
   * itself; as written, `Borrow<str>` does not: "ChEBI" and "chebi" are equal
   * values with different borrowed texts, and the hasher is fed "chebi" for
   * a value whose borrowed text is "ChEBI".
   */
  lemma BorrowDisagreesWithEqAndHash()
    ensures Eq(From("ChEBI"), From("chebi"))
    ensures Borrow(From("ChEBI")) != Borrow(From("chebi"))
    ensures HashInput(From("ChEBI")) != Borrow(From("ChEBI"))
  {
    MixedCaseExample();
    assert Borrow(From("ChEBI"))[0] == 'C';
  }

  /** A borrowed key that keeps the rule: the lower-cased text. */
  function BorrowKey(c: CiString): (k: string)
    ensures k == HashInput(c)
  {
    Text.Lower(c.value)
  }

  /** The lower-cased key compares exactly like `Eq` and is what the hasher
      is fed, so equal values have equal keys and equal hashes. */
  lemma BorrowKeyAgreesWithEqAndHash(a: CiString, b: CiString, hasher: string -> int)
    ensures Eq(a, b) <==> BorrowKey(a) == BorrowKey(b)
    ensures HashInput(a) == BorrowKey(a)
    ensures BorrowKey(a) == BorrowKey(b) ==> Hash(a, hasher) == Hash(b, hasher)
  {
  }
}
