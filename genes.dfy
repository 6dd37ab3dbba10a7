/**
 * The strand of a gene location (models/schema/genes.rs): written to JSON as
 * the integer 1 (forward) or -1 (reverse).
 */
module Genes {
  import opened Wrappers

  newtype I8 = x: int | -0x80 <= x < 0x80
  newtype I64 = x: int | -0x8000_0000_0000_0000 <= x < 0x8000_0000_0000_0000
  newtype U64 = x: int | 0 <= x < 0x1_0000_0000_0000_0000

  datatype Strand = Forward | Reverse

  const InvalidStrand: string := "invalid strand value"

  /** The start of the error serde's default `visit_f64` reports. */
  const InvalidFloat: string := "invalid type: floating point"

  /** `Serialize for Strand`: an `i8` that is 1 or -1, one per strand. */
  function Serialize(s: Strand): (v: I8)
    ensures v == 1 <==> s == Forward
    ensures v == -1 <==> s == Reverse
  {
    match s
    case Forward => 1
    case Reverse => -1
  }

  /** `StrandVisitor::visit_i64`: accepts exactly 1 and -1. */
  function VisitI64(value: I64): (r: Result<Strand, string>)
    ensures r.Ok? <==> value == 1 || value == -1
    ensures r.Ok? ==> Serialize(r.value) as int == value as int
    ensures r.Err? ==> r.error == InvalidStrand
  {
    match value
    case 1 => Ok(Forward)
    case -1 => Ok(Reverse)
    case _ => Err(InvalidStrand)
  }

  /** `StrandVisitor::visit_u64`: accepts exactly 1, so Reverse can never come
      in through this entry point. */
  function VisitU64(value: U64): (r: Result<Strand, string>)
    ensures r.Ok? <==> value == 1
    ensures r.Ok? ==> r.value == Forward
    ensures r.Err? ==> r.error == InvalidStrand
  {
    match value
    case 1 => Ok(Forward)
    case _ => Err(InvalidStrand)
  }

  /**
   * How a JSON integer reaches the visitor: serde_json hands a non-negative
   * integer to `visit_u64` and a negative one to `visit_i64` (the comment at
   * genes.rs:116 is about this). An integer outside both 64-bit ranges is
   * read as a float, and the visitor's default `visit_f64` rejects it.
   */
  function DeserializeJson(n: int): (r: Result<Strand, string>)
    ensures r.Ok? <==> n == 1 || n == -1
    ensures r.Ok? ==> Serialize(r.value) as int == n
    ensures r.Err? ==>
              r.error == (if -0x8000_0000_0000_0000 <= n < 0x1_0000_0000_0000_0000
                          then InvalidStrand else InvalidFloat)
  {
    if 0 <= n < 0x1_0000_0000_0000_0000 then VisitU64(n as U64)
    else if -0x8000_0000_0000_0000 <= n < 0 then VisitI64(n as I64)
    else Err(InvalidFloat)
  }

  /** Decoding the encoding of a strand gives it back, on both entry points
      it can reach: 1 via `visit_u64`, -1 via `visit_i64`. */
  lemma RoundTrip(s: Strand)
    ensures DeserializeJson(Serialize(s) as int) == Ok(s)
    ensures VisitI64(Serialize(s) as I64) == Ok(s)
  {
  }

  /** 0 is rejected by both decoders. */
  lemma ZeroRejected()
    ensures VisitI64(0) == Err(InvalidStrand)
    ensures VisitU64(0) == Err(InvalidStrand)
  {
  }
}
