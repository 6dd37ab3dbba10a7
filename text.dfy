/**
 * The string primitives of Rust's standard library that the modelled code
 * leans on: `char::is_whitespace`, `str::trim`, `str::to_lowercase` (on its
 * ASCII part) and `str::splitn(2, sep)`.
 */
module Text {
  import opened Wrappers

  /** `char::is_whitespace`: the Unicode White_Space property. */
  predicate IsWhitespace(c: char) {
    var n := c as int;
    (0x09 <= n <= 0x0D) || n == 0x20 || n == 0x85 || n == 0xA0 || n == 0x1680
    || (0x2000 <= n <= 0x200A) || n == 0x2028 || n == 0x2029 || n == 0x202F
    || n == 0x205F || n == 0x3000
  }

  predicate AllWhitespace(s: string) {
    forall i :: 0 <= i < |s| ==> IsWhitespace(s[i])
  }

  /** `str::trim`: drops whitespace from the front, then from the back. */
  function Trim(s: string): string {
    if |s| > 0 && IsWhitespace(s[0]) then Trim(s[1..])
    else if |s| > 0 && IsWhitespace(s[|s| - 1]) then Trim(s[..|s| - 1])
    else s
  }

  /** Trimming leaves the slice of the text starting at `k`, with only
      whitespace around it. */
  lemma {:induction false} TrimSlice(s: string) returns (k: nat)
    ensures k + |Trim(s)| <= |s| && Trim(s) == s[k..k + |Trim(s)|]
    ensures forall i :: 0 <= i < k ==> IsWhitespace(s[i])
    ensures forall i :: k + |Trim(s)| <= i < |s| ==> IsWhitespace(s[i])
  {
    if |s| > 0 && IsWhitespace(s[0]) {
      var t := s[1..];
      var k' := TrimSlice(t);
      k := k' + 1;
      assert forall i :: 1 <= i < |s| ==> s[i] == t[i - 1];
      assert s[k..k + |Trim(t)|] == t[k'..k' + |Trim(t)|];
    } else if |s| > 0 && IsWhitespace(s[|s| - 1]) {
      var t := s[..|s| - 1];
      k := TrimSlice(t);
      assert forall i :: 0 <= i < |t| ==> s[i] == t[i];
      assert s[k..k + |Trim(t)|] == t[k..k + |Trim(t)|];
    } else {
      k := 0;
      assert s[0..|s|] == s;
    }
  }

  /** Whatever trimming leaves starts and ends with a non-whitespace character. */
  lemma {:induction false} TrimEnds(s: string)
    ensures Trim(s) != [] ==> !IsWhitespace(Trim(s)[0]) && !IsWhitespace(Trim(s)[|Trim(s)| - 1])
  {
    if |s| > 0 && IsWhitespace(s[0]) {
      TrimEnds(s[1..]);
    } else if |s| > 0 && IsWhitespace(s[|s| - 1]) {
      TrimEnds(s[..|s| - 1]);
    }
  }

  /** Nothing is left exactly when the text is blank, and otherwise a text
      with a non-whitespace character at each end. */
  lemma TrimBothEnds(s: string)
    ensures var r := Trim(s);
      && (r == [] <==> AllWhitespace(s))
      && (r != [] ==> !IsWhitespace(r[0]) && !IsWhitespace(r[|r| - 1]))
  {
    var r := Trim(s);
    var k := TrimSlice(s);
    TrimEnds(s);
    if r != [] {
      assert s[k] == r[0];
    }
  }

  /** `char::to_lowercase` on ASCII letters; every other character is kept. */
  function LowerChar(c: char): char {
    if 'A' <= c <= 'Z' then (c as int - 'A' as int + 'a' as int) as char else c
  }

  /** `str::to_lowercase`, character by character. */
  function Lower(s: string): (r: string) {
    seq(|s|, i requires 0 <= i < |s| => LowerChar(s[i]))
  }

  /** Lower-casing leaves a blank text blank and a non-blank one non-blank. */
  lemma LowerKeepsBlank(s: string)
    ensures AllWhitespace(Lower(s)) <==> AllWhitespace(s)
  {
    assert forall i :: 0 <= i < |s| ==> (IsWhitespace(Lower(s)[i]) <==> IsWhitespace(s[i]));
  }

  /** Lower-casing twice is lower-casing once. */
  lemma LowerIdempotent(s: string)
    ensures Lower(Lower(s)) == Lower(s)
  {
    var once := Lower(s);
    assert forall i :: 0 <= i < |s| ==> Lower(once)[i] == once[i];
  }

  /**
   * `s.splitn(2, sep)` when it yields two parts: the text before the FIRST
   * separator and everything after it. None when `s` has no separator (the
   * split then has a single part).
   */
  function SplitOnce(s: string, sep: char): (r: Option<(string, string)>)
    ensures r.None? <==> sep !in s
    ensures r.Some? ==> sep !in r.value.0 && s == r.value.0 + [sep] + r.value.1
  {
    if s == [] then None
    else if s[0] == sep then Some(([], s[1..]))
    else
      match SplitOnce(s[1..], sep)
      case None => None
      case Some((head, tail)) => Some(([s[0]] + head, tail))
  }

  /** Splitting a joined pair gives the pair back, whatever the tail holds,
      as long as the head is free of the separator. */
  lemma {:induction false} SplitOnceOfJoin(head: string, sep: char, tail: string)
    requires sep !in head
    ensures SplitOnce(head + [sep] + tail, sep) == Some((head, tail))
  {
    var s := head + [sep] + tail;
    var h := SplitOnce(s, sep).value.0;
    assert s[|h|] == sep;
    assert s[|head|] == sep;
    assert |h| == |head|;
    assert h == s[..|h|] == head;
    var t := SplitOnce(s, sep).value.1;
    assert t == s[|h| + 1..] == tail;
  }

  /** `s.splitn(2, sep).next()`: the text before the first separator, or the
      whole text when there is none. */
  function BeforeFirst(s: string, sep: char): (r: string)
    ensures sep !in r
    ensures |r| <= |s| && r == s[..|r|]
    ensures |r| < |s| <==> sep in s
    ensures |r| < |s| ==> s[|r|] == sep
  {
    match SplitOnce(s, sep)
    case None => s
    case Some((head, _)) => head
  }
}
