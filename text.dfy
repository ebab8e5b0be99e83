/**
 * The string operations app.py relies on: the case-insensitive substring test of
 * `Series.str.contains(place, case=False)`, `str(i)` for a row index, the last
 * `_`-separated segment of a marker id, and `", ".join(places)`.
 */
module Text {

  // ---------------------------------------------------------------------------
  // Case folding and substring search
  // ---------------------------------------------------------------------------

  /** Simple case folding: ASCII and Latin-1 capital letters to their small forms. */
  function FoldChar(c: char): char
  {
    if 'A' <= c <= 'Z' then (c as int + 32) as char
    else if '\U{C0}' <= c <= '\U{DE}' && c != '\U{D7}' then (c as int + 32) as char
    else c
  }

  function Fold(s: string): string
  {
    seq(|s|, i requires 0 <= i < |s| => FoldChar(s[i]))
  }

  /** Folding a character that is already folded changes nothing. */
  lemma FoldCharIdempotent(c: char)
    ensures FoldChar(FoldChar(c)) == FoldChar(c)
  {
  }

  lemma {:induction false} FoldIdempotent(s: string)
    ensures Fold(Fold(s)) == Fold(s)
  {
    forall i | 0 <= i < |s|
      ensures Fold(Fold(s))[i] == Fold(s)[i]
    {
      FoldCharIdempotent(s[i]);
    }
  }

  /** `needle` occurs in `hay` starting at position `i`. */
  ghost predicate OccursAt(needle: string, hay: string, i: int)
  {
    0 <= i && i + |needle| <= |hay| && hay[i..i + |needle|] == needle
  }

  /** Literal substring test, scanning `hay` from the left. */
  function Contains(hay: string, needle: string): (r: bool)
    ensures r <==> exists i :: OccursAt(needle, hay, i)
    decreases |hay|
  {
    if |needle| > |hay| then
      assert forall i :: !OccursAt(needle, hay, i);
      false
    else if hay[..|needle|] == needle then
      assert OccursAt(needle, hay, 0);
      true
    else
      ShiftOccurrence(hay, needle);
      Contains(hay[1..], needle)
  }

  /** An occurrence past position 0 is an occurrence in the tail, and back. */
  lemma ShiftOccurrence(hay: string, needle: string)
    requires |needle| <= |hay| && hay[..|needle|] != needle
    ensures (exists i :: OccursAt(needle, hay, i)) <==> (exists i :: OccursAt(needle, hay[1..], i))
  {
    forall i | OccursAt(needle, hay, i)
      ensures OccursAt(needle, hay[1..], i - 1)
    {
      assert i != 0;
      assert hay[1..][i - 1..i - 1 + |needle|] == hay[i..i + |needle|];
    }
    forall i | OccursAt(needle, hay[1..], i)
      ensures OccursAt(needle, hay, i + 1)
    {
      assert hay[1..][i..i + |needle|] == hay[i + 1..i + 1 + |needle|];
    }
  }

  /** A needle whose first character is nowhere in the haystack does not occur in it. */
  lemma NoOccurrenceWithoutFirstChar(hay: string, needle: string)
    requires needle != [] && needle[0] !in hay
    ensures !Contains(hay, needle)
  {
    forall i | OccursAt(needle, hay, i) ensures false { }
  }

  /** `str.contains(needle, case=False)` on a present value. */
  function ContainsIgnoringCase(hay: string, needle: string): bool
  {
    Contains(Fold(hay), Fold(needle))
  }

  /** The test does not depend on the case of either argument. */
  lemma ContainsIgnoringCaseFoldInvariant(hay: string, needle: string)
    ensures ContainsIgnoringCase(Fold(hay), needle) == ContainsIgnoringCase(hay, needle)
    ensures ContainsIgnoringCase(hay, Fold(needle)) == ContainsIgnoringCase(hay, needle)
  {
    FoldIdempotent(hay);
    FoldIdempotent(needle);
  }

  // ---------------------------------------------------------------------------
  // Decimal rendering of a row index: `str(i)` for i >= 0
  // ---------------------------------------------------------------------------

  predicate IsDigit(c: char)
  {
    '0' <= c <= '9'
  }

  predicate AllDigits(s: string)
  {
    forall i :: 0 <= i < |s| ==> IsDigit(s[i])
  }

  function DigitChar(d: nat): (c: char)
    requires d < 10
    ensures IsDigit(c) && c as int - '0' as int == d
  {
    ('0' as int + d) as char
  }

  /** `str(n)`: the decimal digits of n, most significant first. */
  function NatToString(n: nat): (s: string)
    ensures |s| >= 1 && AllDigits(s)
    ensures '_' !in s
    ensures s[0] == '0' <==> n == 0
  {
    if n < 10 then [DigitChar(n)] else NatToString(n / 10) + [DigitChar(n % 10)]
  }

  /** The value of a string of decimal digits. */
  function ParseDigits(s: string): nat
    requires AllDigits(s)
  {
    if s == [] then 0
    else ParseDigits(s[..|s| - 1]) * 10 + (s[|s| - 1] as int - '0' as int)
  }

  /** Parsing the rendered digits gives the number back. */
  lemma {:induction false} ParseNatToString(n: nat)
    ensures ParseDigits(NatToString(n)) == n
  {
    var s := NatToString(n);
    if n < 10 {
      assert s[..|s| - 1] == [];
    } else {
      assert s[..|s| - 1] == NatToString(n / 10);
      ParseNatToString(n / 10);
    }
  }

  /** Distinct numbers render as distinct strings. */
  lemma NatToStringInjective(a: nat, b: nat)
    requires NatToString(a) == NatToString(b)
    ensures a == b
  {
    ParseNatToString(a);
    ParseNatToString(b);
  }

  // ---------------------------------------------------------------------------
  // The segment after the last '_'
  // ---------------------------------------------------------------------------

  /** The longest suffix of s that holds no '_'. */
  function LastSegment(s: string): (r: string)
    ensures '_' !in r
    ensures |r| <= |s| && r == s[|s| - |r|..]
  {
    if s == [] then []
    else if s[|s| - 1] == '_' then []
    else LastSegment(s[..|s| - 1]) + [s[|s| - 1]]
  }

  /** Whatever precedes the last '_', the segment after it is recovered exactly. */
  lemma {:induction false} LastSegmentAfterSeparator(prefix: string, tail: string)
    requires '_' !in tail
    ensures LastSegment(prefix + "_" + tail) == tail
  {
    var s := prefix + "_" + tail;
    if tail == [] {
      assert s[|s| - 1] == '_';
    } else {
      var shorter := tail[..|tail| - 1];
      assert s[..|s| - 1] == prefix + "_" + shorter;
      assert s[|s| - 1] == tail[|tail| - 1];
      LastSegmentAfterSeparator(prefix, shorter);
      assert shorter + [tail[|tail| - 1]] == tail;
    }
  }

  // ---------------------------------------------------------------------------
  // `sep.join(parts)`
  // ---------------------------------------------------------------------------

  function Join(parts: seq<string>, sep: string): string
  {
    if |parts| == 0 then ""
    else if |parts| == 1 then parts[0]
    else parts[0] + sep + Join(parts[1..], sep)
  }

  /** Position in `Join(parts, sep)` at which `parts[k]` starts. */
  function JoinOffset(parts: seq<string>, sep: string, k: nat): nat
    requires k < |parts|
  {
    if k == 0 then 0 else |parts[0]| + |sep| + JoinOffset(parts[1..], sep, k - 1)
  }

  /** Every part stands in the joined string, at its offset. */
  lemma {:induction false} JoinHoldsEveryPart(parts: seq<string>, sep: string, k: nat)
    requires k < |parts|
    ensures OccursAt(parts[k], Join(parts, sep), JoinOffset(parts, sep, k))
  {
    var j := Join(parts, sep);
    if |parts| == 1 {
      assert j == parts[0];
    } else if k == 0 {
      assert j[..|parts[0]|] == parts[0];
    } else {
      JoinHoldsEveryPart(parts[1..], sep, k - 1);
      var rest := Join(parts[1..], sep);
      var d := |parts[0]| + |sep|;
      var o := JoinOffset(parts[1..], sep, k - 1);
      assert j == parts[0] + sep + rest;
      assert j[d + o..d + o + |parts[k]|] == rest[o..o + |parts[k]|];
    }
  }

  /** The joined string is as long as the parts plus one separator between each two. */
  lemma {:induction false} JoinLength(parts: seq<string>, sep: string)
    requires |parts| >= 1
    ensures |Join(parts, sep)| == TotalLength(parts) + (|parts| - 1) * |sep|
  {
    if |parts| > 1 {
      JoinLength(parts[1..], sep);
    }
  }

  function TotalLength(parts: seq<string>): nat
  {
    if parts == [] then 0 else |parts[0]| + TotalLength(parts[1..])
  }
}
