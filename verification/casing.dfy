/**
 ASCII lowercasing: the part of Rust's `str::to_lowercase` on which the
 case-insensitive test scenario depends. Outside 'A'..'Z' every character is
 left as it is.
 */
module Casing {
  import opened Text

  predicate IsAsciiUpper(c: char)
  {
    'A' <= c <= 'Z'
  }

  function LowerChar(c: char): char
  {
    if IsAsciiUpper(c) then (c as int + 32) as char else c
  }

  /** ASCII lowering: each capital becomes its own small letter, and every other character stays as it was. */
  function AsciiLower(s: string): (r: string)
    ensures |r| == |s|
    ensures forall i :: 0 <= i < |r| ==> !IsAsciiUpper(r[i])
    ensures forall i :: 0 <= i < |s| && !IsAsciiUpper(s[i]) ==> r[i] == s[i]
    ensures forall i :: 0 <= i < |s| && IsAsciiUpper(s[i]) ==>
              'a' <= r[i] <= 'z' && r[i] as int - 'a' as int == s[i] as int - 'A' as int
  {
    seq(|s|, i requires 0 <= i < |s| => LowerChar(s[i]))
  }

  /** Lowering commutes with taking a slice. */
  lemma AsciiLowerSlice(s: string, i: int, j: int)
    requires 0 <= i <= j <= |s|
    ensures AsciiLower(s)[i..j] == AsciiLower(s[i..j])
  {
  }

  /** A line that contains the query literally still contains it once both are lowered. */
  lemma ContainsAfterLowering(line: string, query: string)
    requires Contains(line, query)
    ensures Contains(AsciiLower(line), AsciiLower(query))
  {
    ContainsSpec(line, query);
    var i :| OccursAt(line, query, i);
    AsciiLowerSlice(line, i, i + |query|);
    assert OccursAt(AsciiLower(line), AsciiLower(query), i);
    ContainsSpec(AsciiLower(line), AsciiLower(query));
  }
}
