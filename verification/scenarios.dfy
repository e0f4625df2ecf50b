/**
 The two unit tests of the line filter, stated as lemmas about the model.
 The test contents are the test's lines joined with line feeds, as its
 multi-line literals lay them out. The case-insensitive test is instantiated
 with ASCII lowering.
 */
module Scenarios {
  import opened Text
  import opened Filtering
  import opened LineSearch
  import Casing

  /** Filtering four elements decides each of them on its own. */
  lemma FilterFour<T>(a: T, b: T, c: T, d: T, keep: T -> bool)
    ensures Filter([a, b, c, d], keep) ==
              Filter([a], keep) + Filter([b], keep) + Filter([c], keep) + Filter([d], keep)
  {
    assert [a, b, c, d] == [a] + [b] + [c] + [d];
    FilterAppend([a] + [b] + [c], [d], keep);
    FilterAppend([a] + [b], [c], keep);
    FilterAppend([a], [b], keep);
  }

  /** A line lacking some character of the query is dropped by the exact test. */
  lemma DropExact(line: string, query: string, k: int)
    requires 0 <= k < |query| && query[k] !in line
    ensures Filter([line], ExactMatch(query)) == []
  {
    ContainsAbsentChar(line, query, k);
  }

  /** A line in which the query occurs is kept by the exact test. */
  lemma KeepExact(line: string, query: string, i: int)
    requires OccursAt(line, query, i)
    ensures Filter([line], ExactMatch(query)) == [line]
  {
    ContainsSpec(line, query);
  }

  /** A line whose lowered form lacks some character of the lowered query is dropped by the caseless test. */
  lemma DropCaseless(line: string, query: string, lower: string -> string, k: int)
    requires 0 <= k < |lower(query)| && lower(query)[k] !in lower(line)
    ensures Filter([line], CaselessMatch(query, lower)) == []
  {
    ContainsAbsentChar(lower(line), lower(query), k);
  }

  /** A line whose lowered form contains the lowered query is kept by the caseless test. */
  lemma KeepCaseless(line: string, query: string, lower: string -> string, i: int)
    requires OccursAt(lower(line), lower(query), i)
    ensures Filter([line], CaselessMatch(query, lower)) == [line]
  {
    ContainsSpec(lower(line), lower(query));
  }

  // The case-sensitive test.

  lemma PoemLines()
    ensures Lines(Join(["Rust:", "safe, fast, productive.", "Pick three.", "Duct tape."]))
            == ["Rust:", "safe, fast, productive.", "Pick three.", "Duct tape."]
  {
    LinesOfJoin(["Rust:", "safe, fast, productive.", "Pick three.", "Duct tape."]);
  }

  lemma DuctSecond()
    ensures Filter(["safe, fast, productive."], ExactMatch("duct")) == ["safe, fast, productive."]
  {
    KeepExact("safe, fast, productive.", "duct", 15);
  }

  /** None of the other lines has a lower-case 'd'. */
  lemma DuctDropped()
    ensures Filter(["Rust:"], ExactMatch("duct")) == []
    ensures Filter(["Pick three."], ExactMatch("duct")) == []
    ensures Filter(["Duct tape."], ExactMatch("duct")) == []
  {
    DropExact("Rust:", "duct", 0);
    DropExact("Pick three.", "duct", 0);
    DropExact("Duct tape.", "duct", 0);
  }

  /** Only "safe, fast, productive." contains "duct"; "Duct tape." differs in case. */
  lemma ScenarioCaseSensitive()
    ensures Search("duct", Join(["Rust:", "safe, fast, productive.", "Pick three.", "Duct tape."]))
              == ["safe, fast, productive."]
  {
    PoemLines();
    FilterFour("Rust:", "safe, fast, productive.", "Pick three.", "Duct tape.", ExactMatch("duct"));
    DuctDropped();
    DuctSecond();
  }

  // The case-insensitive test.

  lemma TrustLines()
    ensures Lines(Join(["Rust:", "safe, fast, productive.", "Pick three.", "Trust me."]))
            == ["Rust:", "safe, fast, productive.", "Pick three.", "Trust me."]
  {
    LinesOfJoin(["Rust:", "safe, fast, productive.", "Pick three.", "Trust me."]);
  }

  lemma RustFirst()
    ensures Filter(["Rust:"], CaselessMatch("rUsT", Casing.AsciiLower)) == ["Rust:"]
  {
    assert Casing.AsciiLower("rUsT") == "rust";
    assert Casing.AsciiLower("Rust:") == "rust:";
    KeepCaseless("Rust:", "rUsT", Casing.AsciiLower, 0);
  }

  /** "rust" is absent from each piece of "safe, fast, productive." between the spaces. */
  lemma RustAbsentFromPieces()
    ensures !Contains("safe,", "rust")
    ensures !Contains("fast,", "rust")
    ensures !Contains("productive.", "rust")
  {
    ContainsAbsentChar("safe,", "rust", 0);
    ContainsAbsentChar("fast,", "rust", 0);
    ContainsAbsentChar("productive.", "rust", 2);
  }

  lemma FastProductiveText()
    ensures "fast," + [' '] + "productive." == "fast, productive."
  {
  }

  lemma SafeFastProductiveText()
    ensures "safe," + [' '] + "fast, productive." == "safe, fast, productive."
  {
  }

  lemma FastProductiveSplit()
    ensures Contains("fast," + [' '] + "productive.", "rust") ==>
              Contains("fast,", "rust") || Contains("productive.", "rust")
  {
    ContainsAcrossSeparator("fast,", ' ', "productive.", "rust");
  }

  lemma SafeFastProductiveSplit()
    ensures Contains("safe," + [' '] + "fast, productive.", "rust") ==>
              Contains("safe,", "rust") || Contains("fast, productive.", "rust")
  {
    ContainsAcrossSeparator("safe,", ' ', "fast, productive.", "rust");
  }

  /** A space cannot be part of an occurrence of "rust", so no piece containing it means no occurrence at all. */
  lemma SafeFastProductive()
    ensures !Contains("safe, fast, productive.", "rust")
  {
    RustAbsentFromPieces();
    FastProductiveText();
    FastProductiveSplit();
    SafeFastProductiveText();
    SafeFastProductiveSplit();
  }

  lemma RustSecond()
    ensures Filter(["safe, fast, productive."], CaselessMatch("rUsT", Casing.AsciiLower)) == []
  {
    assert Casing.AsciiLower("rUsT") == "rust";
    assert Casing.AsciiLower("safe, fast, productive.") == "safe, fast, productive.";
    SafeFastProductive();
  }

  lemma RustThird()
    ensures Filter(["Pick three."], CaselessMatch("rUsT", Casing.AsciiLower)) == []
  {
    assert Casing.AsciiLower("rUsT") == "rust";
    assert Casing.AsciiLower("Pick three.") == "pick three.";
    DropCaseless("Pick three.", "rUsT", Casing.AsciiLower, 1);
  }

  lemma RustFourth()
    ensures Filter(["Trust me."], CaselessMatch("rUsT", Casing.AsciiLower)) == ["Trust me."]
  {
    assert Casing.AsciiLower("rUsT") == "rust";
    assert Casing.AsciiLower("Trust me.") == "trust me.";
    KeepCaseless("Trust me.", "rUsT", Casing.AsciiLower, 1);
  }

  /** "rUsT" matches "Rust:" and "Trust me." regardless of case, and the lines come back as written. */
  lemma ScenarioCaseInsensitive()
    ensures SearchCaseInsensitive("rUsT", Join(["Rust:", "safe, fast, productive.", "Pick three.", "Trust me."]),
                                  Casing.AsciiLower)
              == ["Rust:", "Trust me."]
  {
    TrustLines();
    FilterFour("Rust:", "safe, fast, productive.", "Pick three.", "Trust me.", CaselessMatch("rUsT", Casing.AsciiLower));
    RustFirst();
    RustSecond();
    RustThird();
    RustFourth();
  }
}
