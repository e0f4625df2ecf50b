/**
 The two search variants of the line filter. `Search` keeps, in order, each
 line of the contents that contains the query literally;
 `SearchCaseInsensitive` keeps each line whose lowered form contains the
 lowered query, and still returns the line as written. The lowering is a
 parameter: any function from strings to strings may stand for Rust's
 `to_lowercase`, and `Casing.AsciiLower` is the instance the test scenario uses.
 */
module LineSearch {
  import opened Text
  import opened Filtering
  import Casing

  /** The test `search` applies to each line. */
  function ExactMatch(query: string): string -> bool
  {
    line => Contains(line, query)
  }

  /** The test `search_case_insensitive` applies to each line. */
  function CaselessMatch(query: string, lower: string -> string): string -> bool
  {
    line => Contains(lower(line), lower(query))
  }

  function Search(query: string, contents: string): (r: seq<string>)
    ensures |r| <= |Lines(contents)|
    ensures forall line :: line in r ==> line in Lines(contents) && Contains(line, query)
  {
    Filter(Lines(contents), ExactMatch(query))
  }

  function SearchCaseInsensitive(query: string, contents: string, lower: string -> string): (r: seq<string>)
    ensures |r| <= |Lines(contents)|
    ensures forall line :: line in r ==> line in Lines(contents) && Contains(lower(line), lower(query))
  {
    Filter(Lines(contents), CaselessMatch(query, lower))
  }

  /** The loop of `search`: scan the lines in order and push each one that matches. */
  method SearchLoop(query: string, contents: string) returns (results: seq<string>)
    ensures results == Search(query, contents)
  {
    var lines := Lines(contents);
    results := [];
    var i := 0;
    while i < |lines|
      invariant 0 <= i <= |lines|
      invariant results == Filter(lines[..i], ExactMatch(query))
    {
      var line := lines[i];
      if Contains(line, query) {
        results := results + [line];
      }
      FilterSnoc(lines, i, ExactMatch(query));
      i := i + 1;
    }
    assert lines[..i] == lines;
  }

  /** The loop of `search_case_insensitive`: the query is lowered once, each line once per test. */
  method SearchCaseInsensitiveLoop(query: string, contents: string, lower: string -> string)
    returns (results: seq<string>)
    ensures results == SearchCaseInsensitive(query, contents, lower)
  {
    var loweredQuery := lower(query);
    var lines := Lines(contents);
    results := [];
    var i := 0;
    while i < |lines|
      invariant 0 <= i <= |lines|
      invariant results == Filter(lines[..i], CaselessMatch(query, lower))
    {
      var line := lines[i];
      if Contains(lower(line), loweredQuery) {
        results := results + [line];
      }
      FilterSnoc(lines, i, CaselessMatch(query, lower));
      i := i + 1;
    }
    assert lines[..i] == lines;
  }

  /**
   Soundness, completeness and order, in both directions: a list of lines is
   the result of `search` exactly when it is a subsequence of the lines of the
   contents, every item contains the query, and every line containing the
   query appears as often as in the contents.
   */
  lemma SearchSpec(query: string, contents: string, r: seq<string>)
    ensures r == Search(query, contents) <==>
              && IsSubsequence(r, Lines(contents))
              && (forall line :: line in r ==> Contains(line, query))
              && (forall line :: Contains(line, query) ==> multiset(r)[line] == multiset(Lines(contents))[line])
  {
    var keep := ExactMatch(query);
    FilterCharacterization(r, Lines(contents), keep);
    assert (forall line :: line in r ==> keep(line)) <==> (forall line :: line in r ==> Contains(line, query));
    assert KeepsAllPassing(r, Lines(contents), keep) <==>
           (forall line :: Contains(line, query) ==> multiset(r)[line] == multiset(Lines(contents))[line]);
  }

  /** The same characterisation for `search_case_insensitive`, with the lowered test. */
  lemma SearchCaseInsensitiveSpec(query: string, contents: string, lower: string -> string, r: seq<string>)
    ensures r == SearchCaseInsensitive(query, contents, lower) <==>
              && IsSubsequence(r, Lines(contents))
              && (forall line :: line in r ==> Contains(lower(line), lower(query)))
              && (forall line :: Contains(lower(line), lower(query)) ==>
                                   multiset(r)[line] == multiset(Lines(contents))[line])
  {
    var keep := CaselessMatch(query, lower);
    FilterCharacterization(r, Lines(contents), keep);
    assert (forall line :: line in r ==> keep(line)) <==>
           (forall line :: line in r ==> Contains(lower(line), lower(query)));
    assert KeepsAllPassing(r, Lines(contents), keep) <==>
           (forall line :: Contains(lower(line), lower(query)) ==>
                             multiset(r)[line] == multiset(Lines(contents))[line]);
  }

  /** Each line occurs in the result of `search` as often as in the contents if it matches, and not at all otherwise. */
  lemma SearchCount(query: string, contents: string, line: string)
    ensures multiset(Search(query, contents))[line] ==
              if Contains(line, query) then multiset(Lines(contents))[line] else 0
    ensures line in Search(query, contents) <==> line in Lines(contents) && Contains(line, query)
  {
    FilterCount(Lines(contents), ExactMatch(query), line);
  }

  /** Each line occurs in the result of `search_case_insensitive` as often as in the contents if it matches, and not at all otherwise. */
  lemma SearchCaseInsensitiveCount(query: string, contents: string, lower: string -> string, line: string)
    ensures multiset(SearchCaseInsensitive(query, contents, lower))[line] ==
              if Contains(lower(line), lower(query)) then multiset(Lines(contents))[line] else 0
    ensures line in SearchCaseInsensitive(query, contents, lower) <==>
              line in Lines(contents) && Contains(lower(line), lower(query))
  {
    FilterCount(Lines(contents), CaselessMatch(query, lower), line);
  }

  /** Results keep the original order of the lines. */
  lemma SearchOrdered(query: string, contents: string, lower: string -> string)
    ensures IsSubsequence(Search(query, contents), Lines(contents))
    ensures IsSubsequence(SearchCaseInsensitive(query, contents, lower), Lines(contents))
  {
    FilterIsSubsequence(Lines(contents), ExactMatch(query));
    FilterIsSubsequence(Lines(contents), CaselessMatch(query, lower));
  }

  /** Every returned line is a contiguous piece of the contents, in its original case. */
  lemma SearchProvenance(query: string, contents: string, lower: string -> string)
    ensures forall line :: line in Search(query, contents) ==> exists i :: OccursAt(contents, line, i)
    ensures forall line :: line in SearchCaseInsensitive(query, contents, lower) ==>
                             exists i :: OccursAt(contents, line, i)
  {
    LinesProvenance(contents);
  }

  /** The empty query matches every line. */
  lemma SearchEmptyQuery(contents: string)
    ensures Search("", contents) == Lines(contents)
  {
    var lines := Lines(contents);
    forall line | line in lines
      ensures ExactMatch("")(line)
    {
      ContainsEmpty(line);
    }
    AllKept(lines, ExactMatch(""));
  }

  /** With a lowering that maps the empty string to itself, the empty query matches every line case-insensitively too. */
  lemma SearchCaseInsensitiveEmptyQuery(contents: string, lower: string -> string)
    requires lower("") == ""
    ensures SearchCaseInsensitive("", contents, lower) == Lines(contents)
  {
    var lines := Lines(contents);
    forall line | line in lines
      ensures CaselessMatch("", lower)(line)
    {
      ContainsEmpty(lower(line));
    }
    AllKept(lines, CaselessMatch("", lower));
  }

  /** Empty contents have no lines, so nothing is found. */
  lemma SearchEmptyContents(query: string, lower: string -> string)
    ensures Search(query, "") == []
    ensures SearchCaseInsensitive(query, "", lower) == []
  {
  }

  /** A query longer than every line finds nothing. */
  lemma SearchLongQuery(query: string, contents: string)
    requires forall line :: line in Lines(contents) ==> |line| < |query|
    ensures Search(query, contents) == []
  {
    forall line | line in Lines(contents)
      ensures !ExactMatch(query)(line)
    {
      ContainsTooLong(line, query);
    }
    NoneKept(Lines(contents), ExactMatch(query));
  }

  /** With ASCII lowering, every line `search` finds is also found by `search_case_insensitive`. */
  lemma SearchWithinCaseInsensitive(query: string, contents: string)
    ensures forall line :: line in Search(query, contents) ==>
                             line in SearchCaseInsensitive(query, contents, Casing.AsciiLower)
  {
    forall line | line in Search(query, contents)
      ensures line in SearchCaseInsensitive(query, contents, Casing.AsciiLower)
    {
      Casing.ContainsAfterLowering(line, query);
      SearchCaseInsensitiveCount(query, contents, Casing.AsciiLower, line);
    }
  }
}
