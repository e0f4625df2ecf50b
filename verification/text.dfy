/**
 The string primitives the line filter is built on: literal substring
 containment (`str::contains`), splitting a text into lines (`str::lines`),
 and the transcript that printing a list of lines produces (`println!`).
 Strings are sequences of characters; a line never holds its terminator.
 */
module Text {

  /** `needle` occurs in `hay` starting at position `i`. */
  ghost predicate OccursAt(hay: string, needle: string, i: int)
  {
    0 <= i && i + |needle| <= |hay| && hay[i..i + |needle|] == needle
  }

  /** `needle` is a prefix of `hay`. */
  predicate IsPrefix(needle: string, hay: string)
  {
    |needle| <= |hay| && hay[..|needle|] == needle
  }

  /** Literal substring test, as `line.contains(query)` performs it. */
  function Contains(hay: string, needle: string): (b: bool)
    ensures b ==> |needle| <= |hay|
    ensures needle == [] ==> b
    decreases |hay|
  {
    IsPrefix(needle, hay) || (|hay| > 0 && Contains(hay[1..], needle))
  }

  /** `Contains` holds exactly when the needle occurs somewhere in the haystack. */
  lemma {:induction false} ContainsSpec(hay: string, needle: string)
    ensures Contains(hay, needle) <==> exists i :: OccursAt(hay, needle, i)
    decreases |hay|
  {
    if IsPrefix(needle, hay) {
      assert OccursAt(hay, needle, 0);
    } else if |hay| == 0 {
      assert forall i :: !OccursAt(hay, needle, i);
    } else {
      ContainsSpec(hay[1..], needle);
      if Contains(hay[1..], needle) {
        var i :| OccursAt(hay[1..], needle, i);
        assert hay[i + 1..i + 1 + |needle|] == hay[1..][i..i + |needle|];
        assert OccursAt(hay, needle, i + 1);
      } else {
        forall i | OccursAt(hay, needle, i)
          ensures false
        {
          if i > 0 {
            assert hay[1..][i - 1..i - 1 + |needle|] == hay[i..i + |needle|];
            assert OccursAt(hay[1..], needle, i - 1);
          }
        }
      }
    }
  }

  /** The empty query is contained in every line. */
  lemma ContainsEmpty(hay: string)
    ensures Contains(hay, "")
  {
    assert IsPrefix("", hay);
  }

  /** A needle longer than the haystack is never contained in it. */
  lemma {:induction false} ContainsTooLong(hay: string, needle: string)
    requires |hay| < |needle|
    ensures !Contains(hay, needle)
    decreases |hay|
  {
    if |hay| > 0 {
      ContainsTooLong(hay[1..], needle);
    }
  }

  /** A needle with a character that the haystack lacks is not contained in it. */
  lemma ContainsAbsentChar(hay: string, needle: string, k: int)
    requires 0 <= k < |needle| && needle[k] !in hay
    ensures !Contains(hay, needle)
  {
    ContainsSpec(hay, needle);
  }

  /** An occurrence cannot cover a character the needle lacks, so it lies wholly on one side of it. */
  lemma ContainsAcrossSeparator(a: string, c: char, b: string, needle: string)
    requires c !in needle
    ensures Contains(a + [c] + b, needle) ==> Contains(a, needle) || Contains(b, needle)
  {
    var hay := a + [c] + b;
    ContainsSpec(hay, needle);
    ContainsSpec(a, needle);
    ContainsSpec(b, needle);
    assert hay[|a|] == c;
    if i :| OccursAt(hay, needle, i) {
      if i + |needle| <= |a| {
        assert hay[..|a|] == a;
        assert a[i..i + |needle|] == hay[..|a|][i..i + |needle|];
        assert OccursAt(a, needle, i);
      } else if i > |a| {
        var j := i - |a| - 1;
        assert hay[|a| + 1..] == b;
        assert b[j..j + |needle|] == hay[|a| + 1..][j..j + |needle|];
        assert OccursAt(b, needle, j);
      }
    }
  }

  /** Position of the first line feed of `s`, or `|s|` when there is none. */
  function FirstNewline(s: string): (i: nat)
    ensures i <= |s|
    ensures i < |s| ==> s[i] == '\n'
    ensures forall k :: 0 <= k < i ==> s[k] != '\n'
    decreases |s|
  {
    if |s| == 0 || s[0] == '\n' then 0 else 1 + FirstNewline(s[1..])
  }

  predicate EndsWithCR(line: string)
  {
    |line| > 0 && line[|line| - 1] == '\r'
  }

  /** Drops one carriage return in front of a line feed, as `str::lines` does. */
  function StripCR(line: string): string
  {
    if EndsWithCR(line) then line[..|line| - 1] else line
  }

  /**
   The lines of `s`, as Rust's `str::lines` yields them: the text is cut after
   every line feed, the line feed and then one carriage return in front of it
   are removed, and a final line feed does not open an empty last line. The
   empty text has no lines; a '\r' not followed by a line feed stays.
   */
  function Lines(s: string): (r: seq<string>)
    ensures forall line :: line in r ==> '\n' !in line
    ensures |s| > 0 ==> |r| > 0
    decreases |s|
  {
    if |s| == 0 then []
    else
      var i := FirstNewline(s);
      if i == |s| then [s]
      else [StripCR(s[..i])] + Lines(s[i + 1..])
  }

  /** What printing each line followed by a line feed writes to standard output. */
  function Output(lines: seq<string>): (out: string)
    ensures |out| >= |lines|
    ensures out == [] <==> lines == []
    ensures lines != [] ==> out[|out| - 1] == '\n'
  {
    if |lines| == 0 then [] else lines[0] + "\n" + Output(lines[1..])
  }

  /** The lines joined with line feeds between them; `Lines` undoes it under the conditions of `LinesOfJoin`. */
  function Join(lines: seq<string>): string
  {
    if |lines| == 0 then ""
    else if |lines| == 1 then lines[0]
    else lines[0] + "\n" + Join(lines[1..])
  }

  /** A line without line feed or trailing carriage return followed by a line feed is peeled off as the first line. */
  lemma LinesCons(a: string, b: string)
    requires '\n' !in a && !EndsWithCR(a)
    ensures Lines(a + "\n" + b) == [a] + Lines(b)
  {
    var s := a + "\n" + b;
    assert s[|a|] == '\n';
    assert forall k :: 0 <= k < |a| ==> s[k] == a[k];
    assert FirstNewline(s) == |a|;
    assert s[..|a|] == a;
    assert s[|a| + 1..] == b;
  }

  /** A line followed by "\r\n" is peeled off as the first line, without its carriage return. */
  lemma LinesConsCRLF(a: string, b: string)
    requires '\n' !in a
    ensures Lines(a + "\r\n" + b) == [a] + Lines(b)
  {
    var s := a + "\r\n" + b;
    assert s[|a|] == '\r' && s[|a| + 1] == '\n';
    assert forall k :: 0 <= k < |a| ==> s[k] == a[k];
    assert FirstNewline(s) == |a| + 1;
    assert s[..|a| + 1] == a + "\r";
    assert s[|a| + 2..] == b;
  }

  /** A non-empty text without line feed is a single line. */
  lemma LinesSingle(a: string)
    requires a != "" && '\n' !in a
    ensures Lines(a) == [a]
  {
  }

  /** Re-reading what was printed yields the printed lines again, as long as no
      line holds a line feed or ends with a carriage return. */
  lemma {:induction false} LinesOfOutput(lines: seq<string>)
    requires forall line :: line in lines ==> '\n' !in line && !EndsWithCR(line)
    ensures Lines(Output(lines)) == lines
    decreases |lines|
  {
    if |lines| > 0 {
      LinesOfOutput(lines[1..]);
      LinesCons(lines[0], Output(lines[1..]));
    }
  }

  /** Splitting undoes joining, for lines without line feeds whose last one is not empty
      and whose other ones do not end with a carriage return. */
  lemma {:induction false} LinesOfJoin(lines: seq<string>)
    requires forall i :: 0 <= i < |lines| ==> '\n' !in lines[i]
    requires forall i :: 0 <= i < |lines| - 1 ==> !EndsWithCR(lines[i])
    requires |lines| > 0 ==> lines[|lines| - 1] != ""
    ensures Lines(Join(lines)) == lines
    decreases |lines|
  {
    if |lines| == 1 {
      LinesSingle(lines[0]);
    } else if |lines| > 1 {
      LinesOfJoin(lines[1..]);
      LinesCons(lines[0], Join(lines[1..]));
    }
  }

  /** One line per line feed, plus one for a last line that has no line feed. */
  lemma {:induction false} LinesCount(s: string)
    ensures |Lines(s)| == multiset(s)['\n'] + (if |s| > 0 && s[|s| - 1] != '\n' then 1 else 0)
    decreases |s|
  {
    if |s| > 0 {
      var i := FirstNewline(s);
      if i == |s| {
        assert '\n' !in s;
      } else {
        var rest := s[i + 1..];
        LinesCount(rest);
        assert s == s[..i] + [s[i]] + rest;
        assert '\n' !in s[..i];
        assert multiset(s) == multiset(s[..i]) + multiset{'\n'} + multiset(rest);
        if |rest| > 0 {
          assert s[|s| - 1] == rest[|rest| - 1];
        }
      }
    }
  }

  /** Every line is a contiguous piece of the text it was cut from. */
  lemma {:induction false} LinesProvenance(s: string)
    ensures forall line :: line in Lines(s) ==> exists i :: OccursAt(s, line, i)
    decreases |s|
  {
    if |s| > 0 {
      var i := FirstNewline(s);
      if i == |s| {
        assert OccursAt(s, s, 0);
      } else {
        var rest := s[i + 1..];
        LinesProvenance(rest);
        var first := StripCR(s[..i]);
        assert OccursAt(s, first, 0);
        forall line | line in Lines(rest)
          ensures exists j :: OccursAt(s, line, j)
        {
          var j :| OccursAt(rest, line, j);
          assert s[i + 1 + j..i + 1 + j + |line|] == rest[j..j + |line|];
          assert OccursAt(s, line, i + 1 + j);
        }
      }
    }
  }

  /** A text without carriage returns has no line that ends with one. */
  lemma NoCRLines(s: string)
    requires '\r' !in s
    ensures forall line :: line in Lines(s) ==> !EndsWithCR(line)
  {
    LinesProvenance(s);
    forall line | line in Lines(s) && |line| > 0
      ensures line[|line| - 1] != '\r'
    {
      var i :| OccursAt(s, line, i);
      assert line[|line| - 1] == s[i + |line| - 1];
    }
  }
}
