/**
 The command-line side of the line filter: building a `Config` from the
 argument list and the `CASE_INSENSITIVE` environment variable, and `run`,
 which searches the file contents and prints the matching lines. Reading the
 environment and the file are inputs here: the caller passes what the lookup
 and the read returned.
 */
module Cli {
  import opened Text
  import opened Filtering
  import opened LineSearch

  datatype Result<T, E> = Success(value: T) | Failure(error: E)

  datatype Config = Config(query: string, filename: string, caseSensitive: bool)

  datatype ConfigError = NotEnoughArguments

  /** What looking up an environment variable returns: its value, or one of the two errors of `env::var`. */
  datatype EnvLookup = Value(value: string) | NotPresent | NotUnicode

  /** What reading the file returns: its contents, or the failure the read reported. */
  datatype FileRead = Contents(text: string) | ReadFailed(cause: string)

  datatype RunError = IoError(cause: string)

  /** `env::var("CASE_INSENSITIVE").is_err()`: the search is case-sensitive unless the lookup yields a value. */
  predicate CaseSensitive(caseInsensitiveVar: EnvLookup): (b: bool)
    ensures b <==> caseInsensitiveVar.NotPresent? || caseInsensitiveVar.NotUnicode?
  {
    !caseInsensitiveVar.Value?
  }

  /**
   `Config::new`: at least three arguments (program name, query, file name) are
   needed; the query and the file name are the second and third, later ones are
   ignored.
   */
  function NewConfig(args: seq<string>, caseInsensitiveVar: EnvLookup): (r: Result<Config, ConfigError>)
    ensures r.Failure? <==> |args| < 3
    ensures r.Failure? ==> r.error == NotEnoughArguments
    ensures r.Success? ==> r.value.query == args[1] && r.value.filename == args[2]
    ensures r.Success? ==> (r.value.caseSensitive <==> !caseInsensitiveVar.Value?)
  {
    if |args| < 3 then Failure(NotEnoughArguments)
    else Success(Config(args[1], args[2], CaseSensitive(caseInsensitiveVar)))
  }

  /** Only whether the variable yields a value matters, not which value. */
  lemma NewConfigIgnoresValue(args: seq<string>, v: string, w: string)
    ensures NewConfig(args, Value(v)) == NewConfig(args, Value(w))
  {
  }

  /** Arguments after the file name change nothing. */
  lemma NewConfigIgnoresExtra(args: seq<string>, extra: seq<string>, caseInsensitiveVar: EnvLookup)
    requires |args| >= 3
    ensures NewConfig(args + extra, caseInsensitiveVar) == NewConfig(args, caseInsensitiveVar)
  {
    assert (args + extra)[1] == args[1] && (args + extra)[2] == args[2];
  }

  /** Every configuration is produced by the command line that names its query and file. */
  lemma NewConfigRoundTrip(c: Config, program: string)
    ensures NewConfig([program, c.query, c.filename], if c.caseSensitive then NotPresent else Value("")) == Success(c)
  {
  }

  /** The test the configured search variant applies to a line. */
  predicate PassesTest(config: Config, lower: string -> string, line: string)
  {
    if config.caseSensitive then ExactMatch(config.query)(line)
    else CaselessMatch(config.query, lower)(line)
  }

  /**
   `run`: a failed read is reported as an I/O error and nothing is printed;
   otherwise the result is the list of lines printed, in order, each of them a
   line of the file that passes the configured test.
   */
  function Run(config: Config, file: FileRead, lower: string -> string): (r: Result<seq<string>, RunError>)
    ensures r.Failure? <==> file.ReadFailed?
    ensures r.Failure? ==> r.error == IoError(file.cause)
    ensures r.Success? ==> forall line :: line in r.value ==> line in Lines(file.text) && PassesTest(config, lower, line)
  {
    match file
    case ReadFailed(cause) => Failure(IoError(cause))
    case Contents(text) =>
      if config.caseSensitive then Success(Search(config.query, text))
      else Success(SearchCaseInsensitive(config.query, text, lower))
  }

  /**
   After a successful read `run` prints what the selected variant returns:
   `search` when the configuration is case-sensitive, `search_case_insensitive`
   otherwise. The printed lines keep the file order, and every line of the
   file that passes the test is printed as often as it occurs there.
   */
  lemma RunPrintsMatches(config: Config, text: string, lower: string -> string)
    ensures Run(config, Contents(text), lower).Success?
    ensures config.caseSensitive ==> Run(config, Contents(text), lower).value == Search(config.query, text)
    ensures !config.caseSensitive ==>
              Run(config, Contents(text), lower).value == SearchCaseInsensitive(config.query, text, lower)
    ensures IsSubsequence(Run(config, Contents(text), lower).value, Lines(text))
    ensures forall line :: multiset(Run(config, Contents(text), lower).value)[line] ==
              if PassesTest(config, lower, line) then multiset(Lines(text))[line] else 0
  {
    SearchOrdered(config.query, text, lower);
    forall line
      ensures multiset(Run(config, Contents(text), lower).value)[line] ==
                if PassesTest(config, lower, line) then multiset(Lines(text))[line] else 0
    {
      SearchCount(config.query, text, line);
      SearchCaseInsensitiveCount(config.query, text, lower, line);
    }
  }

  /**
   The standard output of a successful `run`, read back line by line, gives
   the printed lines again when no printed line keeps a carriage return at its
   end (lines of a CRLF file qualify: `Lines` strips the '\r' before each '\n').
   */
  lemma RunOutputReadsBack(config: Config, text: string, lower: string -> string)
    requires forall line :: line in Run(config, Contents(text), lower).value ==> !EndsWithCR(line)
    ensures Run(config, Contents(text), lower).Success?
    ensures Lines(Output(Run(config, Contents(text), lower).value)) == Run(config, Contents(text), lower).value
  {
    LinesOfOutput(Run(config, Contents(text), lower).value);
  }

  /** A file without carriage returns always reads back from standard output as the printed lines. */
  lemma RunOutputReadsBackWithoutCR(config: Config, text: string, lower: string -> string)
    requires '\r' !in text
    ensures Lines(Output(Run(config, Contents(text), lower).value)) == Run(config, Contents(text), lower).value
  {
    NoCRLines(text);
    RunOutputReadsBack(config, text, lower);
  }
}
