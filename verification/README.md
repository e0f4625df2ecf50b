# pie-grep line filter, in Dafny

A model of the library half of `pie-grep`. This is a small `grep` clone written in Rust. Given a query and a file, it prints the lines of the file that contain the query as a literal substring. When the `CASE_INSENSITIVE` environment variable is set to a valid Unicode value, it compares lowercased text instead.

The model covers four pieces of `src/lib.rs`:

- `Config::new`: checks the argument count and picks out the query and the file name. The case-sensitivity flag comes from the environment lookup.
- `search`: the case-sensitive line filter.
- `search_case_insensitive`: the lowered line filter, which returns the lines as written.
- `run`: chooses between the two variants and prints the result.

Files, one module each:

- `text.dfy` (`Text`) covers the string primitives. `Contains` is literal substring containment. `Lines` splits text as Rust's `str::lines` does. `Output` is the text that printing a list of lines produces. `Join` puts line feeds between lines. `Lines` undoes it for lines without line feeds, with a non-empty last line and no trailing `'\r'` on the other lines (`LinesOfJoin`).
- `filtering.dfy` (`Filtering`) holds `Filter`, which keeps the passing elements of a sequence in order. It also gives an independent description of that result and proves the two agree.
- `casing.dfy` (`Casing`) holds ASCII lowercasing.
- `search.dfy` (`LineSearch`) holds `search` and `search_case_insensitive` as functions over `Lines`. It also has the `for` loops of the source as methods, proved equal to those functions, and the properties of both variants.
- `scenarios.dfy` (`Scenarios`) holds the two unit tests of the source, as lemmas.
- `cli.dfy` (`Cli`) holds `Config`, `Config::new` and `run`.

Modelling choices:

- **Lines.** `Lines` follows the current standard-library definition of `str::lines`:
  - the text is cut after every `'\n'`;
  - the `'\n'` is removed, and then one `'\r'` in front of it;
  - a final `'\n'` does not start an empty last line;
  - the empty text has no lines;
  - a `'\r'` at the very end of the text, with no `'\n'` after it, stays in the last line.
- **Lowering.** Lowercasing is a parameter `lower: string -> string` of the case-insensitive variant. The general properties (`SearchCaseInsensitiveSpec`, `SearchCaseInsensitiveCount`, `SearchOrdered`, `SearchProvenance`) hold for any lowering function. `Casing.AsciiLower` is the instance used for the case-insensitive unit test.
- **Environment.** The `CASE_INSENSITIVE` lookup is an `EnvLookup` input. It has the three outcomes of `env::var`: a value, `NotPresent` or `NotUnicode`.
- **File read.** The outcome of reading the file is a `FileRead` input.
- **Run result.** `Run` returns the list of lines it prints. `Output` turns that list into the text that standard output receives.
- **Copies, not slices.** Results are copies of lines, not borrowed slices. `SearchProvenance` proves that each returned line is a contiguous piece of the contents, which is the fact the lifetime annotation expresses.

Two details of the code shape the model:

- **Env var holding invalid Unicode.** The code computes `env::var("CASE_INSENSITIVE").is_err()` at src/lib.rs:21. `env::var` fails when the variable is absent and also when it is present but its value is not valid Unicode. In both cases the code searches case-sensitively. `EnvLookup.NotUnicode` models the second case, and `Cli.CaseSensitive` treats it like `NotPresent`.
- **Carriage returns.** `contents.lines()` at src/lib.rs:64 and :77 uses `str::lines`, which also removes one `'\r'` in front of each `'\n'`. `Lines` models that, and `Text.LinesConsCRLF` states it.

## Model

| member | source | states |
|---|---|---|
| Text.Contains | src/lib.rs:65 | `line.contains(query)` can hold only when the query is no longer than the line, and always holds for the empty query. |
| Text.ContainsSpec | src/lib.rs:65 | `line.contains(query)` holds exactly when the query occurs in the line at some position. |
| Text.ContainsEmpty | src/lib.rs:65 | The empty query is contained in every line. |
| Text.ContainsTooLong | src/lib.rs:65 | A query longer than the line is never contained in it. |
| Text.Lines | src/lib.rs:64 | No line produced by `contents.lines()` holds a line feed. Non-empty contents have at least one line. |
| Text.LinesConsCRLF | src/lib.rs:64 | A line ended by "\r\n" is split off without its carriage return, as `str::lines` does. |
| Text.LinesOfJoin | src/lib.rs:64 | Splitting undoes joining with line feeds. This holds when no line has a line feed, the last line is non-empty, and no other line ends in a carriage return. |
| Text.LinesCount | src/lib.rs:64 | The number of lines equals the number of line feeds, plus one if the text is non-empty and does not end in a line feed. |
| Text.LinesProvenance | src/lib.rs:55-61 | Every line is a contiguous piece of the text it was cut from. |
| Text.NoCRLines | src/lib.rs:64 | Text without carriage returns yields no line that ends in one. |
| Text.Output | src/lib.rs:48-50 | Printing each line with `println!` writes nothing for no lines, and otherwise text that ends in a line feed and is at least one character per line long. |
| Text.LinesOfOutput | src/lib.rs:48-50 | Re-reading what `println!` wrote for each line gives those lines back, when no line has a line feed or a trailing carriage return. |
| Filtering.Filter | src/lib.rs:62-70 | The kept items are at most as many as the input, and each one comes from the input and passes the test. |
| Filtering.FilterCharacterization | src/lib.rs:62-70 | A sequence is the result of the push loop exactly when three things hold. It is a subsequence of the input. It holds only passing items. It holds each passing value as often as the input does. |
| LineSearch.Search | src/lib.rs:61-71 | Every returned line is a line of the contents that contains the query. There are at most as many as there are lines. |
| LineSearch.SearchCaseInsensitive | src/lib.rs:73-84 | Every returned line is an original line of the contents whose lowered form contains the lowered query. |
| LineSearch.SearchLoop | src/lib.rs:61-71 | The `for` loop with `results.push` computes exactly `Search`. |
| LineSearch.SearchCaseInsensitiveLoop | src/lib.rs:73-84 | The loop that lowers the query once and each line per test computes exactly `SearchCaseInsensitive`. |
| LineSearch.SearchSpec | src/lib.rs:61-71 | Both directions: a list is the result of `search` exactly when three things hold. It is an order-preserving subsequence of the lines. Every item contains the query. Every matching line appears as often as in the contents. |
| LineSearch.SearchCaseInsensitiveSpec | src/lib.rs:73-84 | The same characterisation for `search_case_insensitive`, with the lowered test. |
| LineSearch.SearchCount | src/lib.rs:64-67 | A line appears in the result as often as in the contents if it contains the query, and never otherwise. It is in the result exactly when it is a line of the contents and contains the query. |
| LineSearch.SearchCaseInsensitiveCount | src/lib.rs:77-80 | A line appears in the result as often as in the contents if its lowered form contains the lowered query, and never otherwise. |
| LineSearch.SearchOrdered | src/lib.rs:61-84 | Both variants return a subsequence of the lines, in their original order. |
| LineSearch.SearchProvenance | src/lib.rs:55-61 | Every line either variant returns is a contiguous piece of `contents` in its original case. |
| LineSearch.SearchEmptyQuery | src/lib.rs:64-67 | The empty query returns every line. |
| LineSearch.SearchCaseInsensitiveEmptyQuery | src/lib.rs:74-80 | With a lowering that maps "" to "", the empty query returns every line case-insensitively too. |
| LineSearch.SearchEmptyContents | src/lib.rs:64 | Empty contents give an empty result in both variants. |
| LineSearch.SearchLongQuery | src/lib.rs:64-67 | A query longer than every line returns nothing. |
| LineSearch.SearchWithinCaseInsensitive | src/lib.rs:65-78 | With ASCII lowering, every line `search` finds is also found by `search_case_insensitive`. |
| Casing.AsciiLower | src/lib.rs:74-78 | The ASCII instance of `to_lowercase`: the length is kept, each capital becomes its own small letter, and every other character is unchanged. |
| Casing.ContainsAfterLowering | src/lib.rs:78 | With ASCII lowering, a line that contains the query literally still contains it after both are lowered. |
| Scenarios.ScenarioCaseSensitive | src/lib.rs:90-100 | `search("duct", …)` on the test text returns only "safe, fast, productive.". "Duct tape." differs in case. |
| Scenarios.ScenarioCaseInsensitive | src/lib.rs:102-115 | `search_case_insensitive("rUsT", …)` on the test text returns "Rust:" and "Trust me." as written. |
| Cli.CaseSensitive | src/lib.rs:21 | `env::var(..).is_err()` is true exactly for the two errors of the lookup: the variable is absent, or its value is not Unicode. |
| Cli.NewConfig | src/lib.rs:13-28 | The result is an error exactly when there are fewer than 3 arguments. Otherwise the query is `args[1]` and the file name is `args[2]`. The search is case-sensitive exactly when the `CASE_INSENSITIVE` lookup yields no value. |
| Cli.NewConfigIgnoresValue | src/lib.rs:21 | The value of `CASE_INSENSITIVE` does not matter, only whether the lookup succeeds. |
| Cli.NewConfigIgnoresExtra | src/lib.rs:14-19 | Arguments after the file name do not change the configuration. |
| Cli.NewConfigRoundTrip | src/lib.rs:13-28 | Every configuration comes from the command line that names its query and file, with the variable set or unset to match. |
| Cli.Run | src/lib.rs:39-53 | A failed read is an I/O error carrying its cause, and nothing is printed. A successful read prints only lines of the file that pass the configured test. |
| Cli.RunPrintsMatches | src/lib.rs:42-50 | After a successful read, `run` prints the `search` result when case-sensitive and the `search_case_insensitive` result otherwise. The output is in file order, and every passing line is printed as often as it occurs. |
| Cli.RunOutputReadsBack | src/lib.rs:48-50 | When no printed line keeps a trailing carriage return (lines of CRLF files included), reading standard output back line by line gives the printed lines. |
| Cli.RunOutputReadsBackWithoutCR | src/lib.rs:48-50 | For a file without carriage returns, reading standard output back line by line always gives the printed lines. |

## Left out

- Reading the file (`fs::read_to_string`, src/lib.rs:40) is I/O and UTF-8 decoding. Its outcome is the `FileRead` input of `Run`.
- Reading the environment (`env::var`, src/lib.rs:21) reads process-wide state. Its outcome is the `EnvLookup` input of `NewConfig`.
- Writing to standard output (`println!`, src/lib.rs:48-50) is I/O. `Run` returns the printed lines, and `Output` is the text they form.
- Rust's `str::to_lowercase` is not modelled. It lowers full Unicode, and some characters lower to several. It is the `lower` parameter. Only the ASCII instance `Casing.AsciiLower` is given concretely.
- The error texts and `Box<dyn Error>` are replaced by the datatypes `ConfigError` and `RunError`.
- Borrowed slices and lifetimes are not modelled. Results are copies of lines, and `SearchProvenance` states their origin.
- Idempotence of `search` is not stated as a lemma. It holds because every member is a pure function.
- The scenarios write the test contents as `Join` of the test's lines rather than as one string literal. `Join` of those lines is, by its definition, the test's text with line feeds between the lines. `Text.LinesOfJoin` shows that the search sees exactly those lines.
- LineSearch.SearchCaseInsensitiveEmptyQuery: assumes the lowering maps "" to "". Rust's `to_lowercase` does this, but an arbitrary `lower` parameter need not.
- Cli.RunOutputReadsBack: requires that no printed line keeps a trailing `'\r'`. A line that keeps one (from "\r\r\n", or a file ending in "\r") loses it when the printed output is re-read, so the read-back claim is not made when such a line is printed.
- LineSearch.SearchWithinCaseInsensitive: proved for ASCII lowering only. It is not proved for every `lower`, since an arbitrary function need not preserve containment. Rust's own `to_lowercase` does not preserve it either, because of its final-sigma rule. `search("Σ", "ΑΣ")` keeps the line, while `search_case_insensitive` drops it: "ΑΣ" lowers to "ας" and "Σ" lowers to "σ". This follows from the documented behaviour of `to_lowercase`.
