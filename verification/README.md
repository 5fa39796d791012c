# checkOpenAiApiKey — the decision core, in Dafny

`checkOpenAiApiKey.py` is a one-pass diagnostic for an OpenAI API key: it
chooses a key, checks its shape, probes the service, lists the models the key
can use, compares them against a list of required models and lists stored
files. Almost all of it is HTTP and printing. This project models the pure
part that decides what the script reports, as total functions over strings and
sequences, and proves what those functions guarantee:

- **Key choice and validation** (`ApiKey`): the key is `sys.argv[1]` when an
  argument exists (even an empty one), else the `API_KEY` constant when it is
  non-empty, else `OPENAI_API_KEY` (possibly unset). `validateApiKey` yields
  one of three outcomes (`NoKey`, `InvalidKey`, `ValidKey`) instead of
  calling `sys.exit`. The emptiness test comes first; then the key must start
  with the three characters `sk-`.
- **Whitespace stripping** (`Text`): Python's `str.strip()` with the exact
  character set of `str.isspace`, characterised independently as "the unique
  middle left after cutting a whitespace prefix and suffix".
- **Required-model list** (`RequiredModels`): the stripped non-blank lines of
  `oaimodellist.txt` in file order, or the nine built-in `HARDCODED_MODELS`
  only when the file does not exist.
- **Model gap and report** (`ModelGap`, `Seqs`): the order-preserving filter
  of the required list against the available ids, and the printed report.
  Either a "Missing models:" header with one `- id` line per missing id, or
  the single "Access to all required models." line.
- **Sorting the catalogue** (`LexOrder`, `Sorting`): `sorted` on model ids,
  using Python's code-point lexicographic order and keeping duplicates.
- **The run** (`Diagnostic`): `main` from key choice to the model report.
  The service is an input: either it answered the probe and the model
  listing with a catalogue of ids, or it failed for one of the reasons the
  script handles (empty probe, `Retry-After`, request error, authentication,
  authorisation, rate limit, other listing error). The model file's lines
  are an input too.

Inputs that come from outside the script are parameters. `sys.argv` is the
`argv` sequence (program name first). `API_KEY` is `configured`; its shipped
value is `ApiKey.ShippedApiKey`. The `OPENAI_API_KEY` variable is an
`Option<string>`. The model file is `Option<seq<string>>`: `None` when
`os.path.isfile` is false, else the lines Python's text-mode iteration yields.
The catalogue is the sequence of `id` fields of `openai.Model.list()`.

Where the code and its surrounding prose disagree, the model follows the code:

- The `listModels` docstring (line 132) says the models are printed "in
  alphabetical order". `sorted` compares code points, so "Z" comes before
  "a" and digits come before letters (`CodePointNotAlphabetical`).
- The comment at line 185 says the file is used when it "exists and is not
  empty". The fallback to `HARDCODED_MODELS` happens only when the file is
  absent. A present file with only blank lines gives an empty required list,
  so the report is "Access to all required models."
  (`BlankFileGivesEmptyList`).
- The usage text (lines 19-21) says the constant is used "if not provided".
  An empty command-line argument still counts as provided: it is chosen over
  `API_KEY` and reported as a missing key (`ArgumentTakesPriority`).
- The usage text (lines 19-21) also says the tool falls back to
  `OPENAI_API_KEY`. With the constant as shipped (`"your-api-key"`,
  non-empty and without the prefix), the environment variable is never
  consulted. A run without an argument therefore always ends with "Invalid
  API key." (`ShippedConstantRejected`).
- The docstring of `main` (lines 258-260) says the program exits on
  file-listing errors. The code catches them and carries on (line 235); file
  listing is not modelled in any case.

Behaviours worth noting:

- The sorted model list keeps duplicate ids. `sorted` does not de-duplicate.
- The key prefix `sk-` is three characters long, and the test is
  case-sensitive.

Running the whole diagnostic twice on the same inputs gives the same report:
every operation here is a function of its inputs.

## Model

| member | source | states |
|---|---|---|
| Text.IsSpace | checkOpenAiApiKey.py:188 | The whitespace `strip()` removes, as Python's `str.isspace`: U+0009..U+000D, U+001C..U+001F, U+0020, U+0085, U+00A0, U+1680, U+2000..U+200A, U+2028, U+2029, U+202F, U+205F and U+3000. |
| Text.StartsWith | checkOpenAiApiKey.py:78 | `s.startswith(p)`: `p` is no longer than `s` and equals its first `|p|` characters. |
| Text.StartsWithCharwise | checkOpenAiApiKey.py:78 | `startswith` holds iff `p` fits in `s` and agrees with it character by character. |
| ApiKey.Message | checkOpenAiApiKey.py:75-82 | The line printed for each outcome: "No API key provided.", "Invalid API key." or "API key validation successful.". |
| ApiKey.MessagesDistinct | checkOpenAiApiKey.py:75-82 | The three printed lines are pairwise different, so the output identifies the outcome. |
| ApiKey.Validate | checkOpenAiApiKey.py:75-82 | `None` or `""` gives `NoKey`, and only those. A key is `ValidKey` iff it is non-empty and its first three characters are `s`, `k`, `-`. Every other key is `InvalidKey`. |
| ApiKey.ValidIffPrefixed | checkOpenAiApiKey.py:78-82 | A present key is accepted iff `startswith("sk-")`. It is rejected as invalid iff it is non-empty and lacks the prefix. |
| ApiKey.Resolve | checkOpenAiApiKey.py:263 | The chosen key is one of the three candidates, in priority order. An argument (`len(sys.argv) > 1`) is chosen even when empty. Otherwise a non-empty constant is chosen. Otherwise the environment value is chosen, which may be absent. |
| ApiKey.ArgumentTakesPriority | checkOpenAiApiKey.py:263 | When `sys.argv` has an argument, it is the key whatever the constant and environment hold. An empty argument then validates to `NoKey`. |
| ApiKey.ConstantBeforeEnvironment | checkOpenAiApiKey.py:263 | Without an argument, a non-empty constant is the key and the environment has no influence. |
| ApiKey.EnvironmentLast | checkOpenAiApiKey.py:263 | Without an argument and with an empty constant, the key is the environment value. An unset variable validates to `NoKey`. |
| ApiKey.ShippedConstantRejected | checkOpenAiApiKey.py:263 | With `API_KEY = "your-api-key"` (line 46) and no argument, validation always yields `InvalidKey`, whatever the environment holds. |
| Text.Strip | checkOpenAiApiKey.py:188 | `strip()` is a contiguous slice with whitespace cut from both ends, has no whitespace at either end, and is empty iff the line is all whitespace. |
| Text.StripsToUnique | checkOpenAiApiKey.py:188 | The slice described by `StripsTo` is unique, so `Strip` is the only function meeting that description. |
| RequiredModels.ParseLines | checkOpenAiApiKey.py:188 | Every entry is non-empty with no leading or trailing whitespace. There are at most as many entries as lines. |
| RequiredModels.ParseLinesKeepsOrder | checkOpenAiApiKey.py:188 | The entries are a subsequence of the stripped lines, in file order. |
| RequiredModels.ParseLinesMembers | checkOpenAiApiKey.py:188 | An id is an entry iff some non-blank line of the file strips to it. |
| RequiredModels.ParseLinesConcat | checkOpenAiApiKey.py:187-188 | Parsing two runs of lines and concatenating equals parsing their concatenation, so each line contributes independently and in order. |
| RequiredModels.ParseOneLine | checkOpenAiApiKey.py:188 | A single line contributes its stripped text, or nothing when it is blank. |
| RequiredModels.BlankFileGivesEmptyList | checkOpenAiApiKey.py:186-188 | A present file parses to the empty list iff all its lines are blank, with no fallback to the built-in list. |
| RequiredModels.LoadRequired | checkOpenAiApiKey.py:183-190 | Each required id is non-empty and trimmed. A present file yields at most one id per line. |
| RequiredModels.AbsentFileFallsBack | checkOpenAiApiKey.py:186-190 | An absent file gives exactly `HARDCODED_MODELS`, nine ids. |
| RequiredModels.HardcodedModelsShape | checkOpenAiApiKey.py:49-59 | The built-in list has nine distinct, non-empty, trimmed ids, from "text-davinci-002" to "gpt-4-32k-0314". |
| RequiredModels.TwoLineFile | checkOpenAiApiKey.py:188 | A file of two ids, each followed by a line terminator, yields exactly those two ids in order. |
| ModelGap.Missing | checkOpenAiApiKey.py:192 | The missing list is a subsequence of the required list. An id is in it iff it is required and not available by exact equality. Each unavailable id keeps all its copies, and available ids keep none. |
| ModelGap.MissingUnique | checkOpenAiApiKey.py:192 | Any subsequence of the required list with those multiplicities is `Missing`, so the properties above determine the filter. |
| ModelGap.MissingConcat | checkOpenAiApiKey.py:192 | The filter distributes over concatenation of the required list, so order is preserved piecewise. |
| ModelGap.MissingDependsOnlyOnMembership | checkOpenAiApiKey.py:192 | Two available lists with the same members give the same missing list, whatever their order or duplicates. |
| ModelGap.NothingMissingIff | checkOpenAiApiKey.py:192-194 | Nothing is missing iff every required id is available. |
| ModelGap.Bullet | checkOpenAiApiKey.py:147 | `f"- {model}"` is the id behind a two-character "- " marker. |
| ModelGap.Bullets | checkOpenAiApiKey.py:196-197 | One bullet line per id, in the same order. |
| ModelGap.Report | checkOpenAiApiKey.py:194-199 | The report is the single confirmation line iff nothing is missing. Otherwise it is the header followed by one `- id` bullet per missing id, in order. |
| ModelGap.ReportRoundTrip | checkOpenAiApiKey.py:194-199 | The missing list can be read back from the printed report unchanged. |
| ModelGap.ReportDecision | checkOpenAiApiKey.py:192-199 | The confirmation line is printed iff every required id is available. Otherwise the report starts with the header, and its bullets are exactly the missing ids. |
| LexOrder.LexLe | checkOpenAiApiKey.py:145 | Python's `<=` on `str`, the order `sorted` uses. Its meaning is fixed by `LexLeCharacterization` and the four order lemmas below. |
| LexOrder.CodePointNotAlphabetical | checkOpenAiApiKey.py:132-145 | The order is by code point, not alphabetical: "Z" comes before "a", and "gpt-4" before "gpt-a". |
| LexOrder.LexLeCharacterization | checkOpenAiApiKey.py:145 | String `<=` holds iff the first string is a prefix of the second, or it has the smaller code point at the first position where they differ. |
| LexOrder.LexLeReflexive | checkOpenAiApiKey.py:145 | Every string is `<=` itself. |
| LexOrder.LexLeAntisymmetric | checkOpenAiApiKey.py:145 | Two strings each `<=` the other are equal. |
| LexOrder.LexLeTransitive | checkOpenAiApiKey.py:145 | The string order is transitive. |
| LexOrder.LexLeTotal | checkOpenAiApiKey.py:145 | Any two strings are comparable. |
| Sorting.Insert | checkOpenAiApiKey.py:145 | Inserting into a sorted list keeps it sorted and adds exactly one copy of the new id. |
| Sorting.Sort | checkOpenAiApiKey.py:145 | The result is ascending in code-point order and is a permutation of the input, with duplicates kept and length unchanged. |
| Sorting.SortedPermutationUnique | checkOpenAiApiKey.py:145 | Two sorted permutations of the same ids are equal. |
| Sorting.SortIsTheSortedPermutation | checkOpenAiApiKey.py:145 | Any sorted permutation of the ids equals `Sort`'s result, so the choice of sorting algorithm does not matter. |
| Sorting.SortKeepsMembers | checkOpenAiApiKey.py:145 | Sorting neither adds nor removes a model id. |
| Diagnostic.Diagnose | checkOpenAiApiKey.py:263-275 | The run halts at validation iff the chosen key fails it. With a valid key, it stops with the service's failure iff the service fails. Otherwise it completes with a key starting with `sk-`, the catalogue sorted as a permutation, and the missing list computed against the catalogue. Sorting does not change the missing list. |
| Diagnostic.ExitStatusOf | checkOpenAiApiKey.py:263-278 | The exit status is 0 or 1, and it is 0 iff the run completes. |
| Diagnostic.ExitZeroIff | checkOpenAiApiKey.py:263-275 | The script exits 0 iff the key is valid and the service answers the probe and the model listing. |
| Diagnostic.RejectedKeyIgnoresService | checkOpenAiApiKey.py:263-266 | After a rejected key, the outcome does not depend on the catalogue or the model file, and the exit status is 1. |
| Diagnostic.FileExample | checkOpenAiApiKey.py:186-199 | A file listing an available id and then an unavailable one reports exactly the unavailable one. |
| Diagnostic.AbsentFileChecksBuiltIns | checkOpenAiApiKey.py:186-192 | Without a model file, the nine built-in ids are checked. Nothing is missing iff all nine are in the catalogue. |

## Left out

- The reachability probe and its `Retry-After` check (`connectToOpenAI`, lines 98-125). They need HTTP responses from the service; the model keeps only which of them stopped the run (`ServiceFailure`). The unhandled `ValueError` of `int(...)` on the header is folded into `RetryAfter`, since both end the process with status 1. `connectToOpenAI` also calls `listModels` once more, so the ids are printed twice; that output is not modelled.
- The OpenAI client call `openai.Model.list()` and its exception-to-message mapping (lines 144, 149-164). The library is foreign and its error types are opaque. Its result enters the model as a `ServiceAnswer`: the catalogue, or one `ServiceFailure` value per handled failure. The printed failure messages are not modelled.
- Diagnostic.Diagnose: `listModels` runs twice, once inside `connectToOpenAI` (line 115) and once in `main` (line 272). One `ServiceAnswer` stands for both calls, so a service that answers the two calls differently is not represented.
- `listFiles` (lines 201-236). It is an authenticated HTTP request plus JSON parsing, and its only logic is printing "None" for an empty list inside a broad `except`.
- `print`, `sys.exit`, `os.getenv`, `os.path.isfile` and `open`. Exits are `KeyCheck` and `Run` values, printed text is a sequence of lines, and environment and file contents are parameters.
- Decoding `oaimodellist.txt` and splitting it into lines (universal-newline translation). The model starts from the sequence of lines. An unreadable file, which the script does not handle, is not represented.
- The printed lines of `listModels` and of `validateApiKey` are given as `ModelGap.Bullet` and `ApiKey.Message` but are not assembled into a full transcript of a run.
