# Reggie restaurant hunter: a Dafny model of its search and agent glue

Reggie answers "where can I eat …?" questions from a catalog of
establishments (`stores.json`). This project models, in Dafny, the two
Python files that hold its logic:

- `get_establishments` (get_establishments.py) scores every catalog record
  against the user's query with `fuzz.token_set_ratio` over the `name`,
  `description` and `cuisine` fields. It keeps the records scoring above 70,
  ranked highest first. When none qualify, it retries with generated
  alternative queries: every query obtained by deleting one contiguous run
  of words, then spelling-corrected variants of those. It stops at the first
  alternative that finds something and renders at most three records as a
  numbered list.
- manage_establishments.py drives a LangChain agent that researches a new
  establishment. The model covers its deterministic pieces:
  - the output parser that turns the language model's reply into a finish
    or a tool action;
  - the prompt template's variables (scratchpad, tools text, tool names);
  - the normalisation that lower-cases every string value of the new record
    before appending it to the catalog.

Modules, one per concern:

| file | module | models |
|---|---|---|
| wrappers.dfy | `Wrappers` | `Option`, `Result` |
| records.dfy | `Records` | JSON values; a record is a map from keys to JSON values |
| pystr.dfy | `PyStr` | the Python string operations the code relies on: `lower`, `strip`, `split()`, `split(sep)`, `join`, `in`, `replace`, `str(int)`; a first-occurrence search (`FindFrom`) underlies `in`, `split(sep)` and `replace` |
| fuzzy_search.dfy | `FuzzySearch` | `fuzzy_search` |
| alternatives.dfy | `Alternatives` | `generate_alternatives` |
| get_establishments.dfy | `EstablishmentSearch` | the fallback loop, the formatter, and `get_establishments` as a whole |
| output_parser.dfy | `OutputParser` | `CustomOutputParser.parse` |
| prompt_template.dfy | `PromptTemplate` | `CustomPromptTemplate.format_messages` |
| establishment_store.dfy | `EstablishmentStore` | the lower-case-and-append step of `write_establishment_to_json_file` |

Foreign code is passed in as parameters and is otherwise unconstrained:

- `token_set_ratio` is any pure function into 0..100 (`FuzzySearch.Ratio`).
- The spell checker is a pair of functions: `unknown` gives a set of words,
  `correction` gives a string (`Alternatives.SpellChecker`).
- The action regular expression is a function from the reply to its two
  capture groups, or none (`OutputParser.ActionMatcher`).

The catalog is a sequence of records that is already loaded.

A Python exception is modelled as an error value:
- `doc[field]` on a missing key gives `KeyError`; `.lower()` on a non-string
  gives `AttributeError`. Both are `FuzzySearch.SearchError`.
- The parser's `ValueError` is an `Err` holding its message.
- `format_messages` raises `KeyError` when there are no intermediate steps,
  and an unpack error for a non-empty string. Both are
  `PromptTemplate.PromptError`.

Loops in the source are `method`s with loop invariants. These are proved
equal to a recursive specification function, and the properties are lemmas
about those functions:
- `fuzzy_search`'s loop and its `sorted` call.
- The nested deletion loops.
- The fallback loop.
- The formatter's `enumerate` loop with `break`.
- The scratchpad loop.

The three spelling loops, including the iteration over the set `unknown`
returns, are instead proved to satisfy the relational predicates
`SpellingSound` (each entry is a correction that is not a deletion
alternative) and `SpellingCovers` (each correction is either a deletion
alternative or an entry).

The record store, whose list the source appends to, is a class with a
`seq` field.

Where the code and its documentation differ, the model follows the code:
- The deletion list never contains the unmodified query, because `j`
  starts at `i + 1`. It does contain the empty query, which deletes every
  word (`Alternatives.DeleteAll`).
- Each formatted entry ends in `" \n"` and entries are joined with `"\n"`,
  so the text has an empty line after every entry
  (`EstablishmentSearch.RenderLines`).
- `generate_alternatives` skips a spelling correction only when it is
  already among the deletion alternatives. A correction found twice is
  kept twice.

## Model

| member | source | states |
|---|---|---|
| FuzzySearch.RecordError | get_establishments.py:28-34 | scoring a record fails exactly when one of name, description, cuisine is missing or not a string; the error names the first such field in that order, and is a missing-key error exactly when that field is absent |
| FuzzySearch.Score | get_establishments.py:28-34 | the score is the maximum of the three ratios of the lower-cased query against the lower-cased fields: at least each, and equal to one |
| FuzzySearch.FirstError | get_establishments.py:32-34 | the scan of the catalog raises an error exactly when some record is malformed |
| FuzzySearch.FirstErrorAt | get_establishments.py:32-34 | when the first malformed record is at index i, the scan raises that record's error |
| FuzzySearch.FuzzySearchSpec | get_establishments.py:26-41 | the search succeeds exactly when every record is well formed |
| FuzzySearch.Search | get_establishments.py:26-41 | the loop, sort and projection return the ranked records of the specification, or its error |
| FuzzySearch.SortPerm | get_establishments.py:39 | the sort is a permutation of the matches |
| FuzzySearch.SortSorted | get_establishments.py:39 | the sorted matches are in non-increasing score order |
| FuzzySearch.SortStable | get_establishments.py:39 | matches of equal score keep their relative order (Python's sort is stable) |
| FuzzySearch.InsertPerm | get_establishments.py:39 | one insertion step adds exactly the inserted match |
| FuzzySearch.InsertSorted | get_establishments.py:39 | one insertion step keeps the list sorted |
| FuzzySearch.InsertStable | get_establishments.py:39 | one insertion step keeps each score's matches in order |
| FuzzySearch.DocsSortPerm | get_establishments.py:39-41 | the returned records are a permutation of the matched records |
| FuzzySearch.CandidatesEligible | get_establishments.py:32-36 | every match is a catalog record with its own score, above 70 |
| FuzzySearch.CandidatesCount | get_establishments.py:32-36 | a record occurs among the matches as often as in the catalog if it scores above 70, otherwise never |
| FuzzySearch.CandidatesFilter | get_establishments.py:32-36 | the matches of one score are that score's catalog records in catalog order, and none at 70 or below |
| FuzzySearch.SearchOnlyAboveThreshold | get_establishments.py:35-41 | every returned record is from the catalog and scores strictly above 70 |
| FuzzySearch.SearchKeepsEveryMatch | get_establishments.py:32-41 | each record scoring above 70 is returned exactly as many times as it occurs in the catalog; no other record is returned |
| FuzzySearch.SearchOrdered | get_establishments.py:39-41 | the returned records come highest score first |
| FuzzySearch.SearchStable | get_establishments.py:39-41 | records with the same score are returned in catalog order |
| Alternatives.AppendRow | get_establishments.py:51-53 | the inner loop appends the deletions for one i, with j ascending |
| Alternatives.DeletionAlternatives | get_establishments.py:46-53 | the nested loops build exactly the deletion list |
| Alternatives.DeletionCount | get_establishments.py:50-53 | N words give N(N+1)/2 deletion alternatives |
| Alternatives.DeletionsSplit | get_establishments.py:50-53 | the list is the rows before i followed by the rows from i on, and the rows before i have the row-start length |
| Alternatives.DeletionAt | get_establishments.py:50-53 | the alternative deleting words i..j-1 sits at its computed position in the list |
| Alternatives.DeletionOrder | get_establishments.py:50-51 | alternatives come with i ascending, then j ascending |
| Alternatives.DeletionIndex | get_establishments.py:50-53 | every index of the deletion list is the position of some pair i < j, so the positions fill the list |
| Alternatives.DeletionMembers | get_establishments.py:50-53 | every entry of the list deletes some run of words i..j-1 with i < j |
| Alternatives.DeletionFewerWords | get_establishments.py:46-52 | deleting words i..j-1 leaves exactly j - i words fewer, so never the unmodified query |
| Alternatives.DeleteAll | get_establishments.py:50-53 | the N-th alternative deletes every word and is the empty query |
| Alternatives.NoWordsNoDeletions | get_establishments.py:46-53 | a query without words has no deletion alternatives |
| Alternatives.NoWordsNoAlternatives | get_establishments.py:44-66 | a query without words has no alternatives at all: no deletions, and so no spelling corrections |
| Alternatives.CorrectionHasSource | get_establishments.py:57-64 | every spelling alternative is `alternative.replace(word, c)` for some deletion alternative different from it, one of its unknown words, and a word of that word's correction |
| Alternatives.DeletionExample | get_establishments.py:46-53 | "a b c" gives "b c", "c", "", "a c", "a", "a b" in this order |
| Alternatives.WordCorrections | get_establishments.py:60-64 | every word of the correction is replaced in, and each result is kept unless it is a deletion alternative |
| Alternatives.AlternativeCorrections | get_establishments.py:58-64 | for one alternative, every unknown word and every word of its correction is covered, whatever the set's iteration order |
| Alternatives.SpellingAlternatives | get_establishments.py:56-64 | the spelling part holds exactly the corrections that are not deletion alternatives: each entry is a correction, and each correction is either a deletion alternative or in the part |
| Alternatives.GenerateAlternatives | get_establishments.py:44-66 | the result is the deletion list followed by a valid spelling part |
| EstablishmentSearch.FirstHitFrom | get_establishments.py:75-78 | the index found is the first alternative from `from` on whose search finds something, or the end |
| EstablishmentSearch.FallbackResult | get_establishments.py:69-78 | a non-empty direct result is kept; otherwise the result is empty exactly when every alternative finds nothing, and is else the result of the first alternative that finds something |
| EstablishmentSearch.TryAlternatives | get_establishments.py:75-78 | the loop returns the first hit's records and the alternatives searched up to it |
| EstablishmentSearch.SearchWithFallback | get_establishments.py:69-78 | a malformed catalog gives the first record's error; otherwise the fallback result and the queries searched, with alternatives generated only when the direct search finds nothing |
| EstablishmentSearch.ResultsWellFormed | get_establishments.py:69-78 | every record the fallback returns can be formatted |
| EstablishmentSearch.FormatResults | get_establishments.py:81-91 | the loop with its break produces the rendering of at most the first three records |
| EstablishmentSearch.JoinNumbered | get_establishments.py:85-89 | joining the entries is joining each heading followed by an empty line |
| EstablishmentSearch.ShownLinesNoNewline | get_establishments.py:85 | when the fields hold no newline, no heading does |
| EstablishmentSearch.RenderLines | get_establishments.py:81-91 | read back line by line, the text is each shown record's heading "k. name (cuisine): description ", numbered from 1, followed by an empty line |
| EstablishmentSearch.RenderTruncates | get_establishments.py:82-84 | records after the third do not change the text |
| EstablishmentSearch.RenderEmpty | get_establishments.py:81-91 | no results give the empty text |
| EstablishmentSearch.GetEstablishments | get_establishments.py:6-91 | the text is the rendering of the fallback result, or the error of the first malformed record |
| OutputParser.ToolName | manage_establishments.py:111 | the tool name has no whitespace at either end |
| OutputParser.ToolInput | manage_establishments.py:112-115 | the tool input has no double quote at either end |
| OutputParser.ToolInputSlice | manage_establishments.py:112-115 | the tool input is a contiguous slice of the captured text |
| OutputParser.Parse | manage_establishments.py:97-116 | a reply containing "Final Answer" finishes with the single key "output"; otherwise a matched reply is an action with the stripped tool and unquoted input; otherwise the ValueError with its message; the log is always the whole reply |
| OutputParser.FinalAnswerFollowsLastSeparator | manage_establishments.py:103 | the answer is the stripped text after the last "Final Answer:", or the whole reply when only "Final Answer" occurs, with no whitespace at its ends |
| PromptTemplate.ScratchpadAppend | manage_establishments.py:74-77 | the scratchpad of two runs of steps is the concatenation of theirs |
| PromptTemplate.ScratchpadStep | manage_establishments.py:75-77 | each step contributes its log, "\nObservation: ", the observation and "\nThought: ", in this order |
| PromptTemplate.BuildScratchpad | manage_establishments.py:73-77 | the loop builds the scratchpad of all the steps |
| PromptTemplate.ToolsTextLines | manage_establishments.py:81 | split at newlines, the tools text gives back each tool's line when no name or description holds a newline |
| PromptTemplate.ToolNamesRoundTrip | manage_establishments.py:83 | split at ", ", the tool names text gives back the names when none holds a comma |
| PromptTemplate.FormatMessages | manage_establishments.py:70-84 | missing steps and a non-empty string fail; otherwise the variables are the caller's without the steps, plus the scratchpad, tools and tool names, the rest unchanged |
| EstablishmentStore.Lowercased | manage_establishments.py:150-151 | same keys; string values are lower-cased; other values are unchanged |
| EstablishmentStore.LowercasedNoUpper | manage_establishments.py:150-151 | no string value of the result holds an upper-case letter |
| EstablishmentStore.LowercasedIdempotent | manage_establishments.py:150-151 | normalising twice is normalising once |
| EstablishmentStore.Store.WriteEstablishment | manage_establishments.py:150-154 | the list gains the normalised record at its end and is otherwise unchanged |
| PyStr.Lower | get_establishments.py:33-34 | same length; ASCII upper-case letters shifted to lower case, all other characters unchanged |
| PyStr.LowerIdempotent | get_establishments.py:33-34 | lower-casing twice is lower-casing once |
| PyStr.Strip | manage_establishments.py:103-115 | neither end of the result is a stripped character |
| PyStr.StripSlice | manage_establishments.py:103-115 | the result is a slice; everything removed before and after it is a stripped character |
| PyStr.SplitYieldsWords | get_establishments.py:46 | `split()` yields non-empty pieces without whitespace |
| PyStr.SplitJoin | get_establishments.py:52-58 | `split()` of words joined by spaces gives back the words |
| PyStr.FindFrom | get_establishments.py:62 | the position found holds an occurrence, and no earlier one does |
| PyStr.LastPieceFollowsLastSeparator | manage_establishments.py:103 | `split(sep)[-1]` is a separator-free suffix, preceded by the separator when one occurs |
| PyStr.ReplaceIsSplitJoin | get_establishments.py:62 | replacing a non-empty pattern is splitting on it and joining with the replacement |
| PyStr.SplitOnJoin | get_establishments.py:89 | splitting on a separator whose first character no piece holds undoes the join |
| PyStr.DecimalString | get_establishments.py:85 | `str(n)` is a non-empty numeral of decimal digits without a leading zero |
| PyStr.DecimalRoundTrip | get_establishments.py:85 | the numeral reads back as n |

## Left out

- File I/O is not modelled: loading and dumping `stores.json`, `json.loads` of the agent's response, and the final `print`. The catalog and the new record are parameters.
- The LangChain agent, the OpenAI model, the SerpAPI tool and the executor loop are not modelled (manage_establishments.py outside lines 70-85, 97-116 and 150-154). bot.py (a Telegram bot) and main.py (a FastAPI endpoint), the front ends, are not part of this model either.
- `FuzzySearch.Ratio`: `fuzz.token_set_ratio` is a third-party matcher. Only its range 0..100 and its purity are modelled.
- `Alternatives.SpellChecker`: the `pyspellchecker` dictionary is not modelled. `correction` is taken to return a string; the library's `None` for an unknown correction is not modelled.
- `OutputParser.ActionMatcher`: the regular-expression engine is not modelled. The matcher is any function giving the two capture groups, so nothing is proved about what the pattern accepts.
- `Alternatives.SpellingAlternatives`: the spelling part is specified up to order and multiplicity. Its order depends on the iteration order of the sets `unknown` returns, which Python leaves unspecified. How often a correction repeats is not stated, because a repeated alternative is searched again with the same outcome and so never changes the fallback result.
- `PromptTemplate.FormatMessages`: `self.template.format(**kwargs)` and the `HumanMessage` wrapper are not modelled. The method returns the variables handed to `format`. A string value for `intermediate_steps` is accepted only when empty, because unpacking a non-empty string's characters into pairs fails.
- `PromptTemplate.ToolsTextLines`: the line-by-line round trip holds only for tools whose names and descriptions contain no newline. The one tool the agent is given has a multi-line description (manage_establishments.py:25-28), so this lemma does not apply to it; `FormatMessages` still states the tools text exactly.
- `PyStr.Lower`: only ASCII letters are lower-cased. Python's full Unicode case mapping is not modelled.
- `FuzzySearch.WellFormed`: a catalog entry is always a JSON object. Non-object entries of `stores.json`, which would raise a `TypeError`, are not modelled.
- `EstablishmentStore.Store.WriteEstablishment`: it takes the parsed record. A response that is not a JSON object, on which `.items()` fails, is not modelled. Key order of the dictionary, and so of the dumped file, is not modelled.
- `FuzzySearch.Search`: the exception the fallback loop's own searches could raise is not separate, because they scan the same catalog as the first search, which raises it first.
