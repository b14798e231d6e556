# tiny_scientist: verified model of the text and record transformations

This project models the pure core of two tiny_scientist modules:

- `tiny_scientist/tool.py`:
  - the GitHub query assembly of `CodeSearchTool`;
  - `DrawerTool`'s extraction and cleaning of model-generated SVG diagrams, and the brace escaping of its few-shot samples;
  - the record normalisation and result assembly of `CodeSearchTool.run`, `PaperSearchTool.run`, `search_for_papers` and `_extract_work_info`.
- `tiny_scientist/reviewer.py`:
  - score aggregation and the meta-review guard;
  - paper-list formatting;
  - the related-works query cache;
  - the round-count control of the reflection loop.

The project proves properties of these operations.

Everything outside is a parameter:

- **Search results.** What the network returns arrives as values (`Option<seq<RepoInfo>>`, `Option<seq<Paper>>`, `Option<seq<Work>>`).
- **Fetchers and searchers.** `fetch_bibtex` and the paper searcher are functions passed in. The paper searcher of the related-works cache may fail. The search results and `fetch_bibtex` cannot: their transport failures are left out (see below).
- **Candidate phrases.** The phrases spaCy would extract arrive as a sequence of strings.
- **JSON.** The result of `json.loads` is an `Option<JsonValue>`: `None` means the text did not decode.
- **Costs.** Costs are exact reals read from an oracle `cost(k)`, the running total after `k` reflection rounds.

Python's semantics are written out where they matter:

- `str.strip` strips exactly the `str.isspace` characters.
- The regular expressions are explicit searches:
  - `^```(?:svg)?` is a greedy optional group;
  - `$` in "```$" also matches before a final newline;
  - `<\?xml.*?\?>` without DOTALL cannot span a line;
  - `<svg.*?</svg>` with DOTALL is leftmost and lazy.
- `in` and `[...]` on JSON values raise `TypeError`, `KeyError` or `AttributeError` as Python would.
- `round` rounds half to even.
- `total / budget` with a zero budget raises `ZeroDivisionError`.

Modules: `Wrappers` (Option, Result), `Strings` (Python string built-ins), `PyValues` (exceptions, JSON values, `min`, `max`, slicing), `GithubQuery`, `SvgClean`, `Diagram`, `SearchRecords`, `Scores`, `RelatedWorks`, `Reflection`.

Two behaviours of the code are worth knowing:

- **SVG cleaning is not idempotent.** The code replaces every `&` unconditionally, so a second pass turns `&amp;` into `&amp;amp;`. The model proves the fixed point only for clean-form text without `&` (`SvgClean.CleanSvgFixedPoint`). It proves that a second pass changes clean-form text holding `&` (`SvgClean.CleanSvgNotIdempotent`), and any cleaned output without fences or `<?` that holds `&` (`SvgClean.SecondPass`).
- **A zero budget raises.** The code divides the running cost by the budget before it tests the pre-reflection threshold, so a budget of `0` raises `ZeroDivisionError`.

A consequence of the code worth knowing: with the `openalex` engine, `PaperSearchTool.run` always returns an empty map. The records `_extract_work_info` builds carry no `paperId`, so every bibtex is `"N/A"` and every paper is skipped (`SearchRecords.OpenAlexRunIsEmpty`).

## Model

| member | source | states |
|---|---|---|
| GithubQuery.CleanTerm | tiny_scientist/tool.py:97 | the cleaned term holds only word characters and whitespace; it keeps every such character of the input, adds none, and leaves an already clean term unchanged |
| GithubQuery.Distinct | tiny_scientist/tool.py:94-100 | the `seen` filter keeps each cleaned term once: no duplicates, and exactly the terms of the input |
| GithubQuery.DistinctPrefix | tiny_scientist/tool.py:96-102 | stopping the scan early yields a prefix of the full deduplicated list |
| GithubQuery.Collect | tiny_scientist/tool.py:96-102 | the scan with its early `break` returns the first `min(#distinct, max(max_terms, 1))` distinct cleaned terms; the check comes after the append, so at least one term is kept even when `max_terms <= 0` |
| GithubQuery.Keywords | tiny_scientist/tool.py:94-102 | the keyword list is a prefix of the distinct cleaned candidates, of length `min(#distinct, max(max_terms, 1))` |
| GithubQuery.KeywordsProperties | tiny_scientist/tool.py:94-102 | at most `max_terms` keywords when `max_terms >= 1`; pairwise distinct; each is a cleaned candidate of only word and space characters; when fewer than `max_terms` were kept, every cleaned candidate is among them |
| GithubQuery.Quote | tiny_scientist/tool.py:105 | a keyword without a space is kept as it is; one with a space is wrapped in double quotes, two characters longer, with the keyword between them |
| GithubQuery.QuoteAll | tiny_scientist/tool.py:105 | one entry per keyword, each the keyword quoted exactly when it holds a space |
| GithubQuery.Assemble | tiny_scientist/tool.py:106-108 | the assembled query ends with the space and the suffix `" in:file language:python"`, and what precedes them is the space-join of the quoted keywords |
| GithubQuery.FormatQuery | tiny_scientist/tool.py:104-114 | the query always ends with the suffix, and it respects `max_query_length` whenever the first assembly does |
| GithubQuery.LimitIsNotABound | tiny_scientist/tool.py:110-112 | the fallback promises no length bound: with a limit no longer than the suffix, the returned query exceeds it |
| GithubQuery.LongKeywordExceedsLimit | tiny_scientist/tool.py:104-114 | at the limit `run` uses, 6 terms and 250 characters, one clean keyword longer than 225 characters gives a query over 250 characters (the query is the keyword, a space and the 24-character suffix): the fallback keeps 3 terms and so the same one |
| GithubQuery.SingleKeywordQueryLength | tiny_scientist/tool.py:104-114 | with one space-free clean keyword, the query at 6 terms and 250 characters is exactly the keyword, a space and the 24-character suffix, so 225 characters give exactly 250 and the bound of `LongKeywordExceedsLimit` is tight |
| GithubQuery.FormatQueryUses | tiny_scientist/tool.py:110-114 | the query is the assembly of the keywords actually used: all of them, or the first `max_terms // 2` after an overlong first attempt |
| GithubQuery.ParseJoinQuoted | tiny_scientist/tool.py:105-106 | the space-joined quoted keywords parse back into exactly the keywords, so quoting keeps multi-word terms apart |
| GithubQuery.FormatQueryRoundTrip | tiny_scientist/tool.py:104-114 | the keywords used are a prefix of the selected keywords, and whenever one is used the query parses back into exactly them |
| GithubQuery.CleanHasNoQuote | tiny_scientist/tool.py:97 | a cleaned term holds no double quote, which makes the quoting unambiguous |
| GithubQuery.ResolveCodeQuery | tiny_scientist/tool.py:44-52 | a query that decodes to a dictionary with "Title" or "Experiment" is replaced by the formatted query with 6 terms and length 250; any other query is used unchanged |
| SvgClean.DropOpeningFence | tiny_scientist/tool.py:454 | the result is a suffix of the input; without a leading "```" the text is unchanged; with one, at least three characters go |
| SvgClean.OpeningFenceRoundTrip | tiny_scientist/tool.py:454 | a leading "```svg", or "```" not followed by "svg", is removed and nothing else is |
| SvgClean.DropClosingFence | tiny_scientist/tool.py:455 | a trailing "```" is removed; a "```" before a final newline is removed and the newline kept; otherwise the text is unchanged |
| SvgClean.ClosingFenceRoundTrip | tiny_scientist/tool.py:455 | a fence appended to a body, with or without a final newline, is exactly what is removed |
| SvgClean.EscapeAmp | tiny_scientist/tool.py:458 | after the replacement every `&` starts `&amp;`; text without `&` is unchanged, and text with one grows by at least four characters |
| SvgClean.UnescapeEscape | tiny_scientist/tool.py:458 | reading every `&amp;` back as `&` recovers the input, so the replacement loses nothing |
| SvgClean.EscapeConcat | tiny_scientist/tool.py:458 | the replacement works character by character: it distributes over concatenation |
| SvgClean.DeclClose | tiny_scientist/tool.py:461 | the lazy `.*?\?>` ends at the first `?>` after the opening, and no newline may lie between them |
| SvgClean.DeclCloseComplete | tiny_scientist/tool.py:461 | the search is complete: any `?>` reached without crossing a newline is found, at that position or before it |
| SvgClean.FindDecl | tiny_scientist/tool.py:461 | the declaration found is the leftmost `<?xml` that closes on its own line, and none is found only when no position starts one |
| SvgClean.RemoveFirstDecl | tiny_scientist/tool.py:461 | without a declaration the text is unchanged; with one, exactly the leftmost declaration found is cut out and the text on both sides is kept, so at least the seven characters of `<?xml?>` go |
| SvgClean.SameLineDeclRemoved | tiny_scientist/tool.py:461 | a `<?xml` whose `?>` follows on the same line is always found, no later than that `<?xml`, and removing it takes at least seven characters |
| SvgClean.RemoveDeclAmp | tiny_scientist/tool.py:458-461 | removing the declaration keeps every `&` the start of `&amp;` |
| SvgClean.Segments | tiny_scientist/tool.py:464 | the text split at its line boundaries gives at least one piece, none holding a line break |
| SvgClean.KeepNonBlank | tiny_scientist/tool.py:464 | the filter keeps only lines with a non-space character, keeps every such line, and leaves a list with no blank line unchanged |
| SvgClean.SegmentsJoin | tiny_scientist/tool.py:464 | splitting the newline-join of break-free lines gives back the lines |
| SvgClean.JoinSegments | tiny_scientist/tool.py:464 | for text whose only breaks are newlines, joining its lines with newlines gives back the text |
| SvgClean.StripJoin | tiny_scientist/tool.py:464-466 | stripping a join of non-blank lines only trims the first line's start and the last line's end, and every line stays non-blank |
| SvgClean.StripLines | tiny_scientist/tool.py:464-466 | the final text has only newline breaks, no blank line, and is empty exactly when no line survived |
| SvgClean.CleanSvg | tiny_scientist/tool.py:451-466 | the cleaned SVG has no leading or trailing whitespace, uses only newlines as breaks, holds no empty or whitespace-only line, and every `&` in it starts `&amp;` |
| SvgClean.CleanFormPass | tiny_scientist/tool.py:451-466 | on text that is trimmed, newline-only, free of blank lines, fences and `<?`, cleaning only replaces the ampersands |
| SvgClean.CleanSvgFixedPoint | tiny_scientist/tool.py:451-466 | such text without `&` is left unchanged by cleaning |
| SvgClean.CleanSvgNotIdempotent | tiny_scientist/tool.py:458 | such text holding `&` is changed by a second cleaning, growing by at least four characters |
| SvgClean.SecondPass | tiny_scientist/tool.py:451-466 | cleaning a cleaned SVG again (one without fences or `<?`) replaces only its ampersands, and changes it exactly when it holds `&` |
| Diagram.Empty | tiny_scientist/tool.py:429 | the initial result: empty summary and svg, and the full response |
| Diagram.FindBlock | tiny_scientist/tool.py:436-437 | the match starts at the leftmost `<svg` and ends with the first `</svg>` after it |
| Diagram.FindBlockExists | tiny_scientist/tool.py:436-437 | a block is found whenever some `<svg` is followed by a `</svg>` |
| Diagram.RemoveBlocks | tiny_scientist/tool.py:439 | removing the blocks never lengthens the text, keeps what precedes the first block, and changes nothing when there is none |
| Diagram.RemoveSingleBlock | tiny_scientist/tool.py:439 | a text holding exactly one block loses exactly that block, and the text before and after it is kept |
| Diagram.RemoveBlocksIdentity | tiny_scientist/tool.py:439 | the text is unchanged exactly when it holds no block |
| Diagram.PassesGate | tiny_scientist/tool.py:444 | for text, the gate holds exactly when both `<svg` and `</svg>` occur; for null, booleans and numbers the membership test raises `TypeError` |
| Diagram.Fallback | tiny_scientist/tool.py:435-442 | the fallback svg is the leftmost block or empty, and the summary is the first line of the stripped text with every block removed |
| Diagram.Candidate | tiny_scientist/tool.py:431-442 | undecodable text takes the fallback; a decoded object missing "summary" or "svg" raises `KeyError`; a decoded non-object raises `TypeError`; decoded text never falls back |
| Diagram.ExtractDiagram | tiny_scientist/tool.py:428-449 | the full response is always kept; summary and svg stay empty unless the candidate holds both tags, and then the svg is the cleaned candidate; undecodable text never raises, and indexing errors propagate |
| Diagram.BlockHasBothTags | tiny_scientist/tool.py:436-444 | the leftmost block always passes the gate |
| Diagram.FallbackUsesLeftmostBlock | tiny_scientist/tool.py:435-448 | on the fallback path with a block present, the result holds the fallback summary and the cleaned leftmost block |
| Diagram.FallbackWithoutBlock | tiny_scientist/tool.py:435-448 | undecodable text without a block gives the empty result |
| Diagram.ListSvgRaises | tiny_scientist/tool.py:444-446 | a decoded list holding both tag strings passes the gate, and the cleaning then raises `AttributeError` |
| Diagram.NumberSvgRaises | tiny_scientist/tool.py:444 | a decoded number under "svg" makes the gate raise `TypeError` |
| Diagram.EscapeCurlyBraces | tiny_scientist/tool.py:331-332 | escaping never shortens the text, leaves brace-free text unchanged, and lengthens text holding a brace by at least four |
| Diagram.UnescapeEscapeBraces | tiny_scientist/tool.py:331-332 | reading each `{{`+brace+`}}` back as the brace recovers the input, so the escaping loses nothing; brace-free text is unchanged |
| SearchRecords.ExtractRepoInfo | tiny_scientist/tool.py:152-160 | the fields are copied over; a null or empty description becomes "No description provided.", and the description is never empty |
| SearchRecords.ExtractGithubRepoInfo | tiny_scientist/tool.py:151-162 | one record per repository, in order |
| SearchRecords.Hit | tiny_scientist/tool.py:58-62 | the entry of one repository: its name as title, its url as source, and "Stars: " with the star count as info |
| SearchRecords.HitStars | tiny_scientist/tool.py:61 | the info field is "Stars: " followed by the digits of the star count, which parse back to the count |
| SearchRecords.CodeHitsKeys | tiny_scientist/tool.py:56-62 | the result keys are exactly the decimal strings of the indices `0 .. n-1` |
| SearchRecords.CodeHitsShape | tiny_scientist/tool.py:56-62 | the map has one entry per repository, and key `str(i)` holds the i-th repository's name, url and stars |
| SearchRecords.CodeSearchRun | tiny_scientist/tool.py:56-62 | no repositories give `{}`; otherwise the loop builds one entry per repository under key `str(i)`, with keys exactly the indices |
| SearchRecords.FirstSourced | tiny_scientist/tool.py:283-290 | finds the leftmost location with a truthy source, or reports that none has one |
| SearchRecords.Venue | tiny_scientist/tool.py:283-290 | without a truthy source the venue is "Unknown"; otherwise it is the leftmost such source's display name, or a `KeyError` when that source lacks one |
| SearchRecords.Authors | tiny_scientist/tool.py:292-299 | no authors give ""; fewer than 20 are exactly the " and "-join of all of them, in order; 20 or more give the first author followed by " et al." |
| SearchRecords.AuthorsLength | tiny_scientist/tool.py:292-299 | the join of fewer than 20 authors is as long as all the names together plus five characters for each " and " between them, so no name and no separator is dropped |
| SearchRecords.TruncateAbstract | tiny_scientist/tool.py:301-304 | the abstract is a prefix of the input of length `min(len, max)`, unchanged when within the limit |
| SearchRecords.ExtractWorkInfo | tiny_scientist/tool.py:279-313 | the record holds the title, the venue, the joined authors, the truncated abstract ("" when missing), the year or "Unknown", and the citation count or 0; it fails exactly when the venue lookup raises |
| SearchRecords.WorkPapers | tiny_scientist/tool.py:265 | one record per work carrying its title and no paper id, failing exactly when some work's venue lookup raises |
| SearchRecords.OpenAlexPapers | tiny_scientist/tool.py:261-265 | no works, or an empty list, give `None`; otherwise the records carry no paper id |
| SearchRecords.SearchForPapers | tiny_scientist/tool.py:207-222 | an empty query gives `None` before the engine is looked at; otherwise the engine selects Semantic Scholar or OpenAlex, and any other engine raises `NotImplementedError` |
| SearchRecords.BibtexOf | tiny_scientist/tool.py:196-197 | a paper with a non-empty id gets whatever the fetcher returns for that id; a paper without one gets "N/A", which is never usable |
| SearchRecords.UsableBibtex | tiny_scientist/tool.py:199-200 | the `continue` guard: a bibtex is kept only when it is present, non-empty and not "N/A" |
| SearchRecords.PaperResults | tiny_scientist/tool.py:194-202 | every entry is keyed by its title and has a bibtex that is non-empty and not "N/A"; a title is a key exactly when some paper with it had a usable bibtex |
| SearchRecords.LastWriterWins | tiny_scientist/tool.py:195-202 | when titles repeat, the entry holds the bibtex of the last usable paper with that title |
| SearchRecords.AssemblePaperResults | tiny_scientist/tool.py:194-202 | the loop builds exactly the reference map, so every entry is keyed by title with a usable bibtex |
| SearchRecords.PaperSearchRun | tiny_scientist/tool.py:190-205 | `run` fails exactly when the search does, and every entry it returns is keyed by title with a usable bibtex |
| SearchRecords.EmptyQueryRun | tiny_scientist/tool.py:190-211 | an empty query gives `{}` whatever the engine, even an unsupported one |
| SearchRecords.NoIdNoResults | tiny_scientist/tool.py:196-200 | papers without an id get bibtex "N/A" and are all skipped |
| SearchRecords.OpenAlexRunIsEmpty | tiny_scientist/tool.py:190-205 | with the OpenAlex engine, `run` never returns an entry |
| Scores.HasValidScore | tiny_scientist/reviewer.py:284-286 | the filter of the comprehension: the key is present, its value is a number, and the number lies in the field's inclusive range |
| Scores.ValidIndices | tiny_scientist/reviewer.py:281-287 | reference: the indices of the reviews that pass the filter, each a valid review |
| Scores.ValidIndicesExact | tiny_scientist/reviewer.py:281-287 | the reference lists every review that passes the filter, each once, in increasing order |
| Scores.ValidScoresExact | tiny_scientist/reviewer.py:281-287 | the valid scores are exactly the values of the reviews that pass the filter, one per such review, in review order |
| Scores.ValidScores | tiny_scientist/reviewer.py:281-287 | the valid scores lie in the field's range, number at most the reviews, and exist exactly when some review has a numeric in-range value for the field |
| Scores.MeanBounds | tiny_scientist/reviewer.py:290 | the mean of in-range scores lies in the range |
| Scores.RoundHalfEven | tiny_scientist/reviewer.py:290 | the rounded value is within one half of the input, and an exact tie goes to the even integer |
| Scores.RoundUnique | tiny_scientist/reviewer.py:290 | the rounding is the only integer meeting that contract |
| Scores.AggregatedValue | tiny_scientist/reviewer.py:289-290 | the aggregate of a field with valid scores is a number within the field's range |
| Scores.FieldNamedFinds | tiny_scientist/reviewer.py:268-280 | with distinct field names, looking a field up by its name finds that field |
| Scores.AggregateFrom | tiny_scientist/reviewer.py:280-290 | the loop over the fields keeps every key of the meta-review; a key that names no visited field keeps its value and is present only if it was; each visited field with valid scores holds its aggregate |
| Scores.AggregateFromKey | tiny_scientist/reviewer.py:280-290 | over the visited fields, a field with valid scores is set to its aggregate; every other key keeps its value, and no other key appears |
| Scores.AggregateScores | tiny_scientist/reviewer.py:265-293 | each of the nine fields with valid scores is set to its rounded mean, within its range; every other key, score field or not, keeps its value |
| Scores.UnscoredFieldKept | tiny_scientist/reviewer.py:280-290 | a field no review scored validly keeps the meta-review's own value |
| Scores.OverallExample | tiny_scientist/reviewer.py:268-290 | "Overall" scores 7, 11 and 8 aggregate to 8: the out-of-range 11 is ignored and 7.5 rounds to even |
| Scores.WriteMetaReview | tiny_scientist/reviewer.py:233-263 | an empty review list raises `ValueError`, and only it does; a reply without a meta-review gives `{}`; otherwise the scores are aggregated into it |
| RelatedWorks.FormatPaperResults | tiny_scientist/reviewer.py:295-307 | no papers give "No papers found."; otherwise the entries are joined by blank lines |
| RelatedWorks.PaperLine | tiny_scientist/reviewer.py:302-305 | the i-th entry starts with the decimal digits of `i` and ": " |
| RelatedWorks.PaperLineFields | tiny_scientist/reviewer.py:302-305 | an entry opens with "i: " and the record's title, and ends with ". " and its info, or ". No venue" when it has none |
| RelatedWorks.NoTitleDefault | tiny_scientist/reviewer.py:303 | a record without a title shows "No title" right after "i: " |
| RelatedWorks.PaperLineEmpty | tiny_scientist/reviewer.py:302-305 | an empty record is shown as "i: No title. No authors. No venue" |
| RelatedWorks.FormatSplits | tiny_scientist/reviewer.py:295-307 | when no field holds a newline, splitting the text at blank lines gives exactly n entries, the i-th prefixed with "i: " |
| RelatedWorks.EntryLine | tiny_scientist/reviewer.py:303-304 | a search result holding only title and bibtex is shown with the defaults "No authors" and "No venue" |
| RelatedWorks.RelatedText | tiny_scientist/reviewer.py:144-149 | the text is "No related works found." exactly when there are no papers |
| RelatedWorks.GetRelatedWorks | tiny_scientist/reviewer.py:136-152 | the searcher runs exactly when the query was not cached; a cached query is answered from the cache; a search that raises propagates its error and leaves the cache unchanged; a successful one is stored under the query; the text succeeds exactly when the query is cached afterwards, no earlier entry changes, and the text is "No related works found." exactly when the stored list is empty |
| RelatedWorks.RepeatedQueryServedFromCache | tiny_scientist/reviewer.py:136-152 | after an answer, asking again for the same query gives the same text and cache without a search, whatever the searcher would now return; after a raise, the query is still uncached and the next call searches again |
| Reflection.Skips | tiny_scientist/reviewer.py:103-106 | the pre-reflection test: a budget is set and the cost so far divided by it reaches the threshold (a zero budget raises before this) |
| Reflection.Additional | tiny_scientist/reviewer.py:117-121 | the extra rounds are the floor of the remaining allowance over the per-round cost: that many rounds fit in what remains and one more does not |
| Reflection.FloorDiv | tiny_scientist/reviewer.py:121 | floor division of a non-negative remainder: the quotient's floor times the divisor does not exceed the dividend, and one more does |
| Reflection.RoundLimit | tiny_scientist/reviewer.py:116-122 | the bound set after the first round never exceeds `num_reflections`, and is at least 1 when `num_reflections >= 1` |
| Reflection.FirstReached | tiny_scientist/reviewer.py:112-129 | reference: the first round count within the bound at which the running cost reaches the threshold, or the bound when none does |
| Reflection.FirstReachedIs | tiny_scientist/reviewer.py:123-129 | a count that stops the loop, with no earlier count stopping it, is the one the reference finds |
| Reflection.ReflectionRounds | tiny_scientist/reviewer.py:101-129 | a zero budget raises `ZeroDivisionError`; rounds are at most `num_reflections`, 0 when the pre-reflection ratio is reached, and all of them without a budget; when not skipped, at least one round runs and the count is the reference stop within the bound set after the first round |

## Left out

- HTTP searches (`_search_github`, `_search_semanticscholar`, `_search_openalex`) and the transport of `fetch_bibtex` are network I/O. Their results are inputs or function parameters.
- `CodeSearchTool.run` forwards any `search_type` to `_search_github`. The model covers only the default "repositories" type, whose records `ExtractGithubRepoInfo` models. The "code" type with its `_extract_github_code_info` records, and the `ValueError` for any other type, are left out.
- spaCy noun-chunk and token extraction is a foreign library. Its output is the candidate sequence, taken in a given order, because set iteration order is arbitrary.
- `json.loads` is an `Option<JsonValue>` input, not a parser.
- LLM calls, `extract_json_between_markers`, prompt templating through `Config`, `review`, `re_review` and the `_generate_*` and `_reflect_review` helpers are foreign or unseen. The meta-review the model returns is an `Option` input of `WriteMetaReview`.
- `DrawerTool.run` and `draw_diagram` only route the LLM reply and are left out.
- PDF extraction with `fitz`, toml configuration, environment variables, `print` logging and `cost_tracker.report()` are I/O.
- `api_calling_error_exponential_backoff` is left out. Its module is not part of this model, and its effect is sleeping and retrying.
- Floating point is left out: costs, means and `round` use exact reals. `Reflection.ReflectionRounds` takes `//` on non-negative floats as the floor of the exact quotient.
- Python's bool-is-int quirk in the `isinstance` score check is left out. A JSON boolean is not a number here.
- `\w` is modelled as ASCII letters, digits and `_`. Python's Unicode word characters are not.
- `SvgClean.Segments`: splits at every line-boundary character. It does not treat `\r\n` as one boundary and keeps a trailing empty piece, unlike `str.splitlines`. The blank-line filter that follows removes every such difference.
- `SvgClean.CleanSvgNotIdempotent`: proved only for clean-form text: trimmed, newline breaks only, no blank line, no code fence at either end and no `<?`. A cleaned output that again starts or ends with a fence, or still holds a `<?xml…?>` or `<?xml-stylesheet?>` after the first is removed, is re-escaped too but is not covered.
- `SvgClean.SecondPass`: states the second pass only for cleaned outputs without a fence at either end and without `<?`, for the same reason. On other outputs a second pass also strips a fence or a declaration, which the lemma does not describe.
- `SearchRecords.ExtractRepoInfo`: a repository record always has the "description" key here. A record without it, on which `repo["description"]` raises `KeyError`, is not modelled; a `None` description is JSON `null`.
- `SearchRecords.PaperSearchRun`: transport failures are not modelled. `fetch_bibtex`, `_search_semanticscholar` and `_search_github` call `raise_for_status()`, and `_search_openalex` calls pyalex, so an HTTP error raises out of `run` and no map is returned. Here the search results are plain values and `fetch` returns an `Option`, so `run` fails only with `NotImplementedError` or the venue `KeyError`. The same holds for `CodeSearchRun`.
- `SearchRecords.Work`: a missing abstract is the empty string. These cases, which the record types cannot express, are not modelled:
  - an explicit JSON `null` abstract, on which `len` would raise;
  - a location without the "source" key, on which `loc["source"]` raises `KeyError`;
  - a source whose `display_name` is `null`;
  - a `null` `publication_year` or `cited_by_count`, which `get` returns as `None` instead of the default;
  - a work without "title", "locations" or "authorships", or an authorship without `display_name`.
- `Reflection.ReflectionRounds`: states round counts only. The review text each round produces is not modelled.
