# fileSorter document identity, in Dafny

fileSorter turns the OCR text of a scanned PDF into a filename and a storage
category. It asks a language model for each one, several times with
different prompt templates. This project models that core of `main.py` and
proves properties of it:

- **StringOps** (`stringops.dfy`): the Python `str` and `re` operations the
  core uses, in their edge cases:
  - `replace` and the literal, case-insensitive `re.sub`
  - `strip`, `split`, `lower`, `capitalize`
  - the ordering `sorted` uses on `str`, and `str(n)`
- **Extract** (`extract.dfy`):
  - `clean_llm_output`.
  - `find_match`, a hand-written matcher for the regular expression
    `PATTERN`. It is proved to find the leftmost, and then longest, match of
    the pattern as a declarative grammar defines it.
  - `is_valid`, `append_date_to_filename` and `longest_string`.
- **Normalize** (`normalize.dfy`): `get_replacements` and `tidy_match`.
- **Matching** (`matching.dfy`):
  - `find_words`, as `re.findall` of the alternation of literal words: at
    each position the first word that fits, ignoring case, spelled as in the
    text.
  - `find_category` and `get_name_part`.
- **Voting** (`voting.dfy`): `highest_count_by_two`. It works on the tally
  dictionary, kept as a list of (key, count) pairs in insertion order.
- **Resolution** (`resolution.dfy`):
  - `get_document_name` and `get_document_category`, three templates times
    three retries each.
  - `prompt_stats`, as a class whose counters the methods update.
  - the fallbacks of `get_filename_and_category`.
  - `process_document` after OCR.

  The service behind `ask_infomaniak_ai` is an oracle: a function from the
  prompt and the index of the call to a reply or a failure. The `Llm` class
  holds it together with a call counter.

Each loop of the source is a method with invariants. It is proved against a
function of the inputs: `Run` for the plain retry loop, `TallyRun` for the
vote loop, `Tidied`, `NamePart` and `Pipeline`. The properties are lemmas
about those functions.

In four places the code does something other than its documented intent
suggests. The model follows the code:

- **A category needs exactly one match in total.** The intent reads as one
  distinct label. In the code two label occurrences give no category when
  the second starts at least the longest label's length after the first.
  This holds whether the two labels are the same or different
  (`Matching.TwoOccurrencesNoCategory`, `Matching.TwoLabelsNoCategory`,
  `Matching.SameLabelTwiceNoCategory`). Occurrences closer than that can be
  read as one match: against the labels `BriefBrief` and `Brief`, the text
  `BriefBrief` gives the category `BriefBrief`
  (`Matching.NestedLabelsOneMatch`).
- **The category is spelled as in the answer.** It equals a label only when
  case is ignored: `BRIEF` comes back for the label `Brief`
  (`Matching.CategoryKeepsTextCasing`). So "the category is one of the
  labels" holds only ignoring case.
- **The vote margin never decides.** The tally is empty before the first
  hit. One hit leaves a single key, and `highest_count_by_two` returns a
  single key at once. So the category task always ends at its first hit
  (`Resolution.VoteRunIsFirstHit`).
- **Close tallies never build up.** A tally such as
  `{Rechnung: 2, Vertrag: 1}`, where the margin rule would ask for more
  votes, never occurs: the loop stops at the first hit, with one key.

## Model

| member | source | states |
|---|---|---|
| StringOps.EqualsIgnoringCasePointwise | main.py:184 | Case-insensitive equality holds exactly when the lengths agree and every pair of characters agrees after folding |
| StringOps.ReplaceAll | main.py:108 | `str.replace` never lengthens when the replacement is no longer than the pattern; it brings in only the replacement's characters; with no occurrence it is the identity |
| StringOps.ReplaceAllAtFirst | main.py:175 | At the first occurrence, at `i`, `str.replace` keeps `s[..i]`, puts the replacement in place of the occurrence and goes on after it |
| StringOps.ReplaceAllShortens | main.py:175 | Replacing an occurring pattern by something shorter, as `__` by `_`, shortens the string |
| StringOps.ReplaceCharRemovesIt | main.py:108 | Replacing a character by text without it leaves none of that character |
| StringOps.DeleteCharLength | main.py:108 | Deleting a character shortens the string by its number of occurrences |
| StringOps.ReplaceAllKeepsCount | main.py:175-177 | A replacement whose pattern and substitute lack `c` keeps the number of `c`s |
| StringOps.RemoveAllIgnoringCase | main.py:184 | The case-insensitive `re.sub` of a literal never lengthens, adds no character, and changes nothing when the pattern does not occur |
| StringOps.RemoveAllAtFirst | main.py:184 | At the first case-insensitive occurrence, at `i`, the pass keeps `s[..i]`, deletes the occurrence and goes on after it |
| StringOps.RemoveKeepsCount | main.py:184 | A character the pattern cannot match, even ignoring case, survives the deletion pass in the same number |
| StringOps.Strip | main.py:178 | `strip` returns the slice of the string between a white-space prefix and a white-space suffix, with no white space left at either end; an already stripped string is kept |
| StringOps.ReplaceCharIsSubst | main.py:108 | Replacing a one-character pattern replaces each of its occurrences, character by character |
| StringOps.Split | main.py:203 | `split` gives at least one part and no part holds the separator |
| StringOps.SplitLength | main.py:203 | `split` gives one more part than there are separators |
| StringOps.JoinSplit | main.py:203 | Joining the parts of a split with the separator gives back the string |
| StringOps.LastIndexOf | main.py:140 | The cut of `rsplit('.', 1)` is at a dot with no dot after it |
| StringOps.LessTotal | main.py:466 | Python's ordering on `str` is total |
| StringOps.LessTransitive | main.py:466 | Python's ordering on `str` is transitive |
| StringOps.LessIrreflexive | main.py:466 | Python's ordering on `str` is irreflexive |
| StringOps.DecimalRoundTrip | main.py:441 | Reading back `str(n)` gives `n` |
| StringOps.DecimalLength | main.py:441 | A number below 10^k has at most k digits |
| Extract.CleanLlmOutput | main.py:98-108 | The cleaned answer is `Cleaned`, the per-character reading: each backslash dropped, each newline a space, every other character kept. So it has no newline and no backslash, is shorter by the number of backslashes, and a clean answer is unchanged |
| Extract.CleanedIsTwoPasses | main.py:108 | The two `replace` passes, newline first and backslash second, come to the per-character reading |
| Extract.SearchFrom | main.py:121 | `re.search` gives the first start position with a match, and none before it |
| Extract.MatchAtSound | main.py:29 | What the matcher returns is in the language of `PATTERN` |
| Extract.MatchAtComplete | main.py:29 | Every match of `PATTERN` at a position is found there, and is no longer than the one found |
| Extract.SearchHitIsLeftmostLongest | main.py:29 | The search hit is the leftmost match of the pattern and the longest one at that position |
| Extract.FindMatchSpec | main.py:111-125 | `find_match` returns nothing exactly when the answer holds no `.pdf`; otherwise it returns the leftmost-longest match, which contains `.pdf` |
| Extract.IsValidSpec | main.py:189-205 | A candidate is valid exactly when present, at least 15 characters long, and holding exactly one `.` |
| Extract.IsValidBoundary | main.py:199-204 | Stem plus `.pdf` is valid from 15 characters on and not at 14; a second dot is refused at any length; `None` is refused |
| Extract.FindMatch | main.py:111-125 | See `FindMatchSpec`: nothing exactly when the answer holds no `.pdf`, else the leftmost-longest match of the pattern |
| Extract.IsValid | main.py:189-205 | See `IsValidSpec` and `IsValidBoundary`: present, at least 15 characters, exactly one `.` |
| Extract.AppendDate | main.py:128-141 | The dated name is the part before the last dot, then `-` and the date, then the extension from the last dot on |
| Extract.AppendDateKeepsDots | main.py:140-141 | With a dot-free date, dating keeps the dot count and the extension after the last dot |
| Extract.LongestString | main.py:81-95 | The result is empty exactly when no string has more than 13 characters; otherwise it is the first of the longest such strings |
| Normalize.SuffixedAt | main.py:157-158 | Entry `i` of a suffixed list is first name `i` with the suffix |
| Normalize.PrefixedAt | main.py:159 | Entry `i` of the prefixed list is `_` and form `i` |
| Normalize.NameFormAt | main.py:155-158 | Layout of the name forms: the last name, then the first names, then `first_last`, then `firstlast` |
| Normalize.ReplacementEntry | main.py:144-161 | Entry `k` of `get_replacements`: `_` and each of the name forms in order, then the bare last name |
| Normalize.ReplacementsShape | main.py:159-160 | Every entry but the last starts with `_`; literal names give literal entries |
| Normalize.Replacements | main.py:144-161 | See `ReplacementEntry` and `ReplacementsShape`: `_` plus each name form in order, then the bare last name |
| Normalize.Pretidy | main.py:175-178 | After the first four steps of `tidy_match`: no longer, no quote character, no white space at either end; strictly shorter when the match holds `__` |
| Normalize.RemoveEachShrinks | main.py:183-184 | The deletion passes never lengthen and add no character |
| Normalize.RemoveEachAbsent | main.py:183-184 | Passes over a text in which no entry occurs change nothing |
| Normalize.RemoveEachKeepsDots | main.py:183-184 | Deleting literal entries keeps every `.` |
| Normalize.TidiedShape | main.py:164-186 | `tidy_match` never lengthens and leaves no quote character |
| Normalize.TidiedKeepsDots | main.py:164-186 | `tidy_match` keeps the number of dots, so a valid candidate keeps its one dot |
| Normalize.StripKeepsDots | main.py:178 | Stripping keeps the number of dots |
| Normalize.TidiedKeepsNormalForm | main.py:164-186 | A name already in normal form comes back unchanged: no `__`, no quote, no edge white space, no replacement entry |
| Normalize.UnderscoresCollapseOnce | main.py:175 | `__` to `_` is one pass: three underscores become two |
| Normalize.RemovalIsOnePass | main.py:183-184 | Each deletion is one pass, not a fixpoint: removing `doe` from `DDoeoe` leaves `Doe` |
| Normalize.TidyMatch | main.py:164-186 | The method with its loop over the entries computes `Tidied` |
| Normalize.Tidied | main.py:164-186 | See `TidiedShape`, `TidiedKeepsDots`, `TidiedKeepsNormalForm` and `TidyMatch`: no longer, no quote, dots kept, normal forms fixed |
| Matching.FirstWordAtFinds | main.py:219-220 | The alternation takes a word at a position exactly when some word occurs there, ignoring case |
| Matching.FindWordsFromSound | main.py:219-220 | Every match from a position on is non-empty, equals a word ignoring case, and is a piece of the text from that position on |
| Matching.FindWords | main.py:208-221 | Every match is non-empty, a word ignoring case, and a piece of the text; an empty word list gives one empty match per position |
| Matching.FindWordsFromHit | main.py:219-220 | A word occurring at or after a position gives the search from there a match |
| Matching.FindWordsFromMiss | main.py:219-220 | With no word occurring from a position on, the search from there finds nothing |
| Matching.FindWordsFrom | main.py:219-220 | See `FirstWordAtFinds`, `FindWordsFromSound`, `FindWordsFromHit` and `FindWordsFromMiss`: sound matches, a match exactly when a word occurs from there on |
| Matching.FindWordsEmpty | main.py:208-221 | `find_words` finds nothing exactly when no word occurs anywhere, ignoring case |
| Matching.FirstTaken | main.py:219-220 | With a word occurring at `p`, the search takes its first match at a position no later than `p`, having found nothing before it |
| Matching.TwoOccurrencesFrom | main.py:219-220 | Two occurrences, the second at least the longest word's length after the first, give the search at least two matches |
| Matching.FindCategory | main.py:224-241 | A category exactly when there is one match in total; it is non-empty, a label ignoring case, and taken from the text |
| Matching.NoLabelNoCategory | main.py:235-241 | No label in the text gives no category |
| Matching.TwoOccurrencesNoCategory | main.py:237-241 | Two label occurrences at least the longest label's length apart give no category |
| Matching.TwoLabelsNoCategory | main.py:237-241 | Two labels, the same or different, occurring at least the longest label's length apart give no category |
| Matching.SameLabelTwiceNoCategory | main.py:237-241 | With a single label, the label at two non-overlapping places gives no category |
| Matching.NestedLabelsOneMatch | main.py:219-238 | The labels `BriefBrief` and `Brief` against the text `BriefBrief` give the single match `BriefBrief`, so the category is found |
| Matching.CategoryKeepsTextCasing | main.py:237-238 | The category keeps the text's casing: `BRIEF` for the label `Brief` |
| Matching.OneOccurrenceIsTheCategory | main.py:224-241 | One label occurrence in the whole text, with no other occurrence anywhere, is the category: the text's spelling of the first label that fits there |
| Matching.Distinct | main.py:462 | The distinct names have no duplicate and are exactly the names found |
| Matching.DistinctOfCopies | main.py:462-464 | Copies of one name give that one name |
| Matching.Sort | main.py:466 | `sorted` of distinct names is strictly ordered and has the same names |
| Matching.SortedUnique | main.py:466 | Two strictly sorted lists of the same names are equal |
| Matching.Abbrev | main.py:468 | `match[:2].lower().capitalize()`: the first letter upper case, the second lower case; a one-letter name gives that letter upper case |
| Matching.NamePartSingle | main.py:462-464 | One distinct name comes back verbatim, however often it was found |
| Matching.NamePartSeveral | main.py:465-469 | Several distinct names give the abbreviations of any strictly sorted listing of exactly those names, at most two characters each |
| Matching.NamePartOrderIndependent | main.py:461-469 | The tag depends only on which names were found, not on their order or number |
| Matching.NoNamesNoTag | main.py:461-464 | With no configured names the tag is empty |
| Matching.GetNamePart | main.py:450-469 | The method with its loop computes the tag of the names found |
| Matching.NamePart | main.py:450-469 | See `NamePartSingle`, `NamePartSeveral`, `NamePartOrderIndependent` and `NoNamesNoTag`: the one name verbatim, else the sorted abbreviations; empty when nothing was found |
| Voting.CountOfAt | main.py:417 | With distinct keys, looking up an entry's key gives its count |
| Voting.BumpSpec | main.py:417 | Counting a category keeps the keys distinct, adds one to its count, leaves the others, and appends a new key at the end |
| Voting.Bump | main.py:417 | See `BumpSpec`: keys stay distinct, the category gains one, a new key goes at the end |
| Voting.InsertDescSpec | main.py:254 | Inserting into a list sorted by count keeps it sorted and adds only the new entry |
| Voting.SortDescSpec | main.py:254 | The sort by count, largest first, is ordered and a permutation |
| Voting.SortDesc | main.py:254 | See `SortDescSpec`: ordered by count, largest first, and a permutation |
| Voting.AtMostOnce | main.py:254 | With distinct keys no entry appears twice |
| Voting.HighestCountByTwoSpec | main.py:244-263 | The voter returns `k` exactly when `k` is a key that leads every other key by at least two |
| Voting.TieGivesNone | main.py:259-263 | A tie at the top gives no winner |
| Voting.HighestCountByTwo | main.py:244-263 | See `HighestCountByTwoSpec` and `TieGivesNone`: the key leading every other by at least two, else nothing |
| Resolution.Llm.Ask | main.py:472-514 | A call returns the oracle's reply to the prompt at this call's index, and counts one call |
| Resolution.PromptStats.RecordName | main.py:336 | The name counter of the template gains one; nothing else changes |
| Resolution.PromptStats.RecordCategory | main.py:420 | The category counter of the template gains one; nothing else changes |
| Resolution.TemplateOf | main.py:328-329 | Attempt `k` falls in the block of its template; the nine attempts use templates 0 to 2 |
| Resolution.TemplateOfAttempt | main.py:328-329 | Retry `j` of template `idx` is attempt `3 * idx + j` |
| Resolution.AttemptAt | main.py:328-331 | Attempt `i` reads the reply to call `base + i`, sent with its template's prompt |
| Resolution.RunSpec | main.py:328-338 | The loop resolves with the first hit and raises at the first failure, after only misses; it runs out exactly when every attempt misses |
| Resolution.RunCalls | main.py:328-331 | A task makes between one and nine calls |
| Resolution.Run | main.py:328-338 | See `RunSpec` and `RunCalls`: first hit, or the first failure after misses, or exhaustion; one to nine calls |
| Resolution.RetryLoop | main.py:328-338 | The nested loop returns what `Run` of its attempts gives, makes that many calls, and names the template that resolved |
| Resolution.RecordedRetry | main.py:328-338 | The name loop, then one more success for the resolving template and no other counter change |
| Resolution.VoteRunIsFirstHit | main.py:409-421 | With non-empty hits, the vote loop ends where the plain loop does, at the first hit |
| Resolution.TallyRun | main.py:409-421 | See `VoteRunIsFirstHit` and `VoteLoop`: with non-empty hits it ends where `Run` does |
| Resolution.VoteLoop | main.py:409-422 | The vote loop with its tally updated in place returns what `TallyRun` of its attempts gives |
| Resolution.RecordedVote | main.py:409-422 | The vote loop, then one more success for the winning template and no other counter change |
| Resolution.DatedName | main.py:335-337 | A valid candidate, tidied, keeps exactly one dot; dated, it is non-empty, and with a dot-free date it has exactly one dot |
| Resolution.NameStep | main.py:330-337 | An attempt fails exactly on a service failure; it hits exactly when the cleaned answer has a valid candidate; a hit is that candidate, tidied (still holding its dot) and dated, and is non-empty |
| Resolution.NameIsFirstValid | main.py:328-337 | The name task resolves on the first attempt whose reply (to call `base + k`, template `TemplateOf(k)`) has a valid candidate, with that candidate tidied and dated; every earlier reply is an answer with no valid candidate; an exception comes from a failed reply after such answers; exhaustion means all nine answers lacked a candidate; the value is non-empty, with one dot when the date has none |
| Resolution.GetDocumentName | main.py:266-338 | `get_document_name` returns the first valid candidate, tidied and dated, or nothing; it counts calls and the template's success |
| Resolution.CategoryStep | main.py:412-416 | An attempt fails exactly on a service failure; it hits exactly when the category found in the cleaned answer is non-empty, and the hit is that category, a label ignoring case |
| Resolution.CategoryIsFirstLabel | main.py:409-421 | The category task ends as the plain loop does, with a non-empty label, ignoring case |
| Resolution.GetDocumentCategory | main.py:341-422 | `get_document_category` returns what the vote loop gives, with calls and the template's success counted |
| Resolution.FilenameAndCategory | main.py:425-447 | The filename is never empty |
| Resolution.FilenameAndCategoryCases | main.py:438-447 | The four fallback rules, including the forced `Unsicher` when no name was generated |
| Resolution.FallbackNameShape | main.py:441 | The fallback is `Unsicher_`, 1 to 8 digits reading back as the drawn number, and `.pdf`, with one dot |
| Resolution.FallbackName | main.py:441 | See `FallbackNameShape`: `Unsicher_`, the drawn number in digits, `.pdf` |
| Resolution.Truncated | main.py:556 | The text is cut to a prefix of at most 2000 characters |
| Resolution.TruncatedReadsPrefix | main.py:556 | Texts agreeing on their first 2000 characters are the same to the pipeline |
| Resolution.AssembleResult | main.py:555-562 | An exception from either task gives nothing; otherwise the filename is the tag, `_` and the name or fallback, and the category is the task's only when both tasks resolved, else `Unsicher` |
| Resolution.FirstHit | main.py:328-338 | With non-empty hits, the vote loop ends as the plain loop does, and a resolved value comes from the reply at that attempt |
| Resolution.PipelineResult | main.py:555-562 | With readers whose hits are non-empty labels, the result is as in `AssembleResult`; the category is always a label, ignoring case, or `Unsicher` |
| Resolution.Pipeline | main.py:540-562 | See `AssembleResult` and `PipelineResult`: nothing on an exception, else tag, `_`, name or fallback, and a label or `Unsicher` |
| Resolution.NameReaderHits | main.py:334-337 | The name reader's hits are non-empty |
| Resolution.CategoryReaderHits | main.py:415-416 | The category reader's hits are non-empty labels, ignoring case |
| Resolution.RunTasks | main.py:559-562 | The two tasks run in sequence, the second on the calls after the first, then the fallbacks; the result is `Pipeline`. The name counters gain the template of a resolved name. When the name task raised, the category counters are unchanged and only its calls were made; otherwise the category counters gain the template of a resolved category and the calls of both tasks were made |
| Resolution.ProcessDocument | main.py:540-562 | `process_document` after OCR computes `Process` on the truncated text, with the counters and the calls of both tasks as in `RunTasks` |
| Resolution.Process | main.py:540-562 | See `ProcessDocument` and `PipelineResult`: `Pipeline` with the prompts and readers built from the truncated text, and the tag of the first names found in it |

## Left out

- OCR (`ocr_file`, main.py:44-78). The pipeline starts from the OCR text.
- The HTTP request and JSON handling of `ask_infomaniak_ai`. The service is an
  oracle from prompt and call index to a reply, and any exception is one
  `Failure` reply.
- The wording of the prompt templates and how `.format` renders them. A
  prompt is the task, the template index, the text, the context and the
  labels.
- How `.format` treats braces in the extra context. The context is appended
  to each template before formatting (main.py:326, main.py:330), so a context
  holding `{` or `}` may make `.format` raise or substitute a value into the
  prompt. The model does not model this, because rendering is left out.
  `process_document` passes no context.
- `main`, `list_files`, `try_upload`, the archive move, logging, and the
  e-mail, kDrive, statistics and configuration modules. They do I/O or
  orchestrate outside the core.
- The clock and the random draw are parameters: the `%b_%y` date string, and
  the number `random.randint` drew.
- Unicode case folding. `lower`, `capitalize` and `re.IGNORECASE` are
  modelled for ASCII letters only.
- Names and labels holding regular-expression metacharacters. The model
  reads every word literally, so its requirement is `Literals`: every word
  non-empty with no special character (no brace either, so the category
  prompts render). Neither the matching nor the deletion passes are modelled
  for other words.
- An empty string inside a word list. The empty-match behaviour of the
  alternation is not modelled; an empty list is.
- Extract.AppendDate: requires a `.` in the name, where the source raises
  `ValueError`. This cannot happen in the pipeline, since a tidied valid
  candidate keeps its dot (`Normalize.TidiedKeepsDots`).
- Resolution.RetryLoop and Resolution.VoteLoop: the value recorded in
  `prompt_stats` is counted by the caller right after the loop returns
  (`RecordedRetry`, `RecordedVote`). The source counts it just before
  returning; the effect is the same.
- Resolution.PipelineResult: proved for any readers whose hits are non-empty
  labels. `NameReaderHits` and `CategoryReaderHits` supply that for the
  pipeline's own readers.
- Resolution.VoteLoop: the distinct keys of the tally are not an invariant of
  the loop. They are proved about `Bump` (`Voting.BumpSpec`) for the voter's
  lemmas.
