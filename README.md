# E-mail classifier core, modelled in Dafny

The service reads one or more e-mails pasted as text, or read from an
uploaded `.txt` or `.pdf` file. It splits the text into e-mails on the
separator `##### EMAIL #####` and cleans each e-mail. It asks a language
model (Gemini) to label the e-mail `Importante` or `Despresível` and to
suggest a reply, and it extracts the five most frequent stemmed keywords.
This project models that core and proves what it promises:

- **Text.dfy.** The Python string primitives the core is built from:
  `strip`, `split()`, `split(sep)`, `' '.join` and `lower`. The character
  tables behind them are the record `CharTables`: `\w`, the whitespace
  predicate and the per-character lowercase mapping.
- **Nlp.dfy.** `NLPService` of services/nlp_service.py:
  - `split_emails`, `clean_text`, `remove_stopwords`, `apply_stemming`,
    `preprocess_for_analysis` and `extract_keywords`.
  - The stopword set and the RSLP stemmer are fields of the service value.
- **Frequency.dfy.** `Counter(words).most_common(n)`:
  - a stable sort by descending count of the distinct words, listed in
    first-occurrence order;
  - then the first `n` of them.
- **Json.dfy.** The values `json.loads` can return.
- **Gemini.dfy.** `GeminiService` of services/email_service.py:
  - The fence removal `re.sub(r'```json\s*|\s*```', '', text)` is a
    left-to-right scan. The first alternative is tried before the second,
    and `\s*` backtracks in front of the backticks.
  - `_parse_response` models the exceptions it can raise as a `Fault`.
  - `_fallback_parse` models the search for `resposta[:\s]+(.+)`
    (IGNORECASE, DOTALL) as the leftmost match with a greedy separator run.
  - `classify_email` takes the outcome of the remote call as an argument.
- **Pipeline.dfy.** `process_text_input`, an imperative loop that appends
  one record per e-mail. It is proved equal to a function, and the
  properties of every record are proved about that function.
- **Files.dfy.** From utils/file_handler.py: `allowed_file`, and the
  extension dispatch of `extract_text_from_file`.

`split_emails("")` returns `[""]`, so `process_text_input("")` classifies
one empty e-mail; a blank input is turned away only by the web layer
(app.py:81), which is not part of this model.
`Pipeline.BlankInputGivesOneRecord` states this.

Two consequences of the code as written are stated rather than corrected:

- Whitespace in front of ```` ```json ```` lets the second alternative of
  the fence pattern take the backticks. The word `json` then stays in the
  text, as `Gemini.SpaceBeforeOpeningFence` proves. That `json.loads` then
  fails, so that the fallback reads the answer, is Python's behaviour on a
  text starting with `json`; the parser is a parameter here, and this step
  is not proved.
- When the separator run after `resposta` reaches the end of the text and
  holds at least two separators, `[:\s]+` gives the last one back and the
  group `(.+)` takes it. With a single separator at the end there is no
  match at that position (`Gemini.ReplyRunAt`).

## Model

| member | source | states |
|---|---|---|
| Text.StripBlank | services/nlp_service.py:45 | `strip()` gives the empty string exactly when the text is all whitespace, which is what the `if email.strip()` filter tests |
| Text.StripOfClean | services/nlp_service.py:65 | `strip()` leaves a text unchanged when it has no whitespace at either end |
| Text.WordsOfStrip | services/nlp_service.py:65 | stripping keeps the tokens: `s.strip().split() == s.split()` |
| Text.JoinSplitOn | services/nlp_service.py:44 | joining the pieces of `text.split(sep)` with `sep` gives back the text, so no character is lost by the split |
| Text.SplitOn | services/nlp_service.py:44 | `split(sep)` gives one piece exactly when the separator does not occur, no piece contains it, and with several pieces the first ends at the leftmost occurrence; every later cut is stated by `Text.SplitOnCuts` |
| Text.SplitOnCuts | services/nlp_service.py:44 | every piece of `split(sep)` starts one separator after the previous piece ends and runs up to the leftmost separator at or after its start; the last piece has no separator after its start and runs to the end of the text, so the pieces are fixed even for a separator that overlaps itself |
| Text.WordsOfJoin | services/nlp_service.py:79-81 | `str.split()` of the single-space join of tokens gives back the same tokens in order, the round trip between `' '.join` and `split()` |
| Text.Strip | services/nlp_service.py:45 | `strip()` is the slice between the leading and the trailing whitespace, and starts and ends with a non-space character |
| Text.Words | services/nlp_service.py:79 | every piece of `split()` is a non-empty run without whitespace; the round trip is `Text.WordsOfJoin` |
| Text.Lower | services/nlp_service.py:79 | `lower()` has the input's length and lowercases each character by the table |
| Text.Find | services/nlp_service.py:44 | the position found is the leftmost occurrence, and there is one exactly when the text contains the pattern |
| Text.Join | services/nlp_service.py:81 | `' '.join`; what it promises with `split()` is stated by `Text.WordsOfJoin` and `Text.JoinSplitOn` |
| Nlp.SplitWithoutSeparator | services/nlp_service.py:43-46 | without the separator the result is exactly one e-mail, the stripped input; that e-mail is `""` exactly when the input is blank |
| Nlp.SplitWithSeparator | services/nlp_service.py:43-45 | with the separator the text splits into at least two pieces that join back to it; an element is in the result exactly when it is the strip of a piece that is not blank; e-mail `j` is the strip of the `j`th non-blank piece, taken in increasing order of position, so there are exactly as many e-mails as non-blank pieces, in the pieces' order and with their repetitions |
| Nlp.SplitWithSeparatorShape | services/nlp_service.py:43-45 | with the separator every e-mail is non-empty, has no whitespace at either end and contains no separator |
| Nlp.SplitEmails | services/nlp_service.py:43-46 | `split_emails`; its results, with their order and number, are stated by `SplitWithoutSeparator`, `SplitWithSeparator` and `SplitWithSeparatorShape` |
| Nlp.NonBlankPieces | services/nlp_service.py:45 | the comprehension keeps exactly the strips of the pieces that are not blank |
| Nlp.NonBlankPiecesInOrder | services/nlp_service.py:45 | the comprehension's `j`th element is the strip of the `j`th non-blank piece, their positions increase, and there is one element per non-blank piece |
| Nlp.NonEmptyInOrder | services/nlp_service.py:45 | a filter `[x for x in xs if x]` keeps the non-empty elements in their order and with their repetitions: element `j` is the `j`th non-empty one, and the count equals the number of non-empty positions |
| Nlp.PositionsFrom | services/nlp_service.py:45 | the positions of the non-empty elements, strictly increasing and each one of them exactly once |
| Nlp.StripNotContains | services/nlp_service.py:45 | stripping a piece free of the separator cannot create one |
| Nlp.ReplaceNoise | services/nlp_service.py:59 | the replacement keeps the length and, position by position, keeps a character of the kept class and turns any other into a space |
| Nlp.CleanText | services/nlp_service.py:59-67 | `clean_text`; its promises are stated by `CleanTextIsClean`, `CleanTextKeepsWords`, `CleanTextFixedPoint` and `CleanTextIdempotent` |
| Nlp.CollapseSpaces | services/nlp_service.py:62 | `re.sub(r'\s+', ' ', s)` never lengthens the text; its only whitespace is the plain space and never two in a row; it is empty exactly when the input is, and starts with the input's first character, or with a space where the input starts with whitespace |
| Nlp.CollapseKept | services/nlp_service.py:59-62 | collapsing whitespace introduces no character outside the kept class |
| Nlp.CollapseOfCollapsed | services/nlp_service.py:62 | a text with only plain, single spaces is unchanged by the collapse |
| Nlp.CollapseKeepsWords | services/nlp_service.py:62 | collapsing whitespace keeps the tokens: `re.sub(r'\s+', ' ', s).split() == s.split()` |
| Nlp.CleanTextKeepsWords | services/nlp_service.py:59-67 | `clean_text` keeps, in order, every token left by the noise replacement: only whitespace is collapsed or stripped |
| Nlp.CleanTextIsClean | services/nlp_service.py:59-67 | every character of `clean_text`'s output is a word character, whitespace or one of `. , ! ? - : ; ( )`; the only whitespace is `' '`, never two in a row, none at either end; the output is never longer than the input |
| Nlp.StripClean | services/nlp_service.py:65 | stripping a collapsed text of kept characters gives the clean shape and never lengthens it |
| Nlp.CleanTextFixedPoint | services/nlp_service.py:59-67 | a text of that clean shape is left unchanged by `clean_text` |
| Nlp.CleanTextIdempotent | services/nlp_service.py:59-67 | `clean_text(clean_text(x)) == clean_text(x)` |
| Nlp.WithoutStopwords | services/nlp_service.py:80 | the filter keeps exactly the words that are not stopwords and never lengthens the list |
| Nlp.RemoveStopwords | services/nlp_service.py:79-81 | `remove_stopwords`; its tokens are stated by `RemoveStopwordsTokens` |
| Nlp.RemoveStopwordsTokens | services/nlp_service.py:79-81 | the tokens of `remove_stopwords`' output are, in order, the lowercased input tokens that are not stopwords; a token is in the output exactly when it is an input token and not a stopword |
| Nlp.ApplyStemming | services/nlp_service.py:93-95 | `apply_stemming`; its tokens are stated by `ApplyStemmingTokens` |
| Nlp.ApplyStemmingTokens | services/nlp_service.py:93-95 | the tokens of `apply_stemming`'s output are the stems of the lowercased input tokens, one per token, in order |
| Nlp.PreprocessForAnalysis | services/nlp_service.py:107-114 | `preprocess_for_analysis`; its record is stated by `PreprocessForAnalysisSpec` |
| Nlp.PreprocessForAnalysisSpec | services/nlp_service.py:107-114 | the record keeps the original; the cleaned text has the clean shape and is no longer than the input; both derived texts are computed from the cleaned text, one without stopwords and one stemmed |
| Nlp.KeywordCandidates | services/nlp_service.py:128-129 | the words `extract_keywords` counts; stated by `KeywordCandidatesAreStems` |
| Nlp.ExtractKeywords | services/nlp_service.py:128-136 | `extract_keywords`; stated by `ExtractKeywordsSpec` and `KeywordsAreStemsOfContentWords` |
| Nlp.ExtractKeywordsSpec | services/nlp_service.py:128-136 | there are `min(top_n, number of distinct candidates)` keywords (none for `top_n <= 0`), all distinct candidates; counts never increase along the list; equal counts keep first-occurrence order; the last keyword precedes every candidate left out, so a tie at the cut-off goes to the candidate seen first |
| Nlp.WordsLowered | services/nlp_service.py:79 | the tokens of a lowercased text are lowercased |
| Nlp.JoinLowered | services/nlp_service.py:81 | the single-space join of lowercased tokens is lowercased |
| Nlp.ContentWordsLowered | services/nlp_service.py:79-80 | the tokens that survive the stopword filter are lowercased tokens |
| Nlp.KeywordCandidatesAreStems | services/nlp_service.py:128-129 | the words counted are the stems of the lowercased input tokens that are not stopwords, in order |
| Nlp.KeywordsAreStemsOfContentWords | services/nlp_service.py:128-136 | every keyword is the stem of a lowercased input token that is not a stopword |
| Frequency.FirstIndex | services/nlp_service.py:133 | the position found holds the word and no earlier position does |
| Frequency.Distinct | services/nlp_service.py:133 | the keys of the `Counter` are exactly the words of the list, ordered by first occurrence |
| Frequency.DistinctNoDuplicates | services/nlp_service.py:133 | every key of the `Counter` appears once |
| Frequency.Insert | services/nlp_service.py:136 | one insertion step of the sort adds the element and loses none: a permutation |
| Frequency.Rank | services/nlp_service.py:136 | the sort by count is a permutation of the keys |
| Frequency.InsertRanked | services/nlp_service.py:136 | inserting a word that first occurs before every word of a ranked list keeps it ordered by descending count, then by first occurrence |
| Frequency.RankRanked | services/nlp_service.py:136 | the stable sort of keys in first-occurrence order is ordered by descending count, then by first occurrence |
| Frequency.RankDistinct | services/nlp_service.py:136 | the ranking lists every distinct word once, in that order |
| Frequency.Take | services/nlp_service.py:136 | the cut `heapq.nlargest(n, ...)` makes inside `most_common(n)`: `n` elements, all of the list when it is shorter, none for `n <= 0`, and a prefix of the list |
| Frequency.MostCommon | services/nlp_service.py:133-136 | `Counter(words).most_common(n)`, keys only; stated by `MostCommonSpec` |
| Frequency.MostCommonSize | services/nlp_service.py:136 | `most_common(n)` has `min(n, distinct words)` elements, none for `n <= 0`, all distinct words of the list, and all of them when `n` is large enough |
| Frequency.MostCommonOrder | services/nlp_service.py:136 | along `most_common(n)` counts never increase and equal counts keep first-occurrence order; the last entry returned precedes every word left out (a higher count, or the same count and an earlier first occurrence), so a tie at the cut-off goes to the word seen first |
| Frequency.MostCommonSpec | services/nlp_service.py:133-136 | `most_common(n)` keeps all of its promises: `min(n, distinct words)` distinct entries drawn from the list, descending counts with first-occurrence ties, and the last entry preceding every word left out |
| Gemini.FenceAtIsPrefix | services/email_service.py:64 | the character tests for the fence and the opening fence agree with the prefix test on the literals ```` ``` ```` and ```` ```json ```` |
| Gemini.OpeningMatch | services/email_service.py:64 | the first alternative matches exactly where an opening fence starts, and the match covers at least its seven characters |
| Gemini.ClosingFrom | services/email_service.py:64 | the backtracking of `\s*` tries the fence after the whole whitespace run first, then after fewer characters: a fence is found at the latest start that has one, and none is found only when no start up to the run's end has one |
| Gemini.RemoveFences | services/email_service.py:64 | the substitution never lengthens the text |
| Gemini.ClosingFromNone | services/email_service.py:64 | without a backtick in reach, the second alternative finds no fence |
| Gemini.NoFenceAt | services/email_service.py:64 | nothing matches at a character that is not a backtick when no backtick follows the whitespace run starting there |
| Gemini.RemoveFencesNoBacktick | services/email_service.py:64 | an answer without backticks is left unchanged |
| Gemini.RemoveFencesKeeps | services/email_service.py:64 | a backtick-free piece ending in a non-whitespace character passes through unchanged, whatever follows |
| Gemini.RemoveClosingFence | services/email_service.py:64 | a closing fence after nothing but whitespace is deleted together with that whitespace |
| Gemini.RemoveOpeningFence | services/email_service.py:64 | an opening fence is deleted together with the whitespace after it |
| Gemini.UnwrapFencedAnswer | services/email_service.py:64-65 | a body in a ```` ```json ```` fence, with any whitespace around it, is cleaned to exactly the body |
| Gemini.SpaceBeforeOpeningFence | services/email_service.py:64 | whitespace in front of ```` ```json ```` makes the second alternative take the backticks, so `json` stays in the cleaned text |
| Gemini.CleanedAnswer | services/email_service.py:64-65 | the text handed to `json.loads`; stated by `UnwrapFencedAnswer` and `SpaceBeforeOpeningFence` |
| Gemini.NormalisedLabel | services/email_service.py:75-77 | the normalised label is always one of the two labels; a label already valid is kept, any other becomes `Importante` |
| Gemini.Interpret | services/email_service.py:71-82 | a parsed answer gives a verdict exactly when it is a dictionary whose label is a string; the verdict carries one of the two labels and no error |
| Gemini.InterpretFields | services/email_service.py:71-82 | on a dictionary, a verdict exactly when the label is present and a string; the verdict carries one of the two labels and no error |
| Gemini.ParseResponse | services/email_service.py:61-86 | every verdict `_parse_response` returns carries one of the two labels and no error |
| Gemini.ParseResponseFallsBack | services/email_service.py:84-86 | when the cleaned answer is not JSON, the fallback reads the raw answer |
| Gemini.ParseResponseObject | services/email_service.py:64-82 | when the cleaned answer parses to a dictionary with a string label, the result is the verdict `InterpretObject` describes |
| Gemini.ParseResponseFaults | services/email_service.py:71-75 | a missing label raises the `ValueError`; a non-string label fails on `.strip()`; `in` on a number, boolean or null raises; indexing a string or a list that contains the key raises, and one that does not gives the `ValueError` |
| Gemini.ParseFencedAnswer | services/email_service.py:64-82 | the usual fenced answer is read as the value its body parses to |
| Gemini.ReplyWordAtIsCaselessPrefix | services/email_service.py:108 | the per-character test for `resposta` is the case-insensitive prefix test on the word |
| Gemini.SeparatorRun | services/email_service.py:108 | the run of `[:\s]` characters at the start is maximal |
| Gemini.ReplyRunAt | services/email_service.py:108 | the pattern matches at a position with the separator count chosen exactly when some count matches, and that count is the largest one that does (greedy) |
| Gemini.SearchReply | services/email_service.py:108 | `re.search` finds a position where the pattern matches and none before it, or there is no match anywhere |
| Gemini.SearchFindsLeftmost | services/email_service.py:108 | a match with none before it is the one the search finds |
| Gemini.ReplyRunIsGreedy | services/email_service.py:108 | a separator count that matches, with no larger one matching, is the one the pattern keeps |
| Gemini.FallbackParse | services/email_service.py:98-114 | the fallback never reports an error; its label is always valid; it is `Despresível` exactly when the lowercased answer mentions either spelling, and then there is no reply |
| Gemini.FallbackWithoutMatch | services/email_service.py:104-109 | without a mention and without any match, the fallback gives `Importante` and no reply |
| Gemini.FallbackWithMatch | services/email_service.py:104-109 | without a mention, the reply is the stripped text after the word and the longest separator run, at the leftmost match |
| Gemini.ClassifyEmail | services/email_service.py:31-49 | the label is always valid; a failed call gives `Importante`, no reply and the call's error; a successful call gives the parsed verdict when parsing succeeds, and otherwise `Importante`, no reply and the very fault parsing raised |
| Pipeline.ResultForSpec | services/email_service.py:146-164 | each record keeps its e-mail and its cleaned text; its label, reply and error are those of `classify_email` on the answer to the cleaned text; its keywords are `extract_keywords` of the cleaned text, at most five; the label is valid; a record has an error exactly when the call or the parsing failed, and then it is `Importante` with no reply |
| Pipeline.ResultFor | services/email_service.py:148-164 | the record built for one e-mail; stated by `ResultForSpec` |
| Pipeline.MapIndexed | services/email_service.py:145-165 | the loop yields one record per e-mail |
| Pipeline.MapIndexedAt | services/email_service.py:145-165 | record `i` is the record of e-mail `i` at position `i` |
| Pipeline.ProcessAll | services/email_service.py:145-165 | the records of the loop; stated by `ProcessAllSpec` |
| Pipeline.ProcessAllSpec | services/email_service.py:142-166 | `process_text_input` returns one record per e-mail, in order; record `i` holds e-mail `i`, its cleaned text, the verdict of `classify_email` on answer `i` and the keywords of the cleaned text, with the properties of `ResultForSpec` |
| Pipeline.BlankInputGivesOneRecord | services/email_service.py:142-166 | a blank input without separator still yields one record, for the empty e-mail |
| Pipeline.ProcessEmails | services/email_service.py:145-166 | the loop returns exactly the records of `ProcessAll`: one per e-mail, in order |
| Pipeline.ProcessTextInput | services/email_service.py:142-166 | `process_text_input` returns the records of the e-mails of `split_emails`, in order |
| Files.LastDot | utils/file_handler.py:26 | the cut of `rsplit('.', 1)` is at a dot with no dot after it; there is none exactly when the name has no dot |
| Files.DotIn | utils/file_handler.py:25 | the test `'.' in filename` holds exactly when there is a last dot |
| Files.Extension | utils/file_handler.py:80 | there is no extension (the `IndexError`) exactly when the name has no dot |
| Files.LastDotBeforeFinalPart | utils/file_handler.py:26 | in a name ending with a dot and a dot-free part, the cut is at that dot |
| Files.LastDotUnique | utils/file_handler.py:26 | a dot with no dot after it is where `rsplit` cuts |
| Files.ExtensionIsFinalPart | utils/file_handler.py:80 | the extension is the lowercased text after the last dot, whatever comes before |
| Files.AllowedFileFinalExtension | utils/file_handler.py:25-26 | a name ending with a dot and a dot-free part is accepted exactly when that part, lowercased, is `txt` or `pdf` |
| Files.AllowedFileIff | utils/file_handler.py:25-26 | a name is accepted exactly when it has a dot, with no dot after it, followed by text whose lowercase is an allowed extension |
| Files.AllowedFileHasFinalPart | utils/file_handler.py:25-26 | in an accepted name the last dot is followed by dot-free text whose lowercase is an allowed extension |
| Files.FinalPartAllowsFile | utils/file_handler.py:25-26 | a dot followed by dot-free text whose lowercase is an allowed extension makes the name accepted |
| Files.AllowedFileNeedsDot | utils/file_handler.py:25 | a name without a dot is rejected |
| Files.AllowedFile | utils/file_handler.py:25-26 | `allowed_file`; stated by `AllowedFileIff`, `AllowedFileFinalExtension` and `AllowedFileNeedsDot` |
| Files.AcceptsTarPdf | utils/file_handler.py:25-26 | `a.tar.PDF` is accepted |
| Files.RejectsPdfExe | utils/file_handler.py:25-26 | `a.pdf.exe` is rejected |
| Files.ChooseReader | utils/file_handler.py:80-87 | the `IndexError` is raised exactly when the name has no dot; the PDF reader is chosen exactly for extension `pdf` and the text reader exactly for `txt` |
| Files.ExtractTextFromFile | utils/file_handler.py:80-87 | `extract_text_from_file`; stated by `ExtractDispatch` and `AllowedFileHasReader` |
| Files.ExtractDispatch | utils/file_handler.py:80-87 | the text comes from the PDF reader for `pdf` and from the text reader for `txt`; any other extension gives `None`, and a name without a dot the `IndexError` |
| Files.AllowedFileHasReader | utils/file_handler.py:80-87 | a name `allowed_file` accepts always reaches one of the two readers, never the final `else` or the `IndexError` |

## Left out

- The remote call. `genai.configure`, `GenerativeModel`, the prompt, its
  `str.format` and `generate_content` do network I/O. `classify_email`
  gets the outcome of the call as an argument: the answer text, or the
  message of the exception raised.
- `process_text_input` gets the remote call as a function of the e-mail's
  position and its cleaned text, so that two calls may answer differently.
  The order of the calls is the order of the loop; the timing is not
  modelled.
- `json.loads` is the `parse` field of the service, where `None` is the
  `JSONDecodeError`. JSON numbers are reals, and NaN and Infinity are not
  modelled.
- Python's Unicode tables are not reproduced. `\w`, the whitespace
  predicate (`\s`, `isspace`, `split()`, `strip()`) and lowercasing are
  fields of `CharTables`, and each lemma requires only the facts about
  them that it uses. The one whitespace table matches Python, whose
  `\s`, `isspace`, `split()` and `strip()` use the same predicate. Two
  things follow from modelling the tables as parameters:
  - `lower()` is one character to one character, so the characters whose
    lowercase is two characters are not modelled;
  - IGNORECASE is modelled as equality after `lower`, so Python's extra
    case folds are not modelled.
- The stopword corpus and the RSLP stemmer are parameters. Stemming is
  assumed to map tokens to tokens wherever a lemma needs it.
- The text of each exception (`str(e)`) is a `Fault` constructor. The
  printed log lines are left out.
- `extract_text_from_pdf` and `extract_text_from_txt` do file I/O and use
  PyPDF2. They are the parameters `readPdf` and `readTxt`.
- `secure_filename`, the Flask routes and request handling of app.py,
  setup_nltk.py, `_ensure_nltk_resources`, the configuration loading of
  config/settings.py, and static/js/main.js are not part of this model.
  Only the constants `ALLOWED_EXTENSIONS` and `EMAIL_SEPARATOR` are kept.
