# yt-video-summary in Dafny

A verified model of the text-processing core of `yt-video-summary.py`. The
script downloads the English caption track of a YouTube video, cleans it,
flattens it into one paragraph, and cuts that into fixed-size chunks. It asks a
language-model service for a summary of each chunk, joins the summaries with
single spaces, and asks the service once more for a brief summary of the
result. Every reply adds its reported token count to a global `total_tokens`.

The model has six modules:

- `Seqs` holds generic sequence facts: `Filter`, the `Sublist` order relation and slice lemmas.
- `Text` holds the Python `str` operations the script uses: `isspace`, `strip`, `split`, `join`, `replace`, and `re.sub(c + "+", c, ·)` as `Squeeze`.
- `Captions` holds the caption cleaning of `download_youtube_subtitle` (lines 41-51):
  - tag removal (`StripTags`);
  - removal of cue-timing lines (`DropCueLines`);
  - removal of blank lines (`KeptLines`);
  - the loop that writes every line followed by a newline (`CleanSubtitle`, specified by `CleanedText`).
- `Flattening` holds the four substitutions at the start of `summarize_file` (`Flatten`).
- `Chunking` holds `chunk_text`, a loop over `range(0, len(text), chunk_size)` (`ChunkText`, specified by `Chunks`).
- `Summarizer` holds a class `Session`. Its mutable field `totalTokens` is the global counter. A ghost log records every request sent. The methods are `SummarizeChunk`, `RewriteText`, `SummarizeChunks` (the loop of `summarize_file`) and `SummarizeFile`.

The service is the class constant `service: string -> Reply`. It maps the user
message of a request to the reply's content and its `usage.total_tokens`.
`textwrap.fill(·, width=80)` is the parameter `fill` of `SummarizeFile`.

Regular expressions are modelled through what each pattern matches, given that
Python's `.` never matches a newline:

- `<.*?>` matches from a `<` to the first `>` on the same line. A `<` with no later `>` on its line is kept.
- In `.*align:start position:.*\n`, neither `.*` can cross a newline, and the pattern ends with one. So every match is one whole line that holds the marker, together with its newline. A final line without a newline is never removed.

The model follows the code as written:

- A chunk size of 0 makes `range` raise `ValueError` inside `chunk_text`. The model returns `RangeStepZero` before any request is made.
- A negative chunk size is not rejected. `range` is then empty, so there are no chunks, no summary requests and one rewrite of the empty string.
- The script removes no duplicate lines. A caption line that repeats is kept, and reaches the chunks, as often as it occurs.

## Model

| member | source | states |
|---|---|---|
| Captions.TagClose | yt-video-summary.py:41 | after a `<`, the index of the first `>` before the end of the line, or nothing when the line has no `>` |
| Captions.StripTags | yt-video-summary.py:41 | at a `<` with a `>` later on its line, deletes through the first such `>`; every other character is kept |
| Captions.TagCloseFirst | yt-video-summary.py:41 | after a `<`, the lazy `.*?>` closes exactly when the rest of the line holds a `>`, and then at the first such `>` |
| Captions.StripTagsTagFree | yt-video-summary.py:41 | after tag removal, no line holds a `<` followed later on the same line by a `>` |
| Captions.StripTagsSublist | yt-video-summary.py:41 | tag removal only deletes characters; the characters it keeps stay in their original order |
| Captions.TagDeleted | yt-video-summary.py:41 | a `<`, a stretch of the line without `>`, and the `>` that ends it are deleted together, and removal goes on after them |
| Captions.TagKept | yt-video-summary.py:41 | a `<` with no `>` later on its line is kept, and removal goes on after it |
| Captions.StripTagsPlain | yt-video-summary.py:41 | text without `<` passes through tag removal unchanged, whatever follows it |
| Captions.StripTagsKeepsLine | yt-video-summary.py:41 | a line without `>` loses nothing to tag removal |
| Captions.StripTagsFixpoint | yt-video-summary.py:41 | tag removal leaves a text unchanged exactly when the text is tag-free |
| Captions.StripTagsIdempotent | yt-video-summary.py:41 | removing tags a second time changes nothing |
| Captions.StripTagsNewline | yt-video-summary.py:41 | a tag never spans a newline: the text before and the text after a newline are cleaned independently |
| Captions.StripTagsByLine | yt-video-summary.py:41 | the cleaned text has as many lines as the input, and each line is the same line of the input with its tags removed |
| Captions.DropCueLines | yt-video-summary.py:42 | deletes every newline-terminated line that holds `align:start position:`, with its newline; keeps every other line and the unterminated last piece |
| Captions.DropCueLinesByLine | yt-video-summary.py:42 | the lines after cue removal are the newline-terminated lines without `align:start position:`, unchanged and in order, followed by the unterminated last piece |
| Captions.KeptLines | yt-video-summary.py:45 | the lines of the text after tag and cue removal, in order, whose strip is non-empty |
| Captions.KeptLinesMembers | yt-video-summary.py:45 | a line is kept exactly when it is a line of the text and its strip is non-empty; kept lines are in their original order and contain no newline |
| Captions.CleanedText | yt-video-summary.py:45-51 | every line of the newline-joined kept lines, each followed by a newline |
| Captions.CleanedTextShape | yt-video-summary.py:45-51 | when no line is kept the result is exactly `"\n"`; otherwise it is each kept line followed by `"\n"`, its lines are the kept lines, and nothing follows the last newline; the result is `"\n"` exactly when no line is kept |
| Captions.CleanedTextNoBlank | yt-video-summary.py:45-51 | when some line is kept, no line of the cleaned text before its final newline consists only of whitespace |
| Captions.CleanSubtitle | yt-video-summary.py:41-51 | the three substitutions and the writing loop produce `CleanedText` of the raw caption text |
| Text.IsSpace | yt-video-summary.py:45 | the characters Python's `str.isspace()` accepts, which `strip()` removes |
| Text.TrimLeft | yt-video-summary.py:108 | `lstrip()`: drops whitespace from the start, never lengthening the string |
| Text.TrimRight | yt-video-summary.py:108 | `rstrip()`: drops whitespace from the end, never lengthening the string |
| Text.Strip | yt-video-summary.py:81 | `strip()`: never longer than its input, and neither end of the result is whitespace |
| Text.StripBlank | yt-video-summary.py:45 | `line.strip()` is empty exactly when the line is all whitespace |
| Text.StripFixpoint | yt-video-summary.py:108 | `strip()` leaves a string unchanged exactly when neither end is whitespace |
| Text.StripSlice | yt-video-summary.py:108 | `strip()` returns a slice of its input, and only whitespace lies outside that slice |
| Text.Split | yt-video-summary.py:45 | `split(d)` for one character: the pieces between the separators, one more piece than there are separators |
| Text.Join | yt-video-summary.py:120 | `sep.join(ls)`: the pieces in order with `sep` between neighbours, the empty string for no pieces |
| Text.JoinSplit | yt-video-summary.py:45 | joining the pieces of `s.split(d)` with `d` gives back `s` |
| Text.SplitJoin | yt-video-summary.py:45-49 | splitting a join of separator-free pieces gives back the pieces |
| Text.Replace | yt-video-summary.py:106 | each occurrence of the character replaced by the given text; the character cannot survive when the text lacks it |
| Text.ReplaceIsJoinSplit | yt-video-summary.py:106 | replacing each `\n` by `". "` is the same as joining the lines with `". "` |
| Text.Squeeze | yt-video-summary.py:105-107 | `re.sub(c + "+", c, ·)`: every run of `c` becomes one `c`; the result starts like the input and has no two adjacent copies of `c` |
| Text.SqueezeRun | yt-video-summary.py:105-107 | a run of two `c` squeezes to the same result as a single `c` in its place |
| Text.SqueezeFixpoint | yt-video-summary.py:105-107 | collapsing runs of a character leaves a string unchanged exactly when no two copies of it are adjacent |
| Text.SqueezeKeeps | yt-video-summary.py:105-107 | collapsing runs of a character keeps every other character, in order |
| Flattening.Flatten | yt-video-summary.py:105-108 | the four substitutions in the order the script applies them |
| Flattening.FlattenIsFlat | yt-video-summary.py:105-108 | the flattened text has no newline, no two spaces in a row and no whitespace at either end |
| Flattening.FlatFixpoint | yt-video-summary.py:105-108 | flattening leaves a text unchanged exactly when it already has those three properties |
| Flattening.FlattenIdempotent | yt-video-summary.py:105-108 | applying the four substitutions again to their result changes nothing |
| Flattening.FlattenKeepsWords | yt-video-summary.py:105-108 | every character that is neither whitespace nor `.` survives flattening, in its original order |
| Chunking.Chunks | yt-video-summary.py:60-64 | the first `size` characters, or all when fewer remain, then the chunks of the rest; no chunks for the empty text |
| Chunking.ChunksConcat | yt-video-summary.py:60-64 | the chunks, concatenated in order, are the text exactly |
| Chunking.ChunkLength | yt-video-summary.py:62-63 | every chunk is non-empty and at most `chunk_size` long; every chunk but the last is exactly `chunk_size` long |
| Chunking.ChunksSizes | yt-video-summary.py:62-63 | the same length bounds, for all chunks at once |
| Chunking.ChunksCount | yt-video-summary.py:62 | there are ceil(len(text) / chunk_size) chunks, so none for an empty text |
| Chunking.ChunksAt | yt-video-summary.py:62-63 | chunk `k` is the slice `text[k*chunk_size : k*chunk_size + chunk_size]`, and its offset is inside the text |
| Chunking.TwentyFiveByTen | yt-video-summary.py:60-64 | a 25-character text cut at 10 gives the three slices `[0:10]`, `[10:20]` and `[20:25]` |
| Chunking.ChunkText | yt-video-summary.py:60-64 | for a positive size the loop returns `Chunks(text, size)`; for a negative size it returns no chunks; for zero it fails with the `range` error |
| Summarizer.RewritePrompt | yt-video-summary.py:92 | the rewrite request's user message: the fixed request line, the text, and a newline |
| Summarizer.TokensUsed | yt-video-summary.py:80 | the sum of the token counts the service reports for a run of requests |
| Summarizer.TokensUsedConcat | yt-video-summary.py:80 | the tokens of two consecutive runs of requests add up |
| Summarizer.ChunkRequests | yt-video-summary.py:115-116 | the requests of the loop: chunk `i` sent with count `i + 1`, in chunk order |
| Summarizer.ChunkRequestsAt | yt-video-summary.py:114-121 | `summarize_file` makes `k + 1` requests: summaries of chunks 1 to `k` in chunk order, numbered 1 to `k`, then exactly one rewrite |
| Summarizer.Summaries | yt-video-summary.py:114-117 | the stripped replies to the chunks, in chunk order |
| Summarizer.SummariesAt | yt-video-summary.py:114-117 | there is one summary per chunk, and summary `i` is the stripped reply to chunk `i` |
| Summarizer.Session.constructor | yt-video-summary.py:14 | the counter starts at 0 with no request made |
| Summarizer.Session.SummarizeChunk | yt-video-summary.py:67-81 | sends the chunk as the user message, adds the reported tokens to the counter, logs one request, and returns the stripped reply |
| Summarizer.Session.RewriteText | yt-video-summary.py:84-99 | sends the rewrite prompt around the text, adds the reported tokens to the counter, logs one request, and returns the stripped reply |
| Summarizer.Session.SummarizeChunks | yt-video-summary.py:114-117 | makes one request per chunk, in order, numbered from 1; returns the summaries in chunk order; the counter stays equal to the sum of the tokens of all logged requests |
| Summarizer.Session.SummarizeFile | yt-video-summary.py:102-125 | for size 0 nothing is requested and the error is returned; otherwise the log grows by the chunk requests and one rewrite of the space-joined summaries, the counter grows by exactly their tokens, and the result is the stripped, wrapped, stripped rewrite |

## Left out

- The yt_dlp calls, reading and deleting `output.srt.en.vtt`, and the `io.StringIO` buffer (lines 30-38, 48, 54, 57): these are I/O and an external library. The model starts from the downloaded text and yields the string the buffer would hold.
- The title returned with the cleaned text (line 33): it comes from yt_dlp metadata.
- `openai.ChatCompletion.create` and the extraction of content and token count (lines 70-79, 87-97): this is a network call to a foreign service. It is modelled as the function `service`, which makes the service deterministic in the user message. The model name, the empty system message and the temperature are not modelled.
- `textwrap.fill(·, width=80)` (line 122): its algorithm belongs to the Python library. It is the parameter `fill`.
- `get_openai_api_cost` (lines 127-130): floating-point multiplication.
- `main`, argparse, the environment lookup of the API key, and every `print` (lines 11, 69, 86, 134-153): command-line and console glue.
- Captions.DropCueLines: general regular-expression matching is not modelled. The function implements the line-wise behaviour that the pattern has, for the reason given above.
- Text.IsSpace: it uses the whitespace set of Python's `str.isspace()`, as code points. Python's `str.strip()` removes exactly this set.
