# video_summarizer string core, in Dafny

This project models the string and sequence helpers of the YouTube transcript
pipeline, and proves properties about them. The helpers turn a URL and a
fetched transcript into a summary file.

- **Video identifier extraction.** There are two variants:
  - The three-pattern `re.search` loop of the translate pipeline. It is in
    `Youtube_transcript_translate.py`, with an identical copy in
    `Youtube_transcript_translate_old.py`.
  - The strip / `v=`|`youtu.be/` / any-eleven-characters function of
    `Youtube_transcript.py`, with an identical copy in
    `archive/Youtube_transcript.py`.
- **The file-name-safe title.** The sanitiser
  `re.sub('[<>:"/\\|?*]','',t).strip()[:100]`, and both versions of
  `get_video_title` around it. The oEmbed answer and the scraped page groups
  are parameters.
- **`translate_transcript`.** Segments are cut into batches of ten, and each
  batch's texts are joined with `" "`. The translator is a parameter that
  answers a translation or None (a failed call). The answer is split on
  `". "` and written back piece by piece.
- **`format_transcript`.** The segment texts are space-joined, and a missing
  text reads as `""`.
- **`summarize_basic`.** The text is cut at runs of `.!?`, the pieces are
  stripped, and those longer than 20 characters are kept. At most ten are
  used: the first three, the middle four and the last three. Each version
  wraps them in its own header and footer.
- **`save_transcript`.** Its file name, plus a `TextFile` object whose
  content grows with each `write`. The clock is passed in as the two stamp
  strings.

Modules and files:

| Module | File |
|---|---|
| `Wrappers` (Option) | `wrappers.dfy` |
| `PyText` (Python `str` builtins) | `pytext.dfy` |
| `VideoId` | `video_id.dfy` |
| `LooseVideoId` | `loose_video_id.dfy` |
| `Title` | `title.dfy` |
| `Transcript` | `transcript.dfy` |
| `Translation` | `translate.dfy` |
| `Summary` | `summary.dfy` |
| `Output` | `output.dfy` |

How the Python code maps to Dafny:

- Code that loops or appends in the source is written as methods with loops:
  - the pattern loops of `extract_video_id` and `get_video_title`;
  - the batch and item loops of `translate_transcript`;
  - the append loop of `format_transcript`;
  - the sequential writes of `save_transcript`.
- Each such method is proved against a specification function.
- Expression-only code is written as functions: the sanitiser, the loose
  extractor and `summarize_basic`.
- The Python builtins used are modelled with the source's own semantics:
  - `str.strip` with Python's whitespace set;
  - `str.split` with a separator (left to right, no overlaps, at least one
    piece);
  - `sep.join`;
  - `str.replace(pat, '')`;
  - `re.split('[.!?]+')`;
  - posix `os.path.join`;
  - the f-string rendering of a bool.
- Each `re.search` is modelled as "the left-most position where the pattern
  matches". The pattern itself is a character-level predicate.
  - `$` matches at the end, or before a final newline.
  - The trailing `.*` of the first pattern never constrains the match.

## Model

| member | source | states |
|---|---|---|
| `PyText.Strip` | Youtube_transcript.py:27 | `str.strip()` never lengthens, and a non-empty result neither starts nor ends in whitespace |
| `PyText.StripSlice` | Youtube_transcript_translate.py:47 | what strip keeps is one contiguous slice of the input, with only whitespace cut off on either side |
| `PyText.StripPadded` | Youtube_transcript.py:27 | whitespace added around a string does not change its strip |
| `PyText.StripLeftPadded` | Youtube_transcript.py:27 | leading whitespace does not change a strip |
| `PyText.StripRightPadded` | archive/Youtube_transcript.py:27 | trailing whitespace does not change a strip |
| `PyText.StripEmptyIff` | Youtube_transcript_translate.py:48 | strip gives `""` exactly when the input is all whitespace |
| `PyText.JoinSplit` | Youtube_transcript_translate.py:80 | joining the pieces of `s.split(sep)` with `sep` gives back `s` |
| `PyText.Split` | Youtube_transcript_translate.py:80 | `str.split(sep)` gives at least one piece |
| `PyText.SplitJoin` | Youtube_transcript_translate_old.py:166 | splitting `sep.join(xs)` on `sep` gives back `xs` when no piece contains `sep`, even with all but the last character of `sep` appended to it |
| `PyText.SplitWithoutSep` | Youtube_transcript_translate_old.py:166 | a string without the separator splits into itself alone |
| `PyText.SplitPiecesFree` | Youtube_transcript_translate.py:80 | no piece of a split contains the separator |
| `PyText.JoinSnoc` | Youtube_transcript_translate.py:99 | appending a piece to a non-empty list appends the separator and the piece to the join |
| `PyText.JoinLength` | Youtube_transcript_translate_old.py:201 | the join's length is the sum of the pieces plus one separator between each pair |
| `PyText.RemoveAll` | Youtube_transcript_translate.py:47 | `replace(pat, '')` never lengthens |
| `PyText.RemoveAllJoinsSplit` | Youtube_transcript_translate.py:47 | `s.replace(pat, '')` equals `''.join(s.split(pat))`: exactly the occurrences found by the split are deleted |
| `PyText.RemoveAllWithout` | Youtube_transcript_translate_old.py:68 | `replace(pat, '')` leaves a string without `pat` unchanged |
| `VideoId.MatchAt` | Youtube_transcript_translate.py:9-13 | a pattern match at `p` places group 1 at or after `p`, on eleven `[0-9A-Za-z_-]` characters |
| `VideoId.Search` | Youtube_transcript_translate.py:15 | `re.search` gives the left-most matching position: it matches there, and at no earlier position |
| `VideoId.Group` | Youtube_transcript_translate.py:15-17 | a found group is the 11-character identifier at the left-most position where the pattern matches, with no match before it; None exactly when the pattern matches nowhere |
| `VideoId.FirstMatch` | Youtube_transcript_translate_old.py:24-28 | a result is an identifier taken from the input, and the result is None exactly when no pattern has a group |
| `VideoId.FirstMatchDecides` | Youtube_transcript_translate.py:14-17 | when pattern `k` has a group and no earlier pattern has one, the result is pattern `k`'s group |
| `VideoId.ExtractVideoId` | Youtube_transcript_translate.py:8-18 | the pattern loop with early return yields the first matching pattern's group; a result is an 11-character identifier and the input has at least 11 characters |
| `VideoId.EmbedMatchIsSlashMatch` | Youtube_transcript_translate.py:10-11 | every `embed/` match is a `/` match of the first pattern five characters on, with the same group |
| `VideoId.EmbedNeverDecides` | Youtube_transcript_translate.py:9-17 | dropping the `embed/` pattern never changes the result |
| `VideoId.BareIdReturned` | Youtube_transcript_translate_old.py:18-27 | a bare identifier, alone or followed by one newline, is returned unchanged |
| `VideoId.ShortInputNoId` | Youtube_transcript_translate.py:10-12 | input shorter than 11 characters yields None |
| `VideoId.WatchUrlYieldsId` | Youtube_transcript_translate.py:10 | `https://www.youtube.com/watch?v=<id>` yields `<id>` |
| `VideoId.ShortLinkYieldsId` | Youtube_transcript_translate_old.py:19 | `https://youtu.be/<id>` yields `<id>` |
| `VideoId.EmbedUrlYieldsId` | Youtube_transcript_translate.py:10-11 | an embed URL yields its identifier, already through the first pattern |
| `LooseVideoId.MatchAt` | Youtube_transcript.py:29 | a `v=` or `youtu.be/` match places the group after the match start, on eleven identifier characters |
| `LooseVideoId.Search` | archive/Youtube_transcript.py:29 | the left-most position of a `v=`/`youtu.be/` match, and no match before it |
| `LooseVideoId.ExtractVideoId` | Youtube_transcript.py:22-35 | after strip, the left-most URL match gives its token; otherwise any 11-character input is returned as it is; otherwise None; every result has length 11 |
| `LooseVideoId.SurroundingSpaceIgnored` | archive/Youtube_transcript.py:27 | whitespace around the input never changes the result |
| `LooseVideoId.LeftmostUrlMatch` | Youtube_transcript.py:29-31 | the token after the left-most `v=` or `youtu.be/` match is returned |
| `LooseVideoId.NoUrlMatch` | archive/Youtube_transcript.py:29 | a string with no `=` and no `youtu.be/`-token has no URL match |
| `LooseVideoId.AnyElevenCharactersAccepted` | Youtube_transcript.py:32-33 | any stripped 11-character input is returned unchanged, whatever its characters: eleven characters are too few for a URL match, so `hello world` and `hello=world` come back as they are |
| `LooseVideoId.ShortInputNoId` | archive/Youtube_transcript.py:32-35 | a stripped input shorter than 11 characters gives None |
| `LooseVideoId.EmbedUrlNotRecognised` | Youtube_transcript.py:29-35 | an `embed/` URL gives None here |
| `LooseVideoId.SlashUrlNotRecognised` | archive/Youtube_transcript.py:29-35 | a bare `/<id>` URL gives None here |
| `Title.RemoveForbidden` | Youtube_transcript_translate_old.py:75 | `re.sub('[<>:"/\\|?*]', '', s)` leaves none of those characters and never lengthens; with `RemoveForbiddenDeletes`, `RemoveForbiddenAppend` and `RemoveForbiddenClean` its value is fixed on every input |
| `Title.RemoveForbiddenDeletes` | Youtube_transcript_translate.py:27 | a forbidden character is deleted, not replaced: it becomes the empty string |
| `Title.RemoveForbiddenJoinsSides` | Youtube_transcript_translate_old.py:75 | a forbidden character between two parts vanishes and the parts are joined directly, so `a:b` becomes `ab` |
| `Title.RemoveForbiddenAppend` | Youtube_transcript_translate_old.py:41 | the removal distributes over concatenation |
| `Title.RemoveForbiddenClean` | Youtube_transcript_translate.py:48 | a string without forbidden characters is left unchanged |
| `Title.ScrapedTitle` | Youtube_transcript_translate.py:47 | `.replace(' - YouTube', '').strip()` never lengthens, leaves no whitespace at either end, and equals the strip of `''.join(group.split(' - YouTube'))` |
| `Title.Sanitize` | Youtube_transcript_translate.py:27 | the sanitised title has no forbidden character, at most 100 characters, and no leading whitespace |
| `Title.SanitizeKeepsCleanTitle` | Youtube_transcript_translate.py:48 | a clean, unpadded title of at most 100 characters is kept as it is |
| `Title.SanitizeLong` | Youtube_transcript_translate.py:27 | a clean, unpadded title longer than 100 characters is cut to its first 100 |
| `Title.SanitizeEmptyIff` | Youtube_transcript_translate_old.py:42-43 | the sanitised title is empty exactly when the input has only forbidden characters and whitespace |
| `Title.TruncationLeavesTrailingSpace` | Youtube_transcript_translate_old.py:76 | cutting after the strip can leave trailing whitespace, so a second sanitising changes the result |
| `Title.ScanPage` | Youtube_transcript_translate.py:44-48 | the first page pattern that matched gives the sanitised scraped title; with no match, None |
| `Title.GetVideoTitle` | Youtube_transcript_translate.py:20-51 | a non-empty oEmbed title is sanitised and returned, even when it sanitises to `""`; otherwise the first scraped match; otherwise `video_<id>` |
| `Title.ScanPageOld` | Youtube_transcript_translate_old.py:63-78 | a scraped title that sanitises to `""` lets the loop try the next pattern; the result is the first usable pattern, or None when none is usable |
| `Title.AcceptsGroup` | Youtube_transcript_translate_old.py:65-77 | one pattern of the older loop is usable exactly when it matched and its scraped title sanitises to a non-empty string |
| `Title.GetVideoTitleOld` | Youtube_transcript_translate_old.py:30-83 | the title is never empty; an oEmbed title sanitising to `""` becomes `video_<id>`; otherwise the first usable scraped title; otherwise `video_<id>` |
| `Transcript.FormatTranscript` | Youtube_transcript_translate.py:92-99 | the loop's result is the texts in input order, joined by single spaces, with a missing text as `""`; an empty transcript gives `""` |
| `Transcript.FormatAppend` | Youtube_transcript_translate_old.py:194-201 | one more segment appends a space and its text |
| `Transcript.FormatLength` | Youtube_transcript_translate.py:99 | the length is the sum of the texts plus one space between neighbours |
| `Transcript.FormatSplitRoundTrip` | Youtube_transcript_translate_old.py:201 | when no text contains a space, splitting the result on `" "` gives back the texts |
| `Translation.CollectTexts` | Youtube_transcript_translate.py:73 | the batch's texts in order, or None exactly when a segment of the batch has no `text` |
| `Translation.RealignBatch` | Youtube_transcript_translate.py:72-87 | the batch comes back with every segment's text replaced by piece `j` of the split answer, or by its own text when there are fewer pieces |
| `Translation.RealignOne` | Youtube_transcript_translate.py:81-87 | segment `j` of a batch gets piece `j` of the answer, or its own text when the pieces have run out, with every other field copied |
| `Translation.RealignedTextFromAnswer` | Youtube_transcript_translate_old.py:166-172 | a realigned text is the segment's own text or a piece of the answer without `". "`, and it is the own text whenever the answer has too few pieces |
| `Translation.RealignBatches` | Youtube_transcript_translate.py:71-87 | None exactly when some segment has no text; otherwise the same number of segments, in order, every field but `text` copied, and each text the realigned one |
| `Translation.TranslateTranscript` | Youtube_transcript_translate.py:65-90 | `en`/`unknown` return the input with False; a missing text raises; otherwise the realigned segments with True, even when every call failed |
| `Translation.TranslateTranscriptOld` | Youtube_transcript_translate_old.py:135-187 | as the current version, but a missing text returns the input with False |
| `Translation.FailedBatchUnsplit` | Youtube_transcript_translate.py:76-86 | for a failed call whose joined batch has no `". "`, the first segment gets the whole joined batch and the others keep their text |
| `Translation.SentencePerSegmentAligns` | Youtube_transcript_translate_old.py:159-174 | a translator answering one `". "`-free sentence per segment, joined with `". "`, puts each sentence on its own segment |
| `Translation.SentencesSplitBack` | Youtube_transcript_translate.py:80 | sentences free of `". "` joined with `". "` split back into the same sentences |
| `Translation.FailureRepeatsText` | Youtube_transcript_translate_old.py:161-174 | two segments `a`, `b` with a failed call come back as `a b` and `b`, so the original is not kept |
| `Translation.IntendedRealignment` | Youtube_transcript_translate_old.py:162-163 | the corrected re-alignment, where a failed call keeps the batch's original texts; it keeps the number of segments |
| `Translation.IntendedFailureKeepsTranscript` | Youtube_transcript_translate_old.py:158-163 | with the corrected loop, a translator that always fails leaves the transcript unchanged |
| `Translation.IntendedAgreesOnSuccess` | Youtube_transcript_translate.py:76-87 | where every call succeeds, the corrected and the written loops agree |
| `Summary.SplitSentences` | Youtube_transcript_translate.py:102 | `re.split('[.!?]+')` gives at least one piece, and no piece holds a terminator |
| `Summary.SplitSentencesCutsAtRuns` | Youtube_transcript_translate.py:102 | joining the pieces with `.` gives the text with each maximal run of `.!?` written as a single `.`, so the cuts fall exactly at those runs |
| `Summary.SplitSentencesAsStrSplit` | Youtube_transcript_translate_old.py:205 | the sentence split equals `str.split('.')` of the text with its runs of terminators collapsed |
| `Summary.SplitSentencesKeepsLetters` | Youtube_transcript_translate_old.py:205 | the pieces put together are the text without its terminators |
| `Summary.NoTerminatorOneSentence` | Youtube_transcript_translate.py:102 | a text without terminators is one sentence |
| `Summary.KeepLongMembers` | Youtube_transcript_translate_old.py:206 | exactly the stripped pieces longer than 20 characters are kept, each without terminators or surrounding whitespace |
| `Summary.KeepLong` | Youtube_transcript_translate.py:103 | the comprehension keeps at most as many sentences as it is given; with `KeepLongSingle` and `KeepLongAppend` its value is fixed piece by piece |
| `Summary.KeepLongSingle` | Youtube_transcript_translate.py:103 | one piece is kept, stripped, exactly when its strip is longer than 20 characters |
| `Summary.KeepLongAppend` | Youtube_transcript_translate_old.py:206 | the sentences kept from `a + b` are those kept from `a` followed by those kept from `b`, so text order and repeated sentences are preserved |
| `Summary.CandidatesOf` | Youtube_transcript_translate.py:103 | the kept sentences of a text are its stripped pieces longer than 20 characters |
| `Summary.SelectKey` | Youtube_transcript_translate.py:105-108 | up to ten sentences are all kept in order; beyond that exactly ten, the one at position `i` being sentence `KeyIndex(total, i)` |
| `Summary.KeyIndicesIncrease` | Youtube_transcript_translate_old.py:212-217 | for more than ten sentences the indices strictly increase and stay below the total, so the three windows never overlap |
| `Summary.ThirtySentences` | Youtube_transcript_translate.py:108 | with 30 sentences the key ones are 0-2, 13-16 and 27-29 |
| `Summary.KeyIsCandidate` | Youtube_transcript_translate.py:103-108 | every key sentence is longer than 20 characters, terminator-free and stripped |
| `Summary.Wrap` | Youtube_transcript_translate.py:109-110 | the summary starts with its header and ends with its footer |
| `Summary.SummarizeBasic` | Youtube_transcript_translate.py:110 | the result starts with `Key Points from Transcript:\n\n` and ends with `\n\n(Note: Basic summary, no AI.)` |
| `Summary.SummarizeBasicOld` | Youtube_transcript_translate_old.py:222-226 | the result starts with the Markdown header and ends with the longer note |
| `Summary.SameSentencesBothVersions` | Youtube_transcript_translate_old.py:203-220 | between header and footer, both versions produce the same text |
| `Summary.SummaryRoundTrip` | Youtube_transcript_translate.py:109 | splitting the body on blank lines gives back the key sentences when none contains a blank line |
| `Summary.BlankLineRoundTrip` | Youtube_transcript_translate_old.py:218 | splitting the `"\n\n"`-join of key sentences without blank lines on `"\n\n"` gives them back |
| `Summary.NoCandidateEmptySummary` | Youtube_transcript_translate_old.py:220-226 | with no sentence longer than 20 characters, the summary is the header and footer alone |
| `Output.Rule` | Youtube_transcript_translate.py:125 | `"=" * 80` is 80 `=` characters |
| `Output.PosixJoin` | Youtube_transcript_translate.py:117 | `os.path.join`: an absolute second part replaces the first; otherwise the result starts with the first part and ends with the second |
| `Output.PosixJoinAfterSlash` | Youtube_transcript_translate.py:117 | after a directory ending in `/`, a relative name is appended with nothing in between |
| `Output.WriteMetadata` | Youtube_transcript_translate.py:119-124 | the six metadata writes append the metadata block |
| `Output.TextFile.Write` | Youtube_transcript_translate.py:119 | `f.write(s)` appends `s` to the file's content and changes nothing else |
| `Output.WriteContent` | Youtube_transcript_translate.py:119-127 | the nine writes into an empty file leave exactly the full layout as its content |
| `Output.SaveTranscript` | Youtube_transcript_translate.py:112-128 | the name is `dir/<title>_<stamp>.txt`, with the directory defaulting to `<cwd>/transcripts`; the content is the full layout |
| `Output.WriteSection` | Youtube_transcript_translate_old.py:283-285 | a heading written in three pieces appends the same section as the one-piece write |
| `Output.WriteSummaryOld` | Youtube_transcript_translate_old.py:286-289 | the summary write and the three-piece transcript heading append the summary, a blank line and the transcript section |
| `Output.SectionHeading` | Youtube_transcript_translate.py:125-126 | a section is 164 characters longer than its heading, and the heading and its line break sit right after the first rule |
| `Output.WriteContentOld` | Youtube_transcript_translate_old.py:277-290 | the fourteen writes of the older version produce the same layout as the current version |
| `Output.SaveTranscriptOld` | Youtube_transcript_translate_old.py:266-295 | the name is `transcripts/<title>_<stamp>.txt` with the layout as content; None when the file cannot be created |
| `Output.LayoutEndsWithTranscript` | Youtube_transcript_translate.py:127 | the file ends with the transcript verbatim |
| `Output.LayoutSections` | Youtube_transcript_translate.py:125-127 | after the metadata come the `SUMMARY` heading, the summary, the `FULL TRANSCRIPT` heading and the transcript, in that order |
| `Output.MetadataRoundTrip` | Youtube_transcript_translate_old.py:277-282 | splitting the metadata at line breaks gives back its six lines and a blank line, when no field holds a line break |
| `Output.SavedInDirectory` | Youtube_transcript_translate.py:116-117 | a sanitised title names a file directly inside the directory |
| `Output.DefaultDirectoryAsOld` | Youtube_transcript_translate_old.py:274 | with no directory given, the current path `<cwd>/transcripts/<name>` is the older relative path `transcripts/<name>` resolved against the working directory `cwd`, for every `cwd` |
| `Output.JoinNested` | Youtube_transcript_translate.py:114-117 | joining a relative directory and then a relative name equals joining the relative path `dir/name` |

## Left out

- Network, LLM and UI:
  - The HTTP requests, and the JSON/HTML extraction in `get_video_title`.
    The oEmbed answer and the groups found by the three page patterns are
    parameters.
  - The `[^"]+`-style title patterns themselves.
  - The Streamlit, Flask and console UI code.
  - `summarize_with_openai`, and the LangChain calls in `Youtube_transcript.py`.
- `get_transcript`: its outcome depends only on the exceptions raised by the
  transcript library.
- `Title.ScanPageOld`: the older version decodes a scraped title with
  `encode().decode('unicode_escape')` (Youtube_transcript_translate_old.py:70-73).
  The model treats that step as the identity. It is not: a successful decode
  turns `\u0026`-style escapes into characters, and re-reads UTF-8 bytes one
  by one, so `Café` becomes `CafÃ©`. A failed decode is caught and ignored.
- `Title.GetVideoTitleOld`: its scraped branch goes through `ScanPageOld`, so
  the same decoding step is missing from its result.
- `Title.AcceptsGroup`: it checks the scraped title without that decoding
  step, so a title whose decoded form differs is judged on its undecoded form.
- The translator: it is a function from the batch's first index and the joined
  text to an optional answer. The source language is fixed per call.
  Progress bars and console progress lines are left out.
- `Translation.TranslateTranscript`: a segment that is an object rather than a
  dict is not modelled; every segment is a record whose `text` may be missing.
- `Output.SaveTranscript`: directory creation, `open` and `write` always
  succeed. In the source a failure there raises an exception, which this
  model does not represent.
- `Output.SaveTranscriptOld`: all failures (directory, open, any write) are
  one boolean parameter. A write that fails half way, leaving a partial
  file, is not modelled.
- The clock: `datetime.now()` is called twice in the source, so the name stamp
  and the content date are separate parameters.
- `Transcript.Segment`: `start` and `duration` are carried as `real` values
  and never inspected.

## Findings

| source | as written | input that shows it | evidently intended | confidence | as-written member | corrected member |
|---|---|---|---|---|---|---|
| Youtube_transcript_translate_old.py:161-174 | when the translator call fails, the untranslated joined batch is split on `". "` and written back, so the first segment receives the whole joined batch (the comment reads "keep original") | two segments `hola`, `mundo` with a failing translator come back as `hola mundo`, `mundo` | a failed call leaves the batch's texts as they were | medium, not executed | `Translation.FailureRepeatsText` | `Translation.IntendedFailureKeepsTranscript` |

The same code is in `Youtube_transcript_translate.py:76-86`.

- `TranslateTranscript` and `TranslateTranscriptOld` model the code as
  written.
- `IntendedRealignment` is the corrected definition of the re-alignment.
- `IntendedAgreesOnSuccess` shows that the written loop and the corrected one
  differ only on failed calls.
