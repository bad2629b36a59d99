# Note-Writer, modelled in Dafny

Note-Writer is three Python scripts that help a support engineer draft case
notes:

- `index_notes.py` splits a corpus of past notes on the text `\n---\n`.
  It strips lingering signatures from each note and stores the cleaned notes
  as numbered documents in a vector store.
- `anonymize.py` scrubs personal data from a notes file, line by line. Entity
  texts found by a named-entity recogniser become `[LABEL]`, email addresses
  become `[EMAIL]` and phone numbers become `[PHONE]`.
- `write.py` takes a question from the command line and retrieves similar
  notes. It shows them, builds a prompt around them, has a language model
  draft a reply, and appends a fixed signature.

The scripts own only the text handling around those services, and that text
handling is what this project models and proves things about. The
recogniser, the retriever and the language model are inputs: a sequence of
entities, and functions `retrieve` and `generate`.

Modules, one per file:

- `Chars`: the ASCII character classes behind `str.strip()` and the regex
  escapes `\s`, `\d`, `\w` and `\b`, plus a character count.
- `Substrings`: `find`, `split`, `join`, `count`, `replace` and `readlines`,
  as CPython scans them: left to right, non-overlapping.
- `Whitespace`: `str.strip()`.
- `Decimal`: `f"{n}"` for natural numbers.
- `EmailPattern` and `PhonePattern`: hand-written matchers for the two fixed
  regular expressions of `anonymize.py`. They make the choices Python's
  backtracking engine makes.
- `Substitute`: `re.sub` with either pattern.
- `IndexNotes`, `Anonymize` and `Write`: the three scripts.

Loops in the source are methods with loop invariants, proved equal to a
specification function:

- `IndexNotes.CleanNote`: the loop over the signature patterns.
- `Anonymize.AnonymizeText`: the loop over the entities.
- `Write.CollectContext`: the loop that accumulates `retrieved_text`.

Pure expressions are functions.

The code only checks that at least one argument is present, so an empty
argument is accepted as a query.

## Model

| member | source | states |
|---|---|---|
| IndexNotes.SplitNotes | index_notes.py:21 | `raw_notes.split("\n---\n")`: always at least one note. SplitNotesRoundTrip and SplitNotesCount state what the notes are |
| IndexNotes.SplitNotesRoundTrip | index_notes.py:21 | joining the notes with `"\n---\n"` gives back the corpus exactly, and no note contains the separator |
| IndexNotes.SplitNotesCount | index_notes.py:21 | the number of notes is the number of non-overlapping separators plus one; a corpus without a separator, the empty one included, is one note |
| IndexNotes.CutAll | index_notes.py:32-33 | the signature patterns run in order, each on the previous result. CutAllSpec, CutAllNoPhrase and CutAllFront state what remains |
| IndexNotes.CutAt | index_notes.py:24-33 | one DOTALL signature pattern keeps a prefix of the note that lacks the phrase. The prefix is the whole note when the phrase is absent, and otherwise ends where the first occurrence of the phrase begins: no occurrence starts before the cut |
| IndexNotes.CutAllSpec | index_notes.py:30-33 | after the patterns run in order, a prefix of the note remains and it holds none of the phrases |
| IndexNotes.CutAllNoPhrase | index_notes.py:30-33 | a note with none of the phrases comes through the patterns unchanged |
| IndexNotes.CutAllFront | index_notes.py:32-33 | running the patterns is running the first, then the rest on its result |
| IndexNotes.CutAtPrefixHit | index_notes.py:33 | when a text holds the phrase, anything appended after it does not change the cut |
| IndexNotes.NoOccurrenceBefore | index_notes.py:33 | a phrase absent from `x` that shares no character with `w` does not start anywhere inside `x + w`, whatever follows |
| IndexNotes.CutBeforeOpening | index_notes.py:33 | when `t` opens with the phrase and `w` shares no character with it, cutting `x + w + t` gives the same result as cutting `x + w` |
| IndexNotes.CutAllTrailing | index_notes.py:32-33 | characters that no phrase contains, appended to a note, either vanish in a cut or come through untouched together with the whole note |
| IndexNotes.StripCutAllOpening | index_notes.py:32-34 | a text that opens with the first phrase, after whitespace that no phrase contains, leaves no trace in the cleaned result |
| IndexNotes.Cleaned | index_notes.py:30-34 | `clean_note`: the patterns, then `strip()`. CleanedSpec says the result is a trimmed slice of the note holding no phrase; CleanedIdempotent says cleaning twice is cleaning once |
| IndexNotes.CleanNote | index_notes.py:30-34 | the loop over the three patterns followed by `strip()` computes `Cleaned(note)`; the loop invariant says that after i patterns the note equals `CutAll` of the first i phrases |
| IndexNotes.StripCutAll | index_notes.py:33-34 | stripping after the cuts gives a contiguous piece of the note that holds none of the phrases |
| IndexNotes.CleanedSpec | index_notes.py:30-34 | a cleaned note holds none of the three phrases, has no whitespace at either end, and is a contiguous piece of the note |
| IndexNotes.CleanedNoPhrase | index_notes.py:30-34 | a note holding none of the phrases is only stripped |
| IndexNotes.CleanedIdempotent | index_notes.py:30-34 | cleaning a cleaned note changes nothing |
| IndexNotes.CleanedNotes | index_notes.py:37 | there is exactly one cleaned note per note; empty ones are kept |
| IndexNotes.Documents | index_notes.py:40 | there is exactly one document per cleaned note |
| IndexNotes.IndexedCount | index_notes.py:53 | the printed `len(cleaned_notes)`. IndexedCountSpec says it is the number of separators plus one |
| IndexNotes.IndexedCountSpec | index_notes.py:37-53 | the printed count equals the number of separators plus one, and it equals the number of documents |
| IndexNotes.CorpusDocuments | index_notes.py:21-40 | the documents built from the corpus. CorpusDocumentsSpec says document i holds cleaned note i under `Note i+1` |
| IndexNotes.CorpusDocumentsSpec | index_notes.py:37-40 | document i holds cleaned note i, labelled `Note i+1`; its text has no signature phrase and no surrounding whitespace |
| IndexNotes.NoteLabel | index_notes.py:40 | `f"Note {i+1}"`. NoteLabelsDistinct says different positions get different labels |
| IndexNotes.NoteLabelsDistinct | index_notes.py:40 | different positions get different `Note n` labels |
| Decimal.Render | index_notes.py:40 | `f"{n}"` is a non-empty string of decimal digits |
| Decimal.ValueRender | index_notes.py:40 | reading a rendered number back gives the number |
| Decimal.RenderInjective | index_notes.py:40 | different numbers render differently |
| Whitespace.Strip | index_notes.py:34 | `strip()` returns a slice of the text with no whitespace at either end and only whitespace outside it |
| Whitespace.StripUnique | index_notes.py:34 | any slice with that property is the result of `strip()` |
| Whitespace.StripIdempotent | write.py:79 | stripping twice is stripping once |
| Whitespace.StripEmpty | write.py:51 | `strip()` returns the empty string exactly when the text is whitespace only |
| Whitespace.StripAppendSpace | index_notes.py:34 | whitespace appended to a text does not change its strip |
| Substrings.FindFromSpec | index_notes.py:33 | the first occurrence of a pattern at or after a position, or None when there is no occurrence there |
| Substrings.Split | index_notes.py:21 | `s.split(sep)` for a non-empty separator, scanning left to right. JoinSplit, SplitPiecesFree and SplitCount state what the pieces are |
| Substrings.JoinSplit | index_notes.py:21 | `sep.join(s.split(sep)) == s` |
| Substrings.Join | write.py:15 | `sep.join(parts)`. JoinSplit and SplitJoin show it undoes and is undone by `split` |
| Substrings.SplitPiecesFree | index_notes.py:21 | no piece of a split contains the separator |
| Substrings.SplitCount | index_notes.py:21 | a split has `s.count(sep) + 1` pieces |
| Substrings.Count | anonymize.py:15 | `s.count(p)`: non-overlapping occurrences, left to right. SplitCount ties it to `split` and ReplaceLength to `replace` |
| Substrings.SplitJoin | write.py:15 | with a one-character separator, splitting the join of pieces that lack it gives the pieces back |
| Substrings.Replace | anonymize.py:15 | `s.replace(t, r)`, including the empty-`t` case, which puts `r` before every character and once at the end. ReplaceIsJoinSplit, ReplaceLength and ReplaceAbsent state what it does |
| Substrings.ReplaceIsJoinSplit | anonymize.py:15 | `s.replace(t, r)` with non-empty `t` is `r.join(s.split(t))`, so every non-overlapping occurrence is replaced, left to right |
| Substrings.ReplaceLength | anonymize.py:15 | the replaced text changes length by `(len(r) - len(t))` per non-overlapping occurrence |
| Substrings.ReplaceAbsent | anonymize.py:15 | replacing a text that does not occur changes nothing |
| Substrings.Lines | anonymize.py:26 | `readlines()` of the text. LinesShape and ConcatLines state what the lines are |
| Substrings.ConcatLines | anonymize.py:26 | concatenating the lines of `readlines()` gives back the file text |
| Substrings.Concat | anonymize.py:31 | what `writelines` writes, the parts in order. ConcatLines says it reassembles the lines of a text |
| Substrings.LinesShape | anonymize.py:26 | every line is non-empty, holds at most one line break, as its last character, and every line but the last ends with one |
| Substrings.LinesOfConcat | anonymize.py:26-31 | `readlines()` of what `writelines` wrote gives back the lines written, when each is non-empty with at most a final line break and all but the last end with one |
| Substrings.ReplaceKeepsLine | anonymize.py:15 | `replace` with a non-empty target and a non-empty replacement, neither holding `\n`, turns one line into one line, ending in `\n` exactly when the input did |
| Chars.CountIfAppend | anonymize.py:18-19 | a character count distributes over concatenation |
| EmailPattern.RunEnd | anonymize.py:18 | a greedy character-class run ends at the first character outside the class |
| EmailPattern.RunWithin | anonymize.py:18 | a run of the class from a position ends no later than the greedy run |
| EmailPattern.TryTld | anonymize.py:18 | backtracking the top-level domain finds the longest end not beyond the given one that is a word boundary |
| EmailPattern.TldAfter | anonymize.py:18 | `\.[A-Z\|a-z]{2,}\b` after a dot gives the longest top-level domain that ends at a word boundary, or None when there is none |
| EmailPattern.TryDots | anonymize.py:18 | the domain run gives back characters from the right, so the dots are tried from right to left; the first with a top-level domain is chosen |
| EmailPattern.EmailAt | anonymize.py:18 | the engine's match at a position: it is a match; every other match puts the `@` in the same place and has an earlier dot, or the same dot and a shorter end; and None means there is no match |
| EmailPattern.LocalPartForced | anonymize.py:18 | every match puts its `@` right after the longest local-part run |
| EmailPattern.DomainDotsWithin | anonymize.py:18 | the dot of a match lies inside the longest domain run after the `@` |
| EmailPattern.NoMatchAtLeadingPunctuation | anonymize.py:18 | a local part that opens with `.`, `%`, `+` or `-` at the start of the text or after a non-word character cannot start a match, since `\b` fails there |
| EmailPattern.BarInTopLevelDomain | anonymize.py:18 | `[A-Z\|a-z]` takes `\|` literally: all of `a@b.c\|d` is one match |
| PhonePattern.OptSep | anonymize.py:19 | `[-.\s]?` takes the character exactly when it is a separator |
| PhonePattern.PhoneAt | anonymize.py:19 | the engine's match at a position is a match: a boundary, 3 digits, an optional separator, 3 digits, an optional separator, 4 digits and a boundary. Any match at that position is this one |
| PhonePattern.SeparatorsForced | anonymize.py:19 | no digit is a separator, so each optional separator of a match is present exactly when the text has one there |
| PhonePattern.PhoneDigits | anonymize.py:19 | a text that holds a match holds at least ten digits |
| PhonePattern.PhoneSpan | anonymize.py:19 | a match starts with a digit and holds only digits and separators |
| PhonePattern.PhoneShapePrefix | anonymize.py:19 | text after a character that is neither a digit, a separator nor a word character does not change a match that starts before it |
| PhonePattern.PhoneShapeShift | anonymize.py:19 | after a non-word character, the text matches as if it started there |
| Substitute.MatchEnd | anonymize.py:18-19 | where the engine's match at a position ends: past the position and inside the text. MatchEndSpec says it is a match, and None means no match starts there |
| Substitute.MatchEndSpec | anonymize.py:18-19 | the end of the match found at a position is past the position and is a match; None means no match starts there |
| Substitute.Scan | anonymize.py:18-19 | the left-to-right scan of `re.sub` over given match ends: the placeholder for a match, then resume after it; otherwise copy one character. ScanLeftmost and ScanCountIf state its effect |
| Substitute.SubUnchanged | anonymize.py:18-19 | `re.sub` leaves a text in which the pattern matches nowhere unchanged |
| Substitute.Sub | anonymize.py:18-19 | `re.sub(pattern, placeholder, s)` for the email or phone pattern. SubUnchanged, SubLeftmost, SubCounts, SubLeavesNoMatch and SubIdempotent state what it does |
| Substitute.SubLeavesNoMatch | anonymize.py:18-19 | the pattern matches nowhere in the output of its own pass |
| Substitute.SubKeepsNoMatch | anonymize.py:18-19 | a pass creates no match of a pattern that matched nowhere in its input, so the phone pass makes no address out of what it copies |
| Substitute.SubIdempotent | anonymize.py:18-19 | running a pass on its own output changes nothing |
| Substitute.MatchMoves | anonymize.py:18-19 | a match depends only on its own characters and the two `\b` tests at its ends: the same characters elsewhere, with `\b` at both ends, match too |
| Substitute.ScanLeavesNoMatch | anonymize.py:18-19 | the scan leaves no match of a pattern that has no match where the scan copies, since every match has `\b` at both ends and no bracket inside |
| Substitute.SubKeepsLine | anonymize.py:18-19 | a pass turns a line from `readlines()` into one line, ending in `\n` exactly when the input did |
| Substitute.SubLeftmost | anonymize.py:18-19 | the text before the first match is copied and the match becomes exactly the placeholder; the scan then resumes after the match |
| Substitute.SubFromCountIf | anonymize.py:18-19 | the scan never adds a character that its placeholder lacks |
| Substitute.PlaceholderCounts | anonymize.py:18-19 | `[EMAIL]` and `[PHONE]` hold no digit and no `@` |
| Substitute.SubCounts | anonymize.py:18-19 | neither pass increases the number of digits or of `@` characters |
| Substitute.EmailPassWithoutAt | anonymize.py:18 | the email pass leaves a text without `@` unchanged |
| Substitute.PhonePassFewDigits | anonymize.py:19 | the phone pass leaves a text with fewer than ten digits unchanged |
| Substitute.PhoneMatchPrefix | anonymize.py:19 | text after such a character does not change what the phone scan finds before it |
| Substitute.PhoneMatchShift | anonymize.py:19 | after a non-word character, the phone scan finds the same matches as on the rest alone |
| Substitute.PhoneSubPrefix | anonymize.py:19 | the phone pass of `u + v`, with `v` opening on such a character, is the pass of `u` followed by the pass from `v` on |
| Substitute.PhoneSubShift | anonymize.py:19 | after a non-word character, the phone pass continues as the pass of the rest alone |
| Substitute.PhoneSubSkip | anonymize.py:19 | characters that are not digits are copied by the phone pass |
| Substitute.PhoneSubSplit | anonymize.py:19 | a digit-free piece that opens with a character that is neither a separator nor a word character, and closes with a non-word character, splits the phone pass: each side is scanned alone and the piece comes through |
| Substitute.PhonePassKeepsEmailPlaceholder | anonymize.py:18-19 | the phone pass keeps every `[EMAIL]` and scans the text on each side of it on its own, so the digits of an already replaced address never become `[PHONE]` |
| Anonymize.Tag | anonymize.py:14 | `f"[{ent.label_}]"`. PlaceholderCounts and EntityStep use it as the replacement |
| Anonymize.AnonymizeText | anonymize.py:8-21 | the entity loop, then the email pass, then the phone pass compute `Anonymized(text, ents)`; the loop invariant says that after i entities the text equals `ApplyEntities` of the first i |
| Anonymize.ApplyEntities | anonymize.py:13-15 | the entity steps in order, each `replace` on the previous result. ApplyEntitiesAppend, EntityStep and AbsentEntity state what they do |
| Anonymize.ApplyEntitiesAppend | anonymize.py:13-15 | the entity steps run in order, each on the previous step's output: the steps for `a + b` are those for `a` followed by those for `b` |
| Anonymize.Anonymized | anonymize.py:8-21 | `anonymize_text`: the entity steps, then the email pass, then the phone pass. AnonymizeText computes it; AnonymizedLeavesNoMatch, AnonymizedCounts and AnonymizedKeepsEmailPlaceholder state its effect |
| Anonymize.AnonymizedLeavesNoMatch | anonymize.py:17-21 | the result holds no email address and no phone number as the two patterns define them |
| Anonymize.AnonymizedRegexPassesDone | anonymize.py:17-21 | running the two regex passes again on the result changes nothing |
| Anonymize.EntityTextInsideTag | anonymize.py:13-15 | an entity whose text occurs in its own tag, such as label `ORG` on the text `ORG`, turns its text into the tag and leaves that text in the result |
| Anonymize.ApplyEntitiesKeepsLine | anonymize.py:13-15 | entity steps whose texts are non-empty and hold no `\n`, and whose labels hold no `\n`, turn one line into one line, ending in `\n` exactly when the input did |
| Anonymize.AnonymizedKeepsLine | anonymize.py:8-21 | with such entities, `anonymize_text` turns one line into one line, ending in `\n` exactly when the input did |
| Anonymize.EntityStep | anonymize.py:13-15 | one entity step is `Tag(label).join(text.split(ent.text))`: every non-overlapping occurrence is replaced, not only the detected span, and the length changes accordingly |
| Anonymize.AbsentEntity | anonymize.py:13-15 | an entity whose text does not occur leaves the text unchanged |
| Anonymize.AnonymizedCounts | anonymize.py:18-19 | the output has at most as many digits and `@` characters as the text after the entity steps |
| Anonymize.AnonymizedRegexPassesIdle | anonymize.py:18-19 | after the entity steps, a text with no `@` and fewer than ten digits is not changed by the regex passes |
| Anonymize.AnonymizedKeepsEmailPlaceholder | anonymize.py:9-21 | wherever the email pass produced `[EMAIL]`, the output still has it, with the phone pass applied to each side |
| Anonymize.AnonymizedNotes | anonymize.py:28 | exactly one output element per input line |
| Anonymize.AnonymizedNotesSpec | anonymize.py:28 | element i is the anonymized line i, in input order |
| Anonymize.AnonymizedFile | anonymize.py:24-31 | what `anonymize_file` writes: the anonymized lines, concatenated. AnonymizedFileLines says it reads back as one line per input line; AnonymizedFileIdentity says an input whose lines do not change is written back unchanged |
| Anonymize.AnonymizedFileLines | anonymize.py:24-31 | when the entities found on every line are as above, `readlines()` of the written file gives back exactly the anonymized notes: as many lines as the input, in order |
| Anonymize.AnonymizedFileIdentity | anonymize.py:24-31 | when no line changes, the written file equals the read file |
| Write.Query | write.py:10-15 | the usage error happens exactly when there are fewer than two argv entries |
| Write.QueryRoundTrip | write.py:15 | when no argument contains a space, the query splits back into `argv[1:]` |
| Write.Repeat | write.py:47 | `c * n` has length n and holds only `c` |
| Write.Piece | write.py:48 | `f"{doc.page_content}\n\n"`, one note's share of `retrieved_text` |
| Write.CollectContext | write.py:44-48 | the loop produces `Context(pages)` and the printed lines `Display(pages)`; after i iterations both cover the first i notes |
| Write.Context | write.py:44-48 | `retrieved_text` after the loop. ContextIsConcat and ContextBlank state what it holds |
| Write.ContextIsConcat | write.py:44-48 | `retrieved_text` is the concatenation, in retrieval order, of each note followed by `"\n\n"` |
| Write.ConcatAppend | write.py:48 | concatenation distributes over appending lists |
| Write.Heading | write.py:46 | `f"[{i + 1}] {doc.page_content}"`, the first printed line of note i |
| Write.DisplaySpec | write.py:45-47 | two lines are printed per note: `[i+1] note`, then 80 dashes |
| Write.Display | write.py:45-47 | the lines the loop prints. DisplaySpec says there are two per note, the heading then 80 dashes |
| Write.AllSpaceAppend | write.py:51 | a concatenation is whitespace only exactly when both parts are |
| Write.ContextBlank | write.py:44-53 | `retrieved_text` is whitespace only exactly when every retrieved note is, including when none was retrieved |
| Write.ExitStatus | write.py:10-53 | status 0 exactly after a draft, 1 on both early exits |
| Write.Ask | write.py:10-92 | the script gives the usage error exactly when argv has fewer than two entries. Otherwise it shows the retrieved notes. It exits early exactly when every note is whitespace only. A draft has the prompt built from `retrieved_text` and the query, and the signed stripped reply |
| Write.Prompt | write.py:57-73 | the prompt text around `retrieved_text` and the query. PromptOrder states where each part lies |
| Write.PromptOrder | write.py:57-73 | the prompt holds the no-sign-off instruction, then `retrieved_text` verbatim, then the query verbatim, in that order |
| Write.SignedNote | write.py:79-92 | the printed note: the stripped reply, `"\n"` and the signature. SignedNoteShape and SignedNoteCleaned state its shape and that cleaning it removes exactly the signature |
| Write.SignedNoteShape | write.py:79-92 | the note is the stripped reply, a line break and the signature. It ends with the signature, a blank line comes before `Best Regards,`, and the body has no surrounding whitespace |
| Write.SignatureOpens | write.py:82-88 | after its leading line break the signature opens with `Best Regards,`, and no signature phrase holds a line break |
| Write.SignedNoteCleaned | write.py:79-92 | `clean_note` of a drafted note equals `clean_note` of the stripped reply: indexing a draft drops exactly the appended signature |

## Left out

- The spaCy recogniser (anonymize.py:5, 9) is not modelled. Its entities are an input sequence of (text, label) pairs. An entity with empty text is handled as `str.replace` handles it: the tag is inserted at every position.
- `anonymize_file` runs the recogniser once per line. That is modelled as a function parameter `ner`.
- Embedding models, Chroma and the retriever (index_notes.py:14, 42-51; write.py:18-40) are not modelled. The retriever is a function parameter. Its limit of five results is not modelled: any number of notes may come back. The deletion of the old store with `rm -rf` is not modelled.
- `ollama.chat` (write.py:76) is a function parameter `generate` from the prompt to the reply. The model name is configuration.
- Write.Ask: that the language model is not called on an early exit is not visible in a pure model. The contract states only that no draft is produced.
- File reading and writing, and universal-newline translation of `\r\n` and `\r` to `\n`, are not modelled (index_notes.py:17-18; anonymize.py:25-31). `readlines` is modelled on text already read.
- Status messages and `print` are not modelled; only the lines printed for each retrieved note are, as `shown`. `sys.exit` becomes `Outcome` and `ExitStatus`.
- Python's Unicode classes for `\d`, `\s`, `\w`, `\b` and `str.strip()` are restricted to ASCII:
  - digits are 0-9;
  - word characters are letters, digits and `_`;
  - whitespace is space, `\t`, `\n`, `\r`, `\v`, `\f` and `\x1c`-`\x1f`.
- There is no general regular-expression engine. Only the five fixed patterns are modelled: the three signature patterns as a cut at the first occurrence of the phrase, and the email and phone patterns as hand-written matchers.
- The model download and cache (write.py:18-28) and the different embedding-model identifiers at build and query time are configuration, not text logic.
- Anonymize.Anonymized: the model does not promise that an entity's text is gone from the result, because the program does not do that. An entity whose text occurs in its own tag leaves the text behind (EntityTextInsideTag). A later entity step can also replace text inside an earlier tag. Only the two regex patterns are proved absent from the result.
- Anonymize.AnonymizedFile: one output line per input line is proved only for entities with non-empty texts and no `\n` in a text or a label (AnonymizedFileLines). The program does not keep the line count otherwise. On `"Sam\nBob\n"`, with the entity `Sam\n` labelled `PERSON` on the first line, the file becomes `"[PERSON]Bob\n"`, one line instead of two. On `"a\n"`, an entity with empty text and label `X` gives `"[X]a[X]\n[X]"`, two lines instead of one.
