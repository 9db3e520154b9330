# MentorApp query classifier, modelled in Dafny

MentorApp routes a student's query to a university department. It holds a
registry of 33 categories. Each category has a keyword list, a contact email
(or none) and an optional link. `classify_query` scores every category by the
keywords found in the lower-cased query and returns the first category with
the highest score. It also returns that category's email and link and its
matched keywords joined with ", ". When no keyword matches at all, an
external language model is asked for a label. The label is stripped and
accepted only if it is exactly a registry key; otherwise the query goes to
"Other". `generate_email_to_student` drafts a fixed reply letter that quotes
the query.

The project has five modules, one per file:

- `Wrappers` (`wrappers.dfy`): the `Option` type.
- `Text` (`text.dfy`): the string operations the classifier uses.
  - `Lower` is ASCII `str.lower`.
  - `Contains` is Python's `k in s` for strings.
  - `Join` is `sep.join`, with `Unjoin`, which reads a non-empty list of comma-free words back from its ", " join.
  - `Strip` is `str.strip()`, with Python's `str.isspace` set of white-space characters.
- `Registry` (`registry.dfy`): `CATEGORY_KEYWORDS` as constant data.
  - One constant per category, in insertion order.
  - Key lookup (`Entry`).
  - The proof that the keys are distinct and that "Other" is one of them.
- `Classifier` (`classifier.dfy`): `classify_query`.
  - The pure specification: `Matches`, `Count`, `Candidates`, `FirstMax`, `Ranked`, `ResolveLabel` and `Classify`.
  - The imperative scoring loop `ScoreCategories`, proved equal to `Candidates`.
  - The method `ClassifyQuery`, proved equal to `Classify` over the real registry.
  - The lemmas that state the routing rules.
- `Reply` (`reply.dfy`): `generate_email_to_student` as a string template.

`classify_query` keeps two dicts keyed by category (MentorApp.py:180-181):
`match_scores` holds the counts, and `keyword_map` holds the matched
keywords. Both get the same keys in the same order, so the model merges them
into one sequence of `Score` records in insertion order.

Python's `max` and `sorted` are modelled by functions:

- `FirstMax` keeps the first of equal maxima.
- `Ranked` is a stable sort by decreasing count.

The language-model reply is an input of type `Option<string>`:

- `None` means the call raised an exception.
- `Some(text)` is the content the model returned.

Two details of the fallback:

- The returned label is only stripped (MentorApp.py:217), not lower-cased, before it is compared with the keys (MentorApp.py:218).
- A label that is not a key becomes "Other" (MentorApp.py:218-219); no error is raised for it.

## Model

| member | source | states |
|---|---|---|
| Text.Lower | MentorApp.py:179 | lower-casing keeps the length and maps every character on its own, changing only ASCII upper-case letters |
| Text.LowerIdempotent | MentorApp.py:179 | lower-casing a lower-cased query changes nothing |
| Text.Contains | MentorApp.py:186 | `keyword in query_lower` holds exactly when the keyword occurs at some position of the query |
| Text.ContainsLowerIgnoresCase | MentorApp.py:179-186 | a keyword is found in the lower-cased query exactly when it occurs in the query as typed, ASCII case ignored |
| Text.Join | MentorApp.py:196 | `", ".join` of no words is empty, and a join starts with its first word |
| Text.JoinContainsEach | MentorApp.py:196 | every joined keyword occurs in the joined string |
| Text.UnjoinJoin | MentorApp.py:196 | keywords without commas that are joined with ", " can be split back into the same list |
| Text.Strip | MentorApp.py:217 | `strip()` never lengthens its argument, and its result neither starts nor ends with white space |
| Text.StripBounds | MentorApp.py:217 | `strip()` yields the slice between the first and last non-white-space characters, with only white space cut away on either side |
| Text.StripIdempotent | MentorApp.py:217 | stripping a stripped label changes nothing |
| Registry.Names | MentorApp.py:208 | the key list has one key per entry, in registry order |
| Registry.Entry | MentorApp.py:194-195 | looking a key up yields a registry entry that has that key |
| Registry.EntryIsUnique | MentorApp.py:194-195 | with distinct keys, the `m`-th entry is what its key looks up |
| Registry.RegistryWellFormed | MentorApp.py:8-174 | `Categories`, the 33 entries of `CATEGORY_KEYWORDS` in insertion order, has distinct keys and "Other" among them |
| Registry.CatchAllHasNoKeywords | MentorApp.py:169-173 | the "Other" entry has an empty keyword list |
| Classifier.Matches | MentorApp.py:185-188 | a category's matched keywords are at most as many as its keywords |
| Classifier.Count | MentorApp.py:184-187 | `match_count` is at most the number of the category's keywords, and 0 exactly when none of them occurs in the lower-cased query |
| Classifier.MatchesExactly | MentorApp.py:185-188 | a keyword is among the matched ones exactly when it is in the category's list and occurs in the lower-cased query |
| Classifier.MatchesIgnoreCase | MentorApp.py:179-188 | a keyword is matched exactly when it occurs in the query as typed, ASCII case ignored |
| Classifier.Candidates | MentorApp.py:183-190 | there are never more scored categories than registry entries |
| Classifier.HitsAreCandidates | MentorApp.py:183-190 | the scored categories are, one for one, the scores of the entries with a positive count, in registry order |
| Classifier.HitsIncreasing | MentorApp.py:183-190 | scored categories keep registry order |
| Classifier.HitsComplete | MentorApp.py:189-190 | every entry with a positive count is scored |
| Classifier.CandidatesPositive | MentorApp.py:189-190 | every scored category has a positive count equal to its number of matched keywords |
| Classifier.CandidatesEmpty | MentorApp.py:192 | nothing is scored exactly when no entry has a matching keyword |
| Classifier.CandidateEntry | MentorApp.py:194-195 | every scored category is a registry key whose own score it is |
| Classifier.FirstMax | MentorApp.py:193 | `max` picks a candidate whose count no other candidate exceeds and which every earlier candidate falls short of |
| Classifier.HitBelowWinner | MentorApp.py:192-193 | no entry with a hit beats the winner, and the entries before it score strictly less |
| Classifier.WinnerIsFirstMaximum | MentorApp.py:192-193 | the winner is the first registry entry with the highest count over all entries |
| Classifier.InsertByCount | MentorApp.py:199 | one insertion step of the sort adds exactly the inserted score |
| Classifier.Ranked | MentorApp.py:199 | the ranked breakdown is a permutation of the scores |
| Classifier.InsertSorted | MentorApp.py:199 | inserting into a list ordered by count keeps it ordered |
| Classifier.InsertWithCount | MentorApp.py:199 | an insertion puts the new score at the front of the run with its count |
| Classifier.RankedSorted | MentorApp.py:199 | the breakdown is ordered by count, highest first |
| Classifier.RankedStable | MentorApp.py:199 | the sort is stable: scores with equal counts keep their order |
| Classifier.BreakdownIsCandidates | MentorApp.py:199-201 | the breakdown lists exactly the scored categories, highest count first, ties in registry order |
| Classifier.ResolveLabel | MentorApp.py:217-224 | the stripped reply is taken if it is a key; otherwise, or when the call failed, "Other" is taken; so the result is always a key |
| Classifier.Classify | MentorApp.py:178-227 | the returned category is always a registry key, and the email and link are that key's own |
| Classifier.ClassifyByKeywords | MentorApp.py:192-203 | with a keyword hit, the result is the first highest-scoring entry, with its own email and link; its matched terms are its matching keywords joined with ", ", non-empty and readable back |
| Classifier.FirstHighestScoreWins | MentorApp.py:192-196 | conversely, the first entry with the highest count is the one returned, with its matching keywords |
| Classifier.ClassifyBySemantic | MentorApp.py:205-227 | without any keyword hit, the matched terms are "semantic"; a stripped reply that is a key is returned, anything else gives "Other" |
| Classifier.CatchAllOnlyByFallback | MentorApp.py:189-193 | an entry without keywords, such as the catch-all, is never chosen by the keyword phase |
| Classifier.OtherNeverMatched | MentorApp.py:169-193 | over `CATEGORY_KEYWORDS`, a query with a keyword hit never goes to "Other" |
| Classifier.ScoreCategories | MentorApp.py:183-190 | the nested loop with its `match_count` accumulator computes exactly the scored categories |
| Classifier.ClassifyWith | MentorApp.py:178-227 | the method returns the specified classification and the ranked breakdown, which is empty when the fallback decided |
| Classifier.ClassifyQuery | MentorApp.py:178-227 | over `CATEGORY_KEYWORDS`, which is well formed, the method returns the specified classification and breakdown |
| Reply.Letter | MentorApp.py:229-243 | the letter is the greeting, the quoted text, the referral, the address and the closing, each at its fixed position |
| Reply.Show | MentorApp.py:237 | the f-string prints a present address as it is and a missing one as "None" |
| Reply.DraftReply | MentorApp.py:229-243 | the draft always contains the stripped query and the address as rendered; no query or address makes it fail |
| Reply.LetterDeterminesParts | MentorApp.py:229-243 | two letters whose quoted texts have the same length are equal only when they quote the same text and name the same address |

## Left out

- The Streamlit user interface (`main` and every `st.*` call) is not modelled. The ranked breakdown is returned as a sequence instead of being printed.
- The CSV upload and download and the `DataFrame` building are not modelled; they are file I/O.
- The language-model call is not modelled, because it sits on a network service. It is replaced by the `reply` input.
- The `st.secrets` API-key lookup is not modelled either. It runs outside the `try` block, so a missing key raises there.
- The `history` list and its `datetime` stamps are not modelled; they are session logging with wall-clock time.
- Text.Lower: only ASCII letters are lower-cased, not the full Unicode case mapping of Python's `str.lower()`.
- The `"Not listed"` default of `.get("email", "Not listed")` never applies, since every entry has an `email` key. The model reads the stored value directly.
- Registry.ValidKeyword: the keywords are all lower-case in the source, but the keyword type records only that a keyword is non-empty and has no comma. A keyword with an upper-case letter would simply never match the lower-cased query.
- `generate_email_to_student` is annotated as taking a string email, but it is passed `None` for several categories. The model renders `None` as an f-string does, as the text "None".
- The `category` argument of `generate_email_to_student` is unused by the source; the model accepts and ignores it.
