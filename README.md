# Course recommender: catalogue loading and topic recommendations

This Dafny project models the core of a small course-recommendation app. Its Python
source sits in `Project/main.py`, and the model covers two parts of that file.

- **Loading the catalogue** (`load_data`). Spreadsheet rows are first de-duplicated on
  the course name, and the first row with each name wins. Rows missing a name,
  description, category, language or duration are then dropped. Each remaining row
  gets a search text, built as name + " " + description + " " + category.
- **Recommending courses for a topic** (`get_recommendations_for_topic`). The steps are:
  - The topic is split on commas. Each piece is stripped, and empty pieces are dropped.
  - The corpus is narrowed to one language, compared case-insensitively. There is no
    filter when none is given, when it is empty, or when it is "all".
  - An empty narrowed corpus gives an empty result.
  - For each phrase, every course gets a similarity score. A course named like the
    phrase (ignoring case) is excluded. Only scores strictly above the threshold pass.
  - The five best are kept for a single phrase. Otherwise the two best per phrase are
    kept.
  - The per-phrase picks are concatenated in phrase order and de-duplicated on the
    course name, with the first occurrence winning. The rest are sorted by descending
    similarity.

Modules:
- `Wrappers`: `Option` and `Result`.
- `Frames`: the row operations the code uses, written over sequences. These are boolean
  masks, filters, keep-first de-duplication, `head(k)` and concatenation.
- `Text`: Python's `str.strip`, `str.split(",")` and `str.lower`.
- `Catalog`: `load_data`.
- `Ranking`: the recommendation query. `Recommend` is a method, and its per-phrase loop
  is the method `CollectPicks`.

The similarity score is the parameter `score(phrase, course)`. The selection rules never
look inside it.

pandas' `sort_values` is not a stable sort. The model therefore promises no particular
order among rows with tied scores:
- `IsTopK(cands, k, picked)` holds when `picked` is the first `k` rows of *some*
  descending ordering of `cands`.
- `Recommend` returns, as a ghost value, the per-phrase picks it made.
- The predicate `Recommendation` holds for any valid choice among ties.

Three behaviours of the code are worth spelling out, because a reader might expect
otherwise:
- **Empty topic.** A topic made only of commas and whitespace has no phrases, and the
  corpus may still be non-empty after filtering. In that case the loop never runs, and
  the accumulated frame is empty with no columns. `drop_duplicates` returns such an empty
  frame unchanged. The sort by `similarity` at main.py:68 then finds no such column and
  raises `KeyError`. So `Recommend` returns `Failure(MissingSimilarityColumn)` there,
  not an empty result.
- **Empty filtered corpus.** This check comes first, so it still gives an empty success.
- **Sort order.** A stable sort would keep corpus order among equal scores. The code's
  sort does not promise that, and neither does the model.

## Model

| member | source | states |
|---|---|---|
| Catalog.Load | Project/main.py:8-20 | The loaded names are pairwise distinct, and there are at most as many courses as rows. Every course is the derivation of a complete row that is the first with its name. Each course's text is name + " " + description + " " + category. |
| Catalog.LoadIsKeptRows | Project/main.py:12-15 | The corpus is exactly the rows that are first with their name and complete, in input order, each turned into a course. |
| Catalog.LoadKeepsFirst | Project/main.py:12-15 | The first row of a name is loaded whenever it is complete. |
| Catalog.LoadedNameIff | Project/main.py:12-15 | A name appears in the corpus if and only if the first row carrying it is complete. |
| Catalog.IncompleteFirstHidesName | Project/main.py:12-15 | If the first row of a name is incomplete, no course of that name is loaded, even when a later row of that name is complete. |
| Frames.DropDuplicates | Project/main.py:12 | Keeps at most the input's rows. The kept rows come from the input, and their keys are pairwise distinct. |
| Frames.DropDuplicatesKeepsFirst | Project/main.py:12 | A row is kept exactly when it is the first occurrence of its key. |
| Frames.DropSeenIsSelect | Project/main.py:12 | De-duplication is the mask selecting first occurrences, so input order is kept. |
| Frames.DropSeenAppend | Project/main.py:65-67 | De-duplicating a concatenation equals de-duplicating the first part, then the second part minus the keys already seen. |
| Frames.Filter | Project/main.py:15 | A row is in the result exactly when it is in the input and satisfies the condition. |
| Frames.FilterOfSelect | Project/main.py:12-15 | Filtering a masked selection is one selection under the combined mask. |
| Frames.DropSeenOfFlatten | Project/main.py:65-67 | A row kept from the concatenated picks comes from some pick, and no earlier pick holds a row with its key. |
| Text.Strip | Project/main.py:30 | The result is the slice of s after its leading whitespace, followed only by whitespace. Neither end of the result is Python whitespace. |
| Text.StripBlank | Project/main.py:30 | Stripping leaves nothing exactly when the string is all whitespace. |
| Text.Split | Project/main.py:30 | There is at least one piece. No piece contains the separator, and joining the pieces with it gives back the input. |
| Text.SplitJoin | Project/main.py:30 | Splitting a join of separator-free pieces gives back those pieces. |
| Text.Lower | Project/main.py:34-35 | The length is kept, each character is lower-cased position by position, and no upper-case ASCII letter remains. |
| Ranking.Phrases | Project/main.py:30 | Every phrase is non-empty, comma-free and stripped, and is the strip of some comma-separated piece. There are no phrases exactly when the topic holds only commas and whitespace. |
| Ranking.PhrasesInOrder | Project/main.py:30 | The phrases are the stripped pieces in input order, with the empty ones removed. |
| Ranking.BlankPieces | Project/main.py:30 | A joined string is all separators and whitespace exactly when every piece strips to nothing. |
| Ranking.NoLanguageFilter | Project/main.py:34 | No filter applies exactly when none is given, the filter is empty, or it is "all" spelled in any mix of letter cases. |
| Ranking.ByLanguage | Project/main.py:33-35 | With no filter (none, empty, or "all" in any case) the corpus is unchanged. Otherwise a course remains exactly when its lower-cased language equals the lower-cased filter. Distinct names stay distinct. |
| Ranking.Candidates | Project/main.py:44-53 | No more rows than courses in the pool. Every row's similarity is its course's score against the phrase and is strictly above the threshold. No row's course has the phrase's name, ignoring case. |
| Ranking.CandidateMember | Project/main.py:44-53 | A row is a candidate for a phrase exactly when its course is in the pool, its similarity is that course's score, its lower-cased name differs from the lower-cased phrase, and the score is strictly above the threshold. |
| Ranking.CandidatesDistinct | Project/main.py:47-53 | Distinct course names in the pool give distinct names among a phrase's candidates. |
| Ranking.SortDesc | Project/main.py:58-63 | The result is in non-increasing similarity and is a permutation of the input. |
| Ranking.TopMatches | Project/main.py:55-63 | The result is a possible outcome of sorting descending and taking `head(k)`. |
| Ranking.TopKProperties | Project/main.py:55-63 | A top k has min(k, n) rows, best first, taken from the candidates, and no candidate left out scores above a kept one. |
| Ranking.PickFor | Project/main.py:43-63 | The selection made for any phrase is a top `cap` of that phrase's candidates. |
| Ranking.CollectPicks | Project/main.py:43-65 | The loop's accumulated rows are the concatenation, in phrase order, of each phrase's selection. |
| Ranking.Recommend | Project/main.py:29-69 | An empty filtered corpus gives an empty success. The call fails exactly when the corpus is non-empty and there are no phrases. A success has distinct course names. On a non-empty corpus, a success is sorted by descending similarity and is a permutation of the de-duplicated concatenation of valid per-phrase top-k picks. |
| Ranking.RecommendationSize | Project/main.py:55-67 | A recommendation has at most five rows for one phrase and at most two per phrase for several. |
| Ranking.RecommendationProvenance | Project/main.py:43-67 | Every recommended row has a course from the filtered corpus and was picked for some phrase j. Its similarity is that course's score against phrase j, above the threshold, and the course is not named like phrase j. No earlier phrase picked a course with the same name. |
| Ranking.TopKReordered | Project/main.py:58-68 | Re-sorting a top k among itself, best first, gives another possible top k. |
| Ranking.SinglePhraseTopFive | Project/main.py:55-68 | With one phrase and a corpus of distinct names, the recommendation is exactly a possible top five of that phrase's candidates. |
| Ranking.LoadedPoolDistinct | Project/main.py:12-35 | A loaded corpus keeps distinct course names through any language filter. |

## Left out

- TF-IDF fitting and transforming, and cosine similarity (`get_tfidf_matrix` and main.py:41, 44-45). These are floating-point library calls, so the score is a parameter instead.
- The Streamlit page (`main`): the widgets, the fixed threshold 0.25 and the "Top 7 Highest Rated" list. This is presentation code. The query's default threshold of 0.2 is only a default argument, and the model takes the threshold as a parameter.
- `@st.cache_data(ttl=60)` and the Excel read in `load_data`. This is a clock-based cache and file I/O, so the model starts from the rows as read.
- `Project/add_course.py` and `Project/excel to sql.py`. These are SQLite and spreadsheet I/O plumbing with console prompts.
- The final column projection (main.py:68-69) keeps only course_id, course_name, language and duration_hours. The model returns the whole scored rows, similarity included.
- `astype(str)` on non-string cells. Every text cell is modelled as a string already, and a duration cell as a real number.
- Text.Lower: lower-cases only the ASCII letters A-Z; Python's full Unicode case mapping is not modelled.
- Ranking.Recommend: states no particular order among rows with tied similarity, because pandas' default sort is not stable.
