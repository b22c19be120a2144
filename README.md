# BLT ideas page generator — a Dafny model of its core

`scripts/generate_page.py` reads the idea documents of the BLT-Ideas
repository, enriches them with contributor names and GitHub discussion
participants, and writes a single HTML page. The page holds:

- a sortable table with one row per idea;
- an overlap matrix showing which ideas refer to each other;
- a short list of the most connected ideas.

This project models the data-processing core of that script and proves
what it computes:

- **PyStr**: the Python string operations the core relies on, written out.
  These are `str.strip`, `str.find` (behind `in` and `split(…, 1)`),
  `str.replace` and `sorted` on a set of strings.
- **HtmlEscape**: `html_escape`, the four chained replacements. It is proved
  equal to per-character substitution, decodable, and free of raw `<`, `>`
  and `"`.
- **IdeaOrder**: `sort_key`, and the order it puts idea ids in.
- **RelatedIds**: the loop in `parse_idea_file` that turns `Idea X`
  mentions into the sorted `related` list. The mentions are the captures of
  the regular expression.
- **GitLog**: the loop in `get_file_contributors` that turns `git log` lines
  of the form `email|||name` into one name per author.
- **OverlapMatrix**: `build_overlap_matrix`. It is imperative, like the
  source: nested loops that set cells of a dictionary of dictionaries. It is
  proved to set exactly the cells of the references, symmetrically.
- **RowDisplay** and **Connectivity**: the values `generate_html` computes
  for each row and for the summary. These are:
  - the shortened one-liner;
  - the capped contributor list;
  - the overlap count;
  - the kind of each matrix cell;
  - whether a related entry is linked;
  - the top five most connected ideas.

Strings are `seq<char>`. Python's `str.isspace` is modelled by `PyStr.IsSpace`
(the Unicode white-space and separator characters). Python's string
comparison is modelled by code-point lexicographic order (`PyStr.StrLess`).

The mojibake decision (`RowDisplay.Ellipsis`): the script stores the
ellipsis at line 309 as mis-encoded text (three characters, the Mac-Roman
reading of the UTF-8 bytes of `…`). The model uses the intended single
character U+2026.

The marking rule of `build_overlap_matrix`:

- A related entry that is itself an id sets the cell of that id, in both
  directions.
- Any other entry sets the cell of every id it starts with or that starts
  with it.
- The diagonal can therefore be set: a related entry that is not an id but
  extends the idea's own id marks the idea itself
  (`OverlapMatrix.SelfMentionMarksDiagonal`). In ordinary text this is a
  mention of an id that is not loaded: idea `L` mentioning `Idea L3`, with
  no idea `L3`, gets the entry `L3`, which starts with `L`
  (`OverlapMatrix.UnloadedMentionMarksDiagonal`). A mention such as
  `E.1 (Extended)` in idea `E.1` gives such an entry only when a word
  character follows the closing parenthesis; otherwise the capture is `E.1`
  itself, which line 232 drops as the idea's own id.
- The matrix table hides this by always drawing the self mark on the
  diagonal.
- The per-row overlap count leaves out the diagonal.
- The "most connected" ranking counts the diagonal.

`Connectivity.DegreeSplitsDiagonal` states the difference between the two
counts.

The comment at line 276 speaks of mapping `E (Extended)` to `E.2`. The code
has no such mapping: the prefix rule marks `E` only
(`OverlapMatrix.ExtendedReferenceMarksLetter`). The model follows the code.

Points where the model follows the code as written:

- A `git log` author who appears under several names is shown with the
  **last** name seen for the email. The dictionary assignment at line 113
  overwrites the name, and the email keeps the position where it was first
  seen (`GitLog.ContributorNames`).
- The overlap-matrix diagonal can be True. Lines 283-286 set it for a
  related entry that extends the idea's own id, as described above.
- The optional `(Extended)` group at line 226 shows that the pattern is
  meant to capture that suffix. A mention such as `Idea C (Extended)`
  followed by a space or the end of the text is still captured as `C`,
  because the `\b` at the end of the pattern needs a word character after
  the closing parenthesis. The regular expression itself is outside the
  model (see "Left out").

## Model

| member | source | states |
|---|---|---|
| PyStr.Strip | scripts/generate_page.py:110-111 | `str.strip()`: the result has no leading or trailing white space, is no longer than the input, and leaves an already stripped string unchanged |
| PyStr.StripIsSlice | scripts/generate_page.py:110-111 | the stripped text is a contiguous slice of the input, starting after the leading white space |
| PyStr.RStripSpaceSuffix | scripts/generate_page.py:231 | stripping removes trailing white space and nothing else from text that ends in a non-space character |
| PyStr.IsSpace | scripts/generate_page.py:110-111 | the characters Python's `str.strip()` removes: the Unicode white-space and separator characters (defined; used by `Strip` at lines 110-111, 228 and 231) |
| PyStr.Contains | scripts/generate_page.py:108 | the `in` test on strings: the pattern occurs somewhere in the text (defined; used at lines 108 and 230; `FindSpec` states when `Find` is non-negative) |
| PyStr.Find | scripts/generate_page.py:108-109 | `str.find`: the result is -1 or an index at which the whole pattern fits inside the text |
| PyStr.FindSpec | scripts/generate_page.py:108-109 | `str.find`: the index returned is the first occurrence of the pattern, and -1 means no occurrence |
| PyStr.NotBeforeFirst | scripts/generate_page.py:109 | no slice that ends before the first occurrence contains the pattern |
| PyStr.Replace | scripts/generate_page.py:231 | `str.replace`: replacing a pattern by itself changes nothing, and a replacement at least as long as the pattern never shortens the text |
| PyStr.ReplaceAbsent | scripts/generate_page.py:231 | `str.replace` leaves text that does not contain the pattern unchanged |
| PyStr.ReplaceSkipsPrefix | scripts/generate_page.py:231 | text that cannot start an occurrence passes through `str.replace` untouched |
| PyStr.SortSet | scripts/generate_page.py:244 | `sorted` on a set of strings: strictly ascending, each element exactly once, the same elements |
| PyStr.StrictlySortedDistinct | scripts/generate_page.py:244 | a strictly sorted list has no repeated element |
| PyStr.StrLess | scripts/generate_page.py:244 | Python's `<` on strings: lexicographic by code point, a proper prefix first (defined; its order properties are the two rows below) |
| PyStr.StrLessTotal | scripts/generate_page.py:244 | string comparison is total: of two different strings one is smaller |
| PyStr.StrLessTransitive | scripts/generate_page.py:244 | string comparison is transitive |
| HtmlEscape.Escape | scripts/generate_page.py:291-297 | `html_escape`: the four replacements in source order (defined; what it guarantees is in the rows below) |
| HtmlEscape.EscapePlain | scripts/generate_page.py:291-297 | a character other than `&`, `<`, `>` and `"` passes through all four replacements unchanged |
| HtmlEscape.EscapeReserved | scripts/generate_page.py:291-297 | a reserved character becomes its entity, which the later replacements leave alone |
| HtmlEscape.EscapeIsPerCharacter | scripts/generate_page.py:291-297 | the four chained replacements, `&` first, equal replacing each character by its entity independently |
| HtmlEscape.EscapeAppend | scripts/generate_page.py:291-297 | escaping distributes over concatenation |
| HtmlEscape.UnescapeEscape | scripts/generate_page.py:291-297 | decoding the four entities gives back the original text |
| HtmlEscape.EscapeInjective | scripts/generate_page.py:291-297 | two different strings never escape to the same text |
| HtmlEscape.EscapeWellEscaped | scripts/generate_page.py:291-297 | the output has no raw `<`, `>` or `"`, and every `&` in it begins one of the four entities |
| HtmlEscape.EscapeUnchangedIff | scripts/generate_page.py:291-297 | the output equals the input exactly when the input has no `&`, `<`, `>` or `"` |
| HtmlEscape.EachLength | scripts/generate_page.py:291-297 | escaping never shortens the text, and keeps its length exactly when nothing is reserved |
| IdeaOrder.KeyLess | scripts/generate_page.py:250-265 | Python's tuple comparison on `(letter, sub_rank)`: the letters first, then the sub-rank (defined; its order properties are in `IdOrderIsStrictTotal`) |
| IdeaOrder.SortKey | scripts/generate_page.py:250-265 | `E.1`, `E.2` and `L2` map to the table values `("E", 1)`, `("E", 2)` and `("L", 2)`, and are the only ids with a non-zero sub-rank; every other id, `RS` included, is keyed by itself with sub-rank 0 |
| IdeaOrder.SortKeyInjective | scripts/generate_page.py:250-265 | no two ids share a key, so the order never has to break a tie |
| IdeaOrder.IdOrderIsStrictTotal | scripts/generate_page.py:250-265 | the listing order is irreflexive, asymmetric, transitive and total on ids |
| IdeaOrder.BetweenLetterAndCompound | scripts/generate_page.py:250-265 | any id listed between a letter and a compound keyed under it has that letter and a smaller sub-rank |
| IdeaOrder.CompoundIdPlacement | scripts/generate_page.py:252-258 | `E.1` and `E.2` come right after `E` and before `F`; `L2` comes right after `L` and before `M`; `RS` comes between `R` and `S` |
| IdeaOrder.KnownIdsListing | scripts/generate_page.py:250-265 | the full listing order of the ids A to T with E.1, E.2, L2 and RS |
| Ideas.Ids | scripts/generate_page.py:270 | `[i["id"] for i in ideas]`: one id per idea, so the list is as long as the ideas (also `all_ids`, the column order, at line 374) |
| Ideas.IdsAt | scripts/generate_page.py:270 | position `p` of the id list holds the id of idea `p` |
| RelatedIds.Normalise | scripts/generate_page.py:228-231 | a capture is stripped; if it contains `(Extended)`, the result ends with ` (Extended)` |
| RelatedIds.NormaliseMovesSuffix | scripts/generate_page.py:228-231 | a base id, any white space and `(Extended)` normalise to the base, one space and `(Extended)` |
| RelatedIds.CollectRelated | scripts/generate_page.py:224-233 | the result is strictly sorted, never holds the idea's own id, and holds exactly the other normalised mentions |
| GitLog.ParseLine | scripts/generate_page.py:108-113 | a kept line gives a non-empty email and a non-empty name |
| GitLog.ParseLineSkipsAndStrips | scripts/generate_page.py:108-111 | a line without the separator is skipped; the kept email and name are stripped |
| GitLog.EmailHasNoSeparator | scripts/generate_page.py:109 | the line is split at its first separator, so the email never contains the separator |
| GitLog.HeadLacksPattern | scripts/generate_page.py:109-110 | the stripped text before the first occurrence of a pattern does not contain that pattern |
| GitLog.ParseFormatted | scripts/generate_page.py:101-113 | a line written in the `git log` format for a stripped, non-empty email without a vertical bar and a stripped, non-empty name is read back as that email and name |
| GitLog.EmailsDistinctAndNamed | scripts/generate_page.py:106-114 | every email is listed once, and exactly the emails that appear on a kept line are listed |
| GitLog.ContributorNames | scripts/generate_page.py:106-114 | one name per distinct email, in first-seen order, namely the name on the last kept line for that email |
| GitLog.LastNameStripped | scripts/generate_page.py:110-113 | every name returned is non-empty and stripped |
| OverlapMatrix.PrefixRelated | scripts/generate_page.py:284 | `other.startswith(target) or target.startswith(other)` (defined; its effect is stated by `MarkPrefixRelated` and `PrefixFallback`) |
| OverlapMatrix.Targets | scripts/generate_page.py:278-286 | the ids one related entry marks are always ids, and an entry that is itself an id marks only that id |
| OverlapMatrix.InitHolds | scripts/generate_page.py:272 | the initial matrix, every cell False, is keyed by the ids in both dimensions with no cell set |
| OverlapMatrix.BuildOverlapMatrix | scripts/generate_page.py:268-288 | the matrix is keyed by the ids in both dimensions, and its True cells are exactly those the references set, in both directions |
| OverlapMatrix.MarkPrefixRelated | scripts/generate_page.py:283-286 | the inner loop sets, in both directions, the cell of every id prefix-related to the entry, and no other cell |
| OverlapMatrix.MarkReference | scripts/generate_page.py:277-286 | one related entry sets the cells of its targets in both directions and no others |
| OverlapMatrix.MarkIdea | scripts/generate_page.py:275-286 | one idea's references set exactly their cells |
| OverlapMatrix.CellMeansOverlap | scripts/generate_page.py:268-288 | a cell is True exactly when one of the two ideas refers to the other |
| OverlapMatrix.MatrixIsSymmetric | scripts/generate_page.py:279-286 | the built matrix is symmetric |
| OverlapMatrix.AllLinksMeaning | scripts/generate_page.py:274-286 | after the first `i` ideas, a cell is set exactly when one of them refers from one end of it to the other |
| OverlapMatrix.ReferenceIsMutual | scripts/generate_page.py:278-280 | a related entry that is an id makes the two ideas overlap both ways |
| OverlapMatrix.PrefixFallback | scripts/generate_page.py:281-286 | a related entry that is not an id overlaps with every id it is prefix-related to, both ways |
| OverlapMatrix.SelfMentionMarksDiagonal | scripts/generate_page.py:283-286 | a related entry that is not an id but extends the idea's own id sets the diagonal cell |
| OverlapMatrix.UnloadedMentionMarksDiagonal | scripts/generate_page.py:278-286 | with ideas `L` and `L2` loaded, the entry `L3` in idea `L` sets the diagonal cell of `L` |
| OverlapMatrix.UnmatchedReferenceMarksNothing | scripts/generate_page.py:281-286 | an entry that is neither an id nor prefix-related to one sets no cell |
| OverlapMatrix.ExtendedReferenceMarksLetter | scripts/generate_page.py:276-286 | among `E`, `E.1` and `E.2`, the entry `E (Extended)` marks `E` alone |
| RowDisplay.Head | scripts/generate_page.py:309 | Python's `s[:n]`: the first `min(n, len(s))` elements (also `[:MAX_DISPLAY_CONTRIBUTORS]` at line 349) |
| RowDisplay.ShortOneLiner | scripts/generate_page.py:308-310 | a one-liner of at most 120 characters is kept whole; a longer one becomes its first 120 characters and the ellipsis |
| RowDisplay.OneLinerCell | scripts/generate_page.py:308-310 | the escaped one-liner cell of an idea decodes back to its shortened one-liner |
| RowDisplay.OneLinerShown | scripts/generate_page.py:308-310 | the shown text is at most 121 characters, and shortening it again changes nothing |
| RowDisplay.AllContributors | scripts/generate_page.py:344-346 | the union of the idea's git contributors and discussion participants, sorted, each name once |
| RowDisplay.ContributorsCell | scripts/generate_page.py:347-354 | no names gives the muted cell; otherwise the first `min(10, n)` names are shown escaped, and the `(+N more)` count is `n` minus the number shown |
| RowDisplay.ContributorsShown | scripts/generate_page.py:344-354 | the muted cell appears exactly when both lists are empty; at most ten names are shown, all from the two lists; the suffix appears exactly when there are more than ten; shown plus hidden is everyone |
| Connectivity.Row | scripts/generate_page.py:358 | `overlap_matrix.get(id, {})`: the row of a known id, the empty row otherwise (defined; also at lines 387 and 400) |
| Connectivity.OverlapCount | scripts/generate_page.py:357-359 | `overlap_count`: the True cells of the row of the idea other than its own column (defined; see `DegreeSplitsDiagonal` and `CountIsOverlappingIdeas`) |
| Connectivity.Degree | scripts/generate_page.py:400-401 | the ranking key: all True cells of the row, the diagonal included (defined; see `DegreeSplitsDiagonal`) |
| Connectivity.DegreeSplitsDiagonal | scripts/generate_page.py:357-359 | the overlap count is the True cells of the row minus the diagonal; the count used for ranking includes it; neither exceeds the row length |
| Connectivity.CountIsOverlappingIdeas | scripts/generate_page.py:357-359 | on the built matrix, the overlap count of an idea is the number of other ideas it overlaps with |
| Connectivity.MatrixCell | scripts/generate_page.py:384-391 | the self mark appears exactly on the diagonal |
| Connectivity.MatrixCellMeaning | scripts/generate_page.py:384-391 | on the built matrix, a check mark appears exactly where two different ideas overlap, and the table is symmetric |
| Connectivity.FindIdea | scripts/generate_page.py:331 | the index found is the first idea with that id, and none means no idea has it |
| Connectivity.RelatedLinkIffKnown | scripts/generate_page.py:329-340 | a related entry is rendered as a link exactly when it is the id of some idea |
| Connectivity.Insert | scripts/generate_page.py:398-402 | inserting an index into a ranked list keeps it ranked and adds exactly that index |
| Connectivity.Ranking | scripts/generate_page.py:398-402 | the stable descending sort by degree orders all indices, each exactly once |
| Connectivity.TopFive | scripts/generate_page.py:398-402 | the `[:5]` of the ranking: `min(5, n)` indices, each a valid index into the ideas |
| Connectivity.TopFiveSpec | scripts/generate_page.py:398-402 | `min(5, n)` distinct ideas, descending by degree with ties in input order; every idea left out is ranked after every idea shown |
| Connectivity.Degrees | scripts/generate_page.py:400 | the sort key of each idea is its overlap count plus one exactly when its diagonal cell is set, and never exceeds the length of its row |
| Connectivity.TopConnected | scripts/generate_page.py:398-402 | `top_connected` has `min(5, n)` ideas, the ones at the top-five ranked positions of their degrees, so the order and exclusion facts of `TopFiveSpec` carry over to the ideas |
| Connectivity.TopConnectedDescending | scripts/generate_page.py:398-402 | the most connected ideas are listed in non-increasing order of connections |

## Left out

- Reading the idea files, the GitHub GraphQL requests, the `git`
  subprocess, `main` and file output. These are I/O. Their results (document
  text, lines of `git log` output, participant lists) are inputs of the model.
- The regular expressions of `parse_idea_file`: id, title, one-liner,
  discussion URL and repository extraction. The regex engine is not
  modelled.
  - The `Idea X` captures are an input of `RelatedIds.CollectRelated`.
  - Because of the `\b` after the optional `(Extended)` group, a capture
    includes that suffix only when a word character follows the closing
    parenthesis.
  - `RelatedIds.NormaliseMovesSuffix` states what happens to such a capture.
    It does not claim that ordinary text produces one.
- The fields of the idea record that the modelled computations do not read:
  file name, raw and cleaned title, discussion URL and number, and BLT
  repository. `Ideas.Idea` keeps the id, one-liner, related list and the two
  contributor lists.
- `IDEA_REPO_MAP` and the fallback repository name are a constant lookup.
  They are not modelled.
- Title clean-up, the dash characters in the titles, and the template with
  its JavaScript. The HTML string assembly is not modelled either: links,
  `zfill`, the `:03d` sort attributes and the joining of rows. The model
  stops at the values placed into the markup.
- `stdout.strip().splitlines()` in `get_file_contributors`: the lines are the
  input. The `except` branch returning `[]` on a subprocess failure is not
  modelled.
- Connectivity.Ranking: Python's `sorted(…, reverse=True)` (timsort) is
  modelled by a stable insertion ranking. Both give the unique stable
  descending order, so the result is the same; the algorithm is not.
- RowDisplay.Ellipsis: the script's mis-encoded three-character ellipsis is
  modelled as the single character U+2026.
- PyStr.StrLess: compares code points. That is Python's string order for
  text without surrogates.
