# CrossFit leaderboard ranking, modelled in Dafny

The system reads a competition sheet and, for each general category
(`Categoria_Geral`), builds a leaderboard:

- Each athlete row carries, for every WOD `w`, a result cell `w_Resultado` and a division cell `w_Categoria`.
- Each WOD is ranked inside its Rx and Scale divisions with competition ranking. Equal results share the lowest place they span.
- Scale athletes are placed behind every Rx athlete.
- Each athlete's points are joined across all WODs and summed into `Total Pontos`.
- `placements_i` counts the WODs the athlete scored exactly `i` in.
- The table is sorted by total, then by the placement counts, and numbered 1..n.

The model follows `main.py`, the script's ranking part, step by step. The one deliberate correction is the WOD discovery of line 18: the model uses the corrected suffix strip (see "## Findings"). The simplifications the model makes, such as failing on a missing result where pandas would carry NaN, are listed under "## Left out". `Wods.WodNamesAgree` proves that the two coincide whenever no column name holds `_Resultado` anywhere but at its end.

| module | file | models |
|---|---|---|
| `Results` | `results.dfy` | `Option`, `Result` and the ways a run can fail |
| `Text` | `text.dfy` | ASCII lower-casing, Python's string order, `str.split`, suffix stripping, `sorted(set(...))`, integer parsing |
| `Wods` | `wods.dfy` | WOD discovery from the column names (line 18) and the time/score classification (lines 36-37) |
| `Ranking` | `ranking.dfy` | `rank(method='min')` inside one division (lines 48-49) |
| `Scoring` | `scoring.dfy` | the Rx/Scale filter, the per-division ranks and the Scale offset of one WOD (lines 39-55) |
| `Join` | `join.dfy` | reading the cells of one WOD, and the inner joins on `Atleta` (lines 25-58) |
| `Board` | `board.dfy` | totals, placement counts, the multi-key sort, the `Rank` column and the per-category loop (lines 23, 61-100) |

Each step is modelled as follows:

- **Cells.** A `Row` holds each cell as the text the sheet gives. A text that pandas' `read_csv` reads as missing by default (the empty cell, `NA`, `NaN`, `null` and the others in `Scoring.Missing`) is a missing result: the WOD fails with `Unparseable`, as a non-integer score does.
- **Time results.** In a timed WOD the ranking compares the cell text, as it does when `read_csv` keeps the column as text. So "9:00" ranks behind "10:00", because Python compares strings character by character. `Text.Less` defines that order and proves it a strict total order. A timed column that `read_csv` reads as numbers is not modelled (see "## Left out").
- **Score results.** In a scored WOD the cell's integer value is compared, and a larger value is better.
- **Points.** A member's points are `1 + ` the number of division members with a strictly better result (`Ranking.MinRank`).
- **Scale offset.** Scale points get `|rx|` added. The `if rx_count > 0` guard is shown to change nothing.
- **The joins.** The WOD-by-WOD `pd.merge` calls are modelled literally (`Join.JoinAll`). They are then proved equal to a direct statement: the athletes ranked in every WOD, in row order, each with their own row of every WOD (`Join.Joined`).
- **Sorting.** The sort is an insertion sort under the "no worse than" order: lower total first, then the placement counts compared lexicographically, more being better. The sorted table is proved to be a permutation of the leaderboard and sorted. The relative order of lines with identical keys is left unspecified, because pandas does not promise one.
- **Placement columns.** They run to `n`, the leaderboard size. A WOD can still award more than `n` points when athletes who drop out of the join outranked someone. Those places appear in no column, so they are invisible to the tie-break. `Board.PlacementsAccountForTotal` and `Board.TalliesWeighted` state exactly when the placement counts account for the whole total: when no WOD scored beyond place `n`. `Board.FullBoard` shows that this holds on every line when nobody drops out.

Four behaviours of the script shape the model:

- The script has only two divisions, Rx and Scale.
- An athlete with no Rx/Scale row for some WOD gets no penalty points. They are dropped from the category by the inner join.
- Division labels are lower-cased but not trimmed.
- Ranks are never shared: lines with identical keys still get consecutive ranks.

## Model

| member | source | states |
|---|---|---|
| Text.LessIsLexicographic | main.py:42 | A timed result is ranked by its raw text: `a < b` exactly when `a` is a proper prefix of `b` or at the first differing position `a` has the smaller character |
| Text.LessTransitive | main.py:48-49 | The order on time texts is transitive, so the ranking of a timed WOD is consistent |
| Text.LessTotal | main.py:48-49 | Any two distinct time texts are ordered one way or the other |
| Text.LessAsymmetric | main.py:48-49 | No two time texts are each before the other |
| Text.JoinSplit | main.py:36 | `str.split('_')` cuts the name into pieces free of `_` that rejoin to the name |
| Text.SplitJoin | main.py:36 | Splitting pieces joined with `_` gives the pieces back when none holds `_` |
| Text.LastPieceIsSuffix | main.py:36 | `split('_')[-1]` is the longest suffix of the name without `_` |
| Text.SortedSet | main.py:18 | `sorted(set(xs))` is strictly increasing and holds exactly the elements of `xs` |
| Text.StrictlySortedDistinct | main.py:18 | A strictly sorted list has no repeats |
| Text.ParseShow | main.py:40 | Every integer written in decimal reads back as itself |
| Wods.ResultBases | main.py:18 | `w` is a base name exactly when `w_Resultado` is a column |
| Wods.WodNames | main.py:18 | The WOD list is strictly sorted and holds exactly the `w` whose `w_Resultado` column exists |
| Wods.WodNamesOfOne | main.py:18 | A sheet whose only result column is `b_Resultado` has exactly the one WOD `b` |
| Wods.WodNamesAgree | main.py:18 | On a sheet whose column names hold `_Resultado` only at their end, deleting every occurrence of the suffix lists the same WODs as stripping it, namely exactly the `w` with a `w_Resultado` column |
| Wods.BasesAgree | main.py:18 | On such a sheet the base names of line 18, taken in column order, are those of the suffix strip |
| Text.RemoveAllOfLastOnly | main.py:18 | `replace(pat, '')` on `b + pat`, where that final `pat` is the only occurrence, gives back `b` |
| Wods.ReplaceLosesResultColumn | main.py:18 | With the column `A_Resultado_Resultado`, deleting every occurrence of the suffix yields the WOD `A`, whose result column does not exist; stripping the suffix yields `A_Resultado` |
| Wods.IsTimeIff | main.py:36-37 | A WOD is timed exactly when its name ends in a token that lower-cases to `tempo` and is the whole name or follows `_` |
| Ranking.MinRankBounds | main.py:48-49 | A member's points lie in 1..division size |
| Ranking.MinRankOrder | main.py:48-49 | Strictly fewer points exactly when strictly better; equal points exactly when the results are equal |
| Ranking.MinRankIsMin | main.py:48-49 | A member's points are one more than the number of members with fewer points, so a tie group takes the lowest place it spans |
| Ranking.CountBetterMonotone | main.py:48-49 | A better result never has more members ahead of it, and strictly fewer when it is itself a member |
| Scoring.Members | main.py:45-46 | An attempt is in a division exactly when its label lower-cases to that division's name |
| Scoring.MembersKept | main.py:45-46 | The boolean mask keeps every attempt of the division as often as it occurs, and no other attempt, so its length is the division's row count |
| Scoring.MembersSplit | main.py:45-46 | No attempt counts in both divisions |
| Scoring.Admit | main.py:39-42 | A division is admitted exactly when each of its results reads as a mark of the WOD's kind; entries keep row order; a failure names an unreadable result |
| Scoring.RankWodIsConcat | main.py:51-55 | The Rx rows with their local ranks, followed by the Scale rows shifted by the Rx count, whether or not Rx is empty |
| Scoring.RankWodOffset | main.py:48-55 | Rx points are the local rank, at most the Rx count; Scale points are the Rx count plus the local rank; every Rx athlete scores fewer points than every Scale athlete |
| Scoring.EmptyRxLeavesScale | main.py:51-53 | With no Rx attempts, Scale points are the local Scale ranks unchanged |
| Scoring.ScoreWod | main.py:39-55 | A WOD ranks exactly the athletes in Rx or Scale, each row carrying that athlete's own cells, with points in 1..number ranked; it fails exactly when an Rx or Scale result is missing, or in a scored WOD is not an integer |
| Scoring.RankedRows | main.py:45-55 | The ranked rows are exactly the Rx and Scale rows, one per attempt, with points in 1..row count |
| Join.Cell | main.py:33 | Reading a column succeeds exactly when the row has it |
| Join.WodAttempts | main.py:33-34 | Every row's result and label of one WOD, in row order, available exactly when every row has both cells |
| Join.ScoreWods | main.py:28-55 | The ranked rows of each WOD, in WOD order, each computed by the one-WOD ranking with that WOD's classification |
| Join.Find | main.py:57 | The athlete's ranked row of a WOD, found exactly when the WOD ranked them |
| Join.JoinAllIsJoined | main.py:25-58 | The successive merges give exactly the athletes ranked in every WOD, in row order, with their own ranked row of each WOD |
| Join.JoinedLines | main.py:57 | An athlete is on the joined board exactly when ranked in every WOD; each line holds that athlete's ranked row of every WOD |
| Join.JoinedDistinct | main.py:57 | Distinct athletes stay distinct through the joins |
| Join.FirstRepeat | main.py:25 | Finds a repeated athlete name, and finds none exactly when all names differ |
| Board.Placements | main.py:68-73 | `placements_i` is the number of WODs scored exactly `i` |
| Board.TotalFromPlacements | main.py:61-73 | When no WOD scored beyond place `n`, the total equals the sum of `i * placements_i` |
| Board.RankedIffCompetes | main.py:45-57 | A WOD ranked an athlete exactly when their row has both cells of the WOD and an Rx or Scale label |
| Board.TalliesAreJoined | main.py:25-73 | The leaderboard is the direct join of the category's rows with totals and counts added |
| Board.RankedInWod | main.py:45-57 | A WOD's ranked rows hold a row's athlete exactly when the row has both cells of the WOD and an Rx or Scale label |
| Board.TalliesMembers | main.py:45-57 | A row's athlete is on the leaderboard exactly when they have an Rx or Scale row in every WOD; nobody else is on it and nobody twice |
| Board.TalliesColumns | main.py:57-73 | Each line holds one own ranked row per WOD; `Total Pontos` is their sum; `placements_1..n` count the WODs scored exactly i, n being the leaderboard size |
| Board.TalliesPointsBound | main.py:48-53 | No WOD gives an athlete more points than the category has rows |
| Board.WeightedIsWithinPlaces | main.py:68-73 | The sum of `i * placements_i` over i = 1..n is the part of the points scored within places 1..n |
| Board.WithinPlacesOfSum | main.py:61-73 | The points within places 1..n are at most the total, and equal to it exactly when no WOD scored beyond place `n` |
| Board.PlacementsAccountForTotal | main.py:61-73 | The total equals the sum of `i * placements_i` exactly when no WOD scored beyond place `n` |
| Board.TalliesWeighted | main.py:61-73 | On the leaderboard, a line's total equals the sum of `i * placements_i` exactly when all its WODs scored within places 1..n, n being the leaderboard size |
| Board.FullBoard | main.py:57-73 | When everyone competes in every WOD nobody is dropped, and every total is accounted for by the placement counts |
| Board.PlacementsIsLexicographic | main.py:77-93 | The tie-break compares placement counts lexicographically from first place on, more being better |
| Board.PlacementsTotal | main.py:77-93 | Any two placement vectors are comparable |
| Board.PlacementsTransitive | main.py:77-93 | The tie-break order is transitive |
| Board.PlacementsAntisymmetric | main.py:77-93 | Two placement vectors that each may precede the other are equal |
| Board.NoWorseTotal | main.py:89-93 | Any two leaderboard lines are comparable by total, then placements |
| Board.NoWorseTransitive | main.py:89-93 | The multi-key order is transitive |
| Board.InsertTally | main.py:89-93 | Inserting a line into a sorted table keeps it sorted and adds exactly that line |
| Board.SortBoard | main.py:89-93 | The sorted table is a permutation of the leaderboard, ordered by total ascending, then placements descending |
| Board.Number | main.py:98 | Numbering leaves every line as it was |
| Board.Standings | main.py:89-98 | The final table is a permutation of the leaderboard, in multi-key order |
| Board.RanksArePositions | main.py:98 | The k-th row's rank is k; ranks are exactly 1..n, none shared |
| Board.SortedKeys | main.py:77-93 | Down the final table totals never decrease, and equal totals come in lexicographic placement order |
| Board.InCategory | main.py:23 | The rows of one general category are exactly the rows carrying it |
| Board.InCategoryKept | main.py:23 | Grouping keeps every row of the category as often as it occurs, and no other row |
| Board.CategoriesPresent | main.py:23 | The categories the run iterates over are exactly those carried by some row |
| Board.BoardsOf | main.py:23-100 | One table per listed category, each computed from that category's rows alone; the run fails exactly when one category fails |
| Board.Boards | main.py:18-100 | The tables are keyed by exactly the categories present; each is the pipeline on that category's rows with the WODs of the whole sheet; the run fails exactly when some category's pipeline fails |

## Left out

- Reading the sheet from its URL and the exit on failure (main.py:11-15) are I/O. The model starts from a `Sheet` value holding the column names and the rows.
- HTML rendering, the São Paulo timestamp and writing `index.html` (main.py:103-117) are templating, clock and file I/O.
- Scoring.Admit: a Score cell that is not an integer makes the run fail with `Unparseable`. pandas' `to_numeric(errors='coerce')` would turn it into NaN, and `rank` would leave that row without points. The NaN path is not modelled.
- Scoring.ScoreWod: a missing result of an Rx or Scale row (a cell in `Scoring.Missing`) makes the run fail with `Unparseable`. pandas would read it as NaN, and `rank` would leave that row without points while ranking the others as if it were absent. The NaN path is not modelled.
- Scoring.ScoreWod: cells are taken as text, and `read_csv`'s column type inference is not modelled. A timed column whose every cell is a plain number (seconds such as `95` and `100`) is read by pandas as integers and ranked numerically (`95` first). The model ranks it by text, so `100` comes first.
- Text.ParseInt: accepts only an optional `-` followed by decimal digits. The other spellings `to_numeric` reads (a `+` sign, surrounding spaces, decimals, exponents) make the run fail instead.
- Join.FirstRepeat: a category with a repeated athlete name fails with `DuplicateAthlete`. With such names `pd.merge` would multiply rows, and that is not modelled.
- Text.Lower: lower-cases ASCII letters only. Python's `str.lower` also folds other alphabets.
- A missing `w_Resultado`/`w_Categoria` column (the `KeyError` of main.py:33) is a `MissingColumn` failure of the run. A missing `Atleta` or `Categoria_Geral` column cannot occur, because every `Row` has both fields.
- Points are natural numbers, not the floats pandas produces.
- Wods.ResultBases: strips only the trailing `_Resultado`, where line 18 deletes every occurrence. The two agree on every sheet whose column names hold the suffix only at their end (`Wods.BasesAgree`). On other sheets the script can list a WOD without a result column and raise `KeyError` (see "## Findings").
- Wods.WodNames: the corrected WOD list, used by the rest of the model. It equals line 18's list whenever no column name holds `_Resultado` before its end (`Wods.WodNamesAgree`), and differs as `Wods.ReplaceLosesResultColumn` shows otherwise.
- Wods.WodNamesOfOne: holds for the corrected discovery. As written, a `b` that itself contains `_Resultado` yields the WOD with every occurrence deleted instead.
- Board.Boards: ranks the WODs of the corrected discovery. On a sheet with a column such as `A_Resultado_Resultado` and no `A_Resultado`, the script raises `KeyError`, while the model ranks the WOD `A_Resultado`. On every sheet satisfying `Wods.SuffixOnlyAtEnd` both lists agree.
- Board.Boards: a row whose `Categoria_Geral` cell is missing is dropped by pandas' `groupby`. The model gives such a row a category of its own, named by the cell's text.
- Board.SortBoard: fixes one order for lines with identical keys. pandas' sort promises none, so only "sorted and a permutation" is stated.

## Findings

| source | as written | input that shows it | evidently intended | confidence | as-written member | corrected member |
|---|---|---|---|---|---|---|
| main.py:18 | `col.replace('_Resultado', '')` deletes every occurrence of `_Resultado` in the column name, not only the suffix | a sheet with the column `A_Resultado_Resultado`: the WOD `A` is listed, and reading `A_Resultado` at line 33 fails because no such column exists | strip the trailing `_Resultado` only, giving the WOD `A_Resultado` | not executed | Wods.ReplaceLosesResultColumn | Wods.WodNames |
