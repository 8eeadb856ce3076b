# alpha-strings in Dafny

A model of the alpha-string enumerator. An alpha-string is a variant of the
Gauss code of a curve. It is stored as a vector over positions `0 .. n-1`.
Each position holds one of two things:

- the index of its partner, the other end of the same arc;
- the marker `-1`, an unmatched crossing. A string with a marker is a substring of some alpha-string.

The program builds every alpha-string level by level. Level `k` holds the
strings with `k` arcs. Each level comes from the level below: a new arc is
added from position 0 to every other slot. The program keeps the
"interesting" results: those that are neither *simple* (reducible in one pass
by a window of half the length) nor carry a *simple loop* (an arc between
neighbours).

The modules follow the program:

- `AlphaStrings` (`alpha_string.dfy`) is the value type.
  - `AlphaString` is a datatype. The C++ `num_of_alphas` is always `alphas.size()`, so it is the derived `NumOfAlphas()`.
  - `IsAlpha` is the invariant of every reachable object: each position is a marker, or pairs with a different position that pairs back.
  - The validating constructor (`Construct`), `operator==` / `operator!=` (`Equal`, `NotEqual`) and `is_equal` (`IsEqual`) are modelled here.
  - `expand_by_arc` is the method `ExpandByArc`. It clamps the slots imperatively and then fills a fresh array in the three copy loops. It is proved equal to the function `Expanded`, and the lemmas are stated about that function.
- `Classification` (`classify.dfy`) holds the scans.
  - `simple()` and `with_simple_loops()` are loop methods. They are proved to decide the predicates `IsSimple` and `HasSimpleLoop`.
  - `is_interesting` is a function over those predicates.
- `Presenter` (`presenter.dfy`) holds the labelling part of `operator<<`.
  - The two naming loops run over two `array`s, with their loop state captured by `LabelledUpTo`.
  - They are proved to produce `CanonicalLabel`. That definition, without loops, says a position's name is one plus the number of arcs and markers the printer meets before meeting that position's own arc.
  - The names are proved to identify exactly the two ends of an arc, to be ordered by first visit, and to be onto `1 ..` the number of arcs and markers.
- `Enumerator` (`enumerator.dfy`) holds `make_alpha_signature` and the loop of `main`.
  - The vectors of levels that the source passes by reference are taken in and returned here.
  - One step is the function `SignatureStep`. `Enumerate` leaves the tables in the state `Enumerated`:
    - level `k` is `Level(k)`;
    - interesting level 0 is empty, and interesting level `k` for `0 < k` is `AddInteresting([], Level(k))`, which is every interesting string of `Level(k)` once, up to `operator==`;
    - all levels above are empty.

Four behaviours of the code are worth stating plainly:

- The level tables keep every expansion, duplicates included. Only the interesting lists are deduplicated.
- That deduplication uses `operator==` (`std::find`), not the mirror comparison `is_equal`.
- The empty string passes `is_interesting` (`Classification.EmptyIsInteresting`) but is never recorded: `main` seeds only the first level table, and each step writes interesting level `lastN + 1`, so interesting level 0 stays empty.
- `[2, 3, 0, 1]` is simple under `simple()` as written, because the window at 0 holds no inner pointer, so it is not interesting (`Classification.SmallExamples`).

## Model

| member | source | states |
|---|---|---|
| AlphaStrings.Construct | alpha-string.h:39-54 | a valid vector is kept and is a substring exactly when it holds a marker; otherwise no positions remain and the substring flag is the one set before the first broken position; the length is kept iff the vector is valid |
| AlphaStrings.Equal | alpha-string.h:57-62 | `operator==` holds exactly when the two vectors are identical; different lengths are never equal |
| AlphaStrings.NotEqual | alpha-string.h:77-79 | `operator!=` holds exactly when the two vectors differ |
| AlphaStrings.IsEqual | alpha-string.h:65-75 | `is_equal` decides: same length, and identical or the point reflection of the other (entry `i` is `n-1` minus entry `n-1-i`) |
| AlphaStrings.ReflectedAsWrittenSymmetric | alpha-string.h:71-73 | the reflection that `is_equal` tests is symmetric |
| AlphaStrings.MirrorEqualSymmetric | alpha-string.h:65-75 | comparison up to the mirror image as written is reflexive and symmetric |
| AlphaStrings.MirrorTwice | alpha-string.h:70-73 | the mirror image (partners reflected, markers kept) of the mirror image of an alpha-string is the string itself |
| AlphaStrings.MirrorIsAlpha | alpha-string.h:70-73 | the mirror image of an alpha-string is an alpha-string |
| AlphaStrings.MirrorEqualCorrectedSymmetric | alpha-string.h:65-75 | the corrected mirror comparison is reflexive and symmetric on alpha-strings |
| AlphaStrings.MirrorEqualAgreesWithoutMarkers | alpha-string.h:65-75 | on strings without markers the corrected comparison decides the same as `is_equal` as written |
| AlphaStrings.IsEqualMissesMarkedMirror | alpha-string.h:72 | the mirror images `[-1,-1,3,2]` and `[1,0,-1,-1]` are told apart by `is_equal` as written |
| AlphaStrings.Normalize | alpha-string.h:84-95 | the clamped, separated and ordered slots satisfy `0 <= f < l <= n+1`; slots already in that form are kept; `(0, l)` becomes `(0, min(l, n+1))` for `l >= 1` |
| AlphaStrings.Shift | alpha-string.h:110-117 | `change_func` moves an old index by 0, 1 or 2 places and, for ordered slots, never onto a new slot |
| AlphaStrings.ShiftProperties | alpha-string.h:110-117 | `change_func` is strictly increasing (so injective), never lands on a new slot, maps old positions into the new range and onto all non-slot positions, and keeps the marker |
| AlphaStrings.Expanded | alpha-string.h:97-101 | the expanded string has two more positions and is a substring exactly when two markers were asked for |
| AlphaStrings.ExpandedReindexes | alpha-string.h:102-124 | the two slots hold each other's index (or two markers), and the old entry at `p` lands at the shifted `p`, shifted |
| AlphaStrings.ExpandedIsAlpha | alpha-string.h:82-126 | expanding an alpha-string gives an alpha-string, and no old entry points at a new slot |
| AlphaStrings.ExpandedKeepsNoMarker | alpha-string.h:102-124 | expanding a string without markers by an arc gives a string without markers |
| AlphaStrings.ExpandByArc | alpha-string.h:82-126 | `expand_by_arc` returns `Expanded` of its arguments |
| AlphaStrings.FillExpanded | alpha-string.h:97-124 | the array filled by the arc writes and the three copy loops holds, at every position, the new arc or the shifted old entry |
| Classification.Simple | alpha-string.h:129-151 | `simple()` holds exactly when some window `[i, i+n/2)` holds no entry pointing into it, or the string is a substring whose halves point only across |
| Classification.WithSimpleLoops | alpha-string.h:154-159 | `with_simple_loops()` holds exactly when some `i < n-1` has `alphas[i] == i+1` |
| Classification.IsInteresting | source.cpp:8-10 | an interesting string has no simple loop, no free window, and is not a substring shorter than 2 |
| Classification.SimpleByWindows | alpha-string.h:143-148 | separated halves make the window at 0 free, so `simple()` adds something beyond the windows only for a substring shorter than 2 |
| Classification.EmptyIsInteresting | source.cpp:8-10 | the empty string is neither simple nor has a simple loop: it is interesting |
| Classification.SmallExamples | source.cpp:8-10 | `[1,0]` is simple with a simple loop and `[2,3,0,1]` is simple without one; neither is interesting |
| Presenter.Rank | alpha-string.h:167-187 | the step at which the printer reaches a position lies in `[0, n)` |
| Presenter.Visit | alpha-string.h:167-187 | the position reached at a step lies in `[0, n)` |
| Presenter.RankVisit | alpha-string.h:167-187 | the visit order (right half left to right, then left half right to left) is a bijection between positions and steps |
| Presenter.VisitLeft | alpha-string.h:178 | the left position `i` is reached at step `n-1-i` |
| Presenter.BlockRank | alpha-string.h:168-185 | the step at which an arc is first met is a valid step |
| Presenter.BlockRankFacts | alpha-string.h:168-185 | both ends of an arc share the first-met step, which is the step of one of the ends and starts a new name |
| Presenter.BlockOfStep | alpha-string.h:168-185 | only the position met at a step and its partner are first met at that step |
| Presenter.LeaderCountMonotone | alpha-string.h:170 | the count of names given grows with the steps, strictly across a step that names a new arc |
| Presenter.LabelRange | alpha-string.h:170 | every name lies in `1 ..` the number of arcs and markers |
| Presenter.LabelsNameArcs | alpha-string.h:168-185 | two positions share a name iff they are the two ends of one arc, and names are ordered by first visit |
| Presenter.LabelsOnto | alpha-string.h:167-187 | every name from 1 to the number of arcs and markers is given to some position |
| Presenter.LabelledAtStart | alpha-string.h:163-165 | the start state (all unnamed, count 0) is the printer state after no steps |
| Presenter.LabelledAtEnd | alpha-string.h:163-187 | the printer state after all steps has every position named by `CanonicalLabel` |
| Presenter.LabelStepSkip | alpha-string.h:168 | a step at an already named position keeps the printer state correct |
| Presenter.LabelStepMarker | alpha-string.h:169-171 | naming a marker gives it the next name and keeps the printer state correct |
| Presenter.LabelStepArc | alpha-string.h:169-174 | naming an arc gives both ends the next name and keeps the printer state correct |
| Presenter.Labels | alpha-string.h:163-187 | the two naming loops give every position its `CanonicalLabel` |
| Presenter.NameRightHalf | alpha-string.h:167-176 | the first loop leaves the printer state after the right half's steps, and every position not yet named still holds its original entry |
| Presenter.NameLeftHalf | alpha-string.h:178-187 | the second loop leaves the printer state after all steps; while it runs, positions not yet named keep their entries |
| Presenter.NameLeftAt | alpha-string.h:179-186 | one body of the second loop, at left position `i`, advances the printer state by one step and keeps the entries of positions not yet named |
| Presenter.UnnamedKeptTrans | alpha-string.h:163-187 | entries kept unchanged over the steps so far and over one more step are kept over both |
| Presenter.NameAt | alpha-string.h:168-175 | one loop body advances the printer state by one step and leaves the entries of positions not yet reached unchanged |
| Presenter.Render | alpha-string.h:189-193 | the output is every name in position order, with one separator before position `n/2` when `n > 0` |
| Presenter.Layout | alpha-string.h:189-193 | the printing loop writes every given name in position order, with one separator before position `n/2` when `n > 0` |
| Enumerator.Resize | source.cpp:15-18 | `resize` keeps the first `size` levels and adds empty ones |
| Enumerator.ArcsFrom | source.cpp:21-22 | one string gives `2*lastN+3` expansions |
| Enumerator.Expansions | source.cpp:20-23 | a level of `m` strings gives `m*(2*lastN+3)` expansions |
| Enumerator.AddInteresting | source.cpp:24-25 | offering candidates keeps the list as a prefix and adds at most one entry per candidate |
| Enumerator.AddInterestingSnoc | source.cpp:24-25 | offering one more candidate appends it exactly when it is interesting and not found |
| Enumerator.ExpansionsSnoc | source.cpp:20 | the expansions of one more string follow those of the strings before it |
| Enumerator.Find | source.cpp:24 | `std::find` returns the first index equal under `operator==`, or the end exactly when there is none |
| Enumerator.SignatureStep | source.cpp:13-27 | after a step, level `lastN+1` exists in both tables |
| Enumerator.SignatureStepFrame | source.cpp:13-27 | a step grows both tables to `2*(lastN+1)` only at the last level, appends the expansions to level `lastN+1`, offers them to interesting level `lastN+1`, and changes no other level |
| Enumerator.AddInterestingAppend | source.cpp:20-26 | offering two batches in turn is offering their concatenation |
| Enumerator.OfferArcs | source.cpp:21-26 | the inner loop appends the expansions of one string and offers each to the interesting list |
| Enumerator.MakeStepLevel | source.cpp:20-23 | after the strings before `k` and string `k`, the level holds its old contents followed by the expansions of the first `k+1` strings |
| Enumerator.MakeStepInteresting | source.cpp:20-26 | after the strings before `k` and string `k`, the interesting level is the old list offered the expansions of the first `k+1` strings |
| Enumerator.MakeAlphaSignature | source.cpp:13-27 | `make_alpha_signature` returns the tables of `SignatureStep` |
| Enumerator.AddInterestingSound | source.cpp:24-25 | the interesting list only grows, and what it gains is interesting and was offered |
| Enumerator.AddInterestingKeepsNoDuplicates | source.cpp:24-25 | appending only what `find` misses keeps the list free of equal pairs |
| Enumerator.AddInterestingComplete | source.cpp:24-25 | every interesting candidate offered, and everything already present, is in the list afterwards |
| Enumerator.AddInterestingNoGrowth | source.cpp:24-25 | offering candidates the list already holds changes nothing |
| Enumerator.AddInterestingIdempotent | source.cpp:24-25 | offering the same candidates a second time adds nothing |
| Enumerator.ExpansionsShaped | source.cpp:20-23 | expanding valid marker-free strings of `k` arcs gives valid marker-free strings of `k+1` arcs that are not substrings |
| Enumerator.LevelShaped | source.cpp:36-39 | every string of level `k` has `k` arcs, is valid, has no marker and is not a substring |
| Enumerator.LevelOne | source.cpp:36-39 | level 1 is `[1,0]` three times, and none of it is interesting |
| Enumerator.EnumeratedStep | source.cpp:38-39 | one step on level `n` of a table built up to `n` builds it up to `n+1` |
| Enumerator.EnumeratedInteresting | source.cpp:24-25 | every interesting level of a built table holds only interesting strings, no two equal |
| Enumerator.Enumerate | source.cpp:33-39 | the main loop builds the tables up to `maxComplexity`: levels are `Level(k)`, interesting level 0 is empty, interesting level `k` for `0 < k` holds the deduplicated interesting strings of `Level(k)`, and every level printed by `main` exists |

## Left out

- Writing the results to a file (`ofstream`, the headers and the text of `operator<<`) is not modelled. The printer is modelled up to the sequence of tokens it writes (`Presenter.Render`).
- `max_complexity` is fixed to 5 in `main`. Here it is the parameter of `Enumerate`.
- `int` and `size_t` are unbounded integers. Level `k` strings have `2k` positions (at most 10 under `main`'s bound), and level `k + 1` holds `2k + 3` times as many strings as level `k` (10395 at level 5); no `int` in the code comes near overflow.
- Construct: an entry that is neither `-1` nor an index of the vector is treated as invalid. The C++ reads outside the vector there, which is undefined behaviour.
- Equal: when the lengths agree but the vectors differ, the C++ operator falls off its end, which is undefined behaviour. It is modelled as `false`. The substring flag is not compared, as in the code.
- Labels: requires `IsAlpha`. An entry that is neither `-1` nor an index makes the C++ printer write outside its vectors; no constructor or expansion yields a string breaking `IsAlpha`, so every printed string meets the requires. The same holds for Presenter.Render.
- Enumerate: requires `maxComplexity >= 0`. The C++ compares a `size_t` with the `int` bound, which only makes sense for a non-negative bound.
- The two-marker expansion (`is_two_inf_arcs`) is modelled in `ExpandByArc`, but the enumerator never asks for it, as in the code. The code has no mode that asks for the two-marker expansion.
- The expanded string's substring flag is the argument alone, as in the code. Expanding a substring by an arc gives a string whose flag is `false` although it still holds markers.

## Findings

| source | as written | input that shows it | evidently intended | confidence | as-written member | corrected member |
|---|---|---|---|---|---|---|
| alpha-string.h:72 | `is_equal` reflects every entry as an index, so a marker `-1` becomes `n` | `[-1,-1,3,2]` against its mirror image `[1,0,-1,-1]`: answers false | markers stay markers under reflection, so mirror images compare equal | medium, not executed | AlphaStrings.IsEqualMissesMarkedMirror | AlphaStrings.MirrorEqualCorrectedSymmetric |
