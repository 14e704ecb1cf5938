# MassSpecProj fragment search, modelled in Dafny

MassSpecProj.py reads a mass spectrum in JCAMP-DX format. It removes the
weak (isotopic) peaks and the peaks heavier than the parent molecule. It
then searches, for a fixed time, for random sub-formulas ("fragments") of
the parent molecular formula whose rounded mass equals one of the
remaining m/z values. The distinct matching fragments are printed in a
table sorted by mass.

This project models that core:

- `Spectrum` (`spectrum.dfy`) holds the two peak filters. The intensity
  filter keeps the (x, y) pairs with y ≥ 200. Unpacking fails when no pair
  is left. The weight filter then keeps the x values ≤ MW. It filters `x`
  alone and leaves `y` as it was, exactly as the script does.
- `Formula` (`formula.dfy`) covers the parent formula and `moleculefound`:
  - the parsed parent formula is a list of (element, count) entries in
    dictionary order;
  - a fragment is an element → count map, and map equality stands for the
    formula library's equality of normalised formulas;
  - `moleculefound` is a method with the script's loop over the elements.
    It takes one supplied draw per element in place of the random generator.
- `FragmentSearch` (`search.dfy`) covers the search:
  - the three-tier search time;
  - the deadline loop, driven by one `Tick` per pass: a clock reading and
    that pass's draws;
  - the dedup-and-insert step, as a method with the script's nested loops
    and its `break`.
  The reference functions `Step` (one pass) and `Run` (all passes) state
  the matching rule, and the lemmas prove the invariant of the two
  parallel result lists.
- `ResultTable` (`table.dfy`) zips the result lists into rows. It sorts
  them by mass with a stable insertion sort, standing in for Python's
  stable `sorted`.
- `MassSpec` (`mass_spec.dfy`) runs the steps in the script's order.
  `MW` is the mass of the parent formula itself.
- `Sequences` (`sequences.dfy`) holds generic helpers for Python's
  `filter`, `zip` and unzipping.

The atomic-mass computation with its rounding is an abstract parameter
`mass: Composition -> int`. The same function gives the molecular weight
and every fragment's mass, as in the script. m/z values and intensities
are exact reals.

## Model

| member | source | states |
|---|---|---|
| Spectrum.DropWeakPeaks | MassSpecProj.py:54 | fails exactly when no pair within the shorter list has intensity ≥ 200; otherwise the two output lists are non-empty and of equal length |
| Spectrum.DropWeakPeaksKeepsStrongPeaks | MassSpecProj.py:54 | every kept pair has intensity ≥ 200, and every input pair with intensity ≥ 200 is among the kept pairs |
| Spectrum.DropWeakPeaksKeepsOrder | MassSpecProj.py:54 | the kept pairs are a subsequence of the input pairs, and each pair occurs among them exactly as often as in the input if it is strong and not at all otherwise; so the kept list is exactly the strong pairs in input order |
| Spectrum.DropHeavyPeaks | MassSpecProj.py:61 | the filtered `x` is no longer than the input and holds only values ≤ MW |
| Spectrum.DropHeavyPeaksKeepsLightPeaks | MassSpecProj.py:59-61 | the filtered `x` holds only values ≤ MW, holds every input value ≤ MW, is a subsequence of the input `x`, and holds each value ≤ MW exactly as often as the input does and no other value; so it is exactly the input values ≤ MW in input order |
| Spectrum.Preprocess | MassSpecProj.py:54-70 | succeeds exactly when some strong peak exists and some strong x is ≤ MW; `x` is then the weight filter applied to the strong x values, and `y` is the intensity-filtered list, untouched by the weight filter; every kept x is ≤ MW |
| Spectrum.PreprocessExample | MassSpecProj.py:54-61 | raw peaks (10,50), (20,300), (150,400) with MW 100 give x = [20] and y = [300, 400] |
| Spectrum.PreprocessMisalignsIntensities | MassSpecProj.py:61-66 | after the weight filter the pair (x[0], y[0]) can be a pair that is not an input peak |
| Spectrum.PreprocessPairedKeepsPeaks | MassSpecProj.py:61-66 | filtering whole peaks instead keeps the lists parallel, each position an input peak that is strong and ≤ MW, and yields the same x list as the script |
| Formula.Pieces | MassSpecProj.py:92-100 | there are no more pieces than parent elements, and every piece carries a non-zero count (zero draws are skipped) |
| Formula.Fragment | MassSpecProj.py:102-104 | the normalised fragment holds no element with a zero count |
| Formula.ParentCounts | MassSpecProj.py:78 | with distinct element symbols, the parent composition holds exactly the parent's elements with their counts |
| Formula.FragmentCounts | MassSpecProj.py:94-104 | an element is in the fragment iff its draw is non-zero, then with the drawn count; the fragment has no other elements |
| Formula.FragmentWithinParent | MassSpecProj.py:94-102 | every element of a fragment is a parent element with a count from 1 up to the parent's count |
| Formula.AllZeroDrawIsEmpty | MassSpecProj.py:94-102 | a draw of zero for every element gives the empty formula |
| Formula.FullDrawIsParent | MassSpecProj.py:94-104 | drawing every element's full count gives back the parent composition |
| Formula.MoleculeFound | MassSpecProj.py:85-107 | the loop builds exactly the specified fragment and returns its mass; elements with a zero draw are absent; the fragment lies within the parent |
| FragmentSearch.SearchSeconds | MassSpecProj.py:111-116 | 10 iff MW < 100, 20 iff 100 ≤ MW < 200, 30 iff MW ≥ 200; the result is always one of the three |
| FragmentSearch.SearchSecondsMonotone | MassSpecProj.py:111-116 | a heavier molecule never gets less search time |
| FragmentSearch.Elapsed | MassSpecProj.py:118 | the passes are exactly those before the first clock reading at or after the deadline |
| FragmentSearch.ElapsedMonotone | MassSpecProj.py:112-118 | a later deadline never runs fewer passes |
| FragmentSearch.Step | MassSpecProj.py:121-131 | one pass keeps both recorded lists as prefixes of the new ones and appends the same number of entries, at most one, to each |
| FragmentSearch.StepKeepsConsistent | MassSpecProj.py:122-130 | one pass keeps the lists aligned, free of equal fragments, with each recorded mass the fragment's own mass and a target |
| FragmentSearch.SearchStep | MassSpecProj.py:121-131 | the nested scan appends at most one entry, to both lists, and appends iff the candidate's mass equals some target and no equal fragment is recorded; otherwise both lists are unchanged |
| FragmentSearch.Run | MassSpecProj.py:118-131 | after any number of passes the two lists have equal length, at most one entry per pass |
| FragmentSearch.RunConsistent | MassSpecProj.py:118-131 | after any number of passes the lists are aligned, with no two equal fragments, and each mass is its fragment's mass and a target |
| FragmentSearch.RunRecordsMatchedDraws | MassSpecProj.py:118-131 | a fragment is recorded iff some pass drew it and its mass is a target |
| FragmentSearch.RunWithinParent | MassSpecProj.py:94-131 | every recorded fragment is a sub-formula of the parent |
| FragmentSearch.RunAppendOnly | MassSpecProj.py:118-131 | the lists after fewer passes are prefixes of the later lists, growing by at most one entry per pass |
| FragmentSearch.RunWithoutTargets | MassSpecProj.py:118-131 | with no target masses nothing is ever recorded |
| FragmentSearch.LaterDeadlineExtends | MassSpecProj.py:111-131 | with the same clock, a later deadline only appends to the results |
| FragmentSearch.DifferentFragmentsMayShareAMass | MassSpecProj.py:124-130 | two different fragments of the same mass are both recorded against one peak; only equal fragments are kept out |
| FragmentSearch.Search | MassSpecProj.py:118-131 | the loop produces the lists of the passes before the deadline, and they satisfy the invariant and lie within the parent |
| ResultTable.SortByMass | MassSpecProj.py:136 | the output is non-decreasing by mass and is a permutation (equal multisets) of the input |
| ResultTable.SortByMassStable | MassSpecProj.py:136 | for every mass, the rows of that mass keep their input order |
| ResultTable.SortByMassKeepsDistinct | MassSpecProj.py:136 | sorting keeps the fragments of the rows distinct |
| ResultTable.Table | MassSpecProj.py:135-136 | the table is sorted by mass and a permutation of the zipped (fragment, mass) pairs |
| ResultTable.TableStable | MassSpecProj.py:135-136 | rows of equal mass appear in the order the search recorded them |
| ResultTable.TableRows | MassSpecProj.py:135-136 | from consistent lists, one row per recorded fragment, no two rows with equal fragments, each mass its fragment's mass and a target |
| MassSpec.MolecularWeight | MassSpecProj.py:57 | for a parent formula with distinct elements and positive counts, MW is the mass of the fragment that draws every atom, which is the parent itself |
| MassSpec.Deadline | MassSpecProj.py:111-116 | the deadline is the start plus 10 seconds when MW < 100, plus 20 when 100 ≤ MW < 200, and plus 30 when MW ≥ 200 |
| MassSpec.Analyse | MassSpecProj.py:54-136 | fails exactly as the preprocessing does; otherwise returns the table of the passes before the deadline, sorted, with distinct fragments, each a sub-formula of the parent whose mass is its own, ≤ MW and one of the kept m/z values |

## Left out

- Reading the file name and the JCAMP-DX file, with its retry loop (MassSpecProj.py:18-25): console and file I/O. The model starts from the `x` and `y` lists.
- Plotting and the `numpy.arange` tick computation (MassSpecProj.py:27-35, 63-72): not modelled. One exception: `min` of an empty `x` list at line 70 stops the script, and the model keeps that as the error `NoPeakWithinWeight`.
- The first plot's crashes (MassSpecProj.py:28-34) are not modelled. Line 30 reads `y[n]` for every index of `x`, so the script stops with an index error when the file's `y` list is shorter than its `x` list; line 34 stops the script when the raw `x` list is empty. The model starts after the first plot: for a shorter `y`, `Analyse` pairs the values up as `zip` does at line 54 and can return `Ok`, and an empty raw `x` gives `Err(NoStrongPeak)` as line 54 would.
- Printing and `tabulate` rendering (MassSpecProj.py:74-76, 138): presentation. The table rows hold compositions, not display strings.
- The atomic-mass computation and `round` (MassSpecProj.py:57, 105): floating-point library code. It is replaced by the abstract integer-valued `mass` parameter.
- `pt.formula` normalisation (MassSpecProj.py:56, 104): a library call. It is replaced by `Combine`, which adds up the counts per symbol. Formula equality at line 125 is map equality.
- `chemparse.parse_formula` (MassSpecProj.py:78): the parent is taken as given. chemparse returns float counts; the model uses natural numbers.
- `numpy.random.randint` (MassSpecProj.py:95): replaced by supplied draws in range. The distribution of the draws is not modelled.
- Floating point: m/z values and intensities are exact reals. Rounding effects in comparisons are not modelled.
- FragmentSearch.Search: wall-clock time is a supplied sequence of clock readings. If the readings run out before one reaches the deadline, the loop stops there (a fuel bound), whereas the script would keep drawing.
- ResultTable.SortByMass: Python's Timsort is stood in for by an insertion sort. A stable sort by one key has only one possible output, so the table is the same.
- An empty target set would give an empty table, but in the code the script never gets that far: line 54 raises when no peak is strong, and line 70 raises when no strong peak is ≤ MW. The model follows the code. `RunWithoutTargets` shows the search alone would record nothing.

## Findings

| source | as written | input that shows it | evidently intended | confidence | as-written member | corrected member |
|---|---|---|---|---|---|---|
| MassSpecProj.py:61 | the weight filter removes values from `x` only; the second plot (lines 64-66) then draws `x[n]` with `y[n]` | x = [150, 20], y = [300, 400], MW = 100: x becomes [20] and y stays [300, 400], so mass 20 is drawn with intensity 300, which belongs to the peak at 150 | filter whole (x, y) peaks so the lists stay parallel | high; not executed | Spectrum.PreprocessMisalignsIntensities | Spectrum.PreprocessPairedKeepsPeaks |

Less than it might seem rides on the corrected definition, `Spectrum.PreprocessPaired`. It yields the same `x` list as the script's filter; `Spectrum.PreprocessPairedKeepsPeaks` proves this. So the fragment search, which reads only `x`, gets the same targets either way.
