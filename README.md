# psico: verified model of the selection, matching and parsing logic

psico is a plugin for the PyMOL molecular viewer. Most of it is glue between
the viewer's scripting API and external programs (TMalign, DynDom, THESEUS).
Inside that glue there are small pieces of self-contained logic. This project
models those pieces in Dafny and proves what they guarantee. Every answer the
viewer would give becomes a plain input: the atom indices of a selection, the
columns of an alignment, the residue numbers an `iterate` reports, regular-
expression match spans, the measured pairs of `get_raw_distances`, the lines
an external program printed. The same holds for a cost function or for
Python's `float()`.

The model covers these parts, one module each:

- `MatchMaking` (`matchmaker.dfy`): the `MatchMaker` class of
  `psico/fitting.py`. It chooses a match method, builds the paired selection
  strings, and filters the alignment columns in `from_alignment` to those
  with exactly one mobile and one target atom. It also deletes the temporary
  names on cleanup and on `__exit__`.
- `TMalign` (`tmalign.dfy`): the scraping loop over TMalign's output. This is
  the row counter, the one-shot header word, the rotation-matrix rows and the
  last TM-score. The module also covers in-place insertion of `None` gaps
  into the atom lists.
- `DynDom` (`dyndom.dfy`): `dyndom_parse_info`, a line parser with a
  FIXED/MOVING mode flag.
- `LocalRms` (`localrms.dfy`): the window search of `local_rms`.
- `Theseus` (`theseus.dfy`): the 4x4 matrix layout in `theseus` and
  `intra_theseus`, and the fit back to a reference state.
- `Promix` (`promix.dfy`): conformer numbering and segment grouping in
  `_promix`.
- `CollapseResi` (`collapse.dfy`): `collapse_resi` turns residue numbers into
  maximal ranges and formats them.
- `SsPick` (`sspick.dfy`): `select_sspick` grows residues into maximal runs
  per secondary-structure element.
- `PepSeq` (`pepseq.dfy`): `select_pepseq` and `select_nucseq`. They build
  the sequence and index lists with `#`/`None` chain breaks, then map the
  match spans back to atoms.
- `Distances` (`distances.dfy`): the cutoff filter and per-object grouping of
  `select_distances`.
- `Domains` (`domains.dfy`): the recursive split search and the domain
  boundaries of `select_domains`.
- `Diff` (`diff.dfy`): the selection expressions of `diff` and `symdiff`, and
  what they select.
- `Common` (`common.dfy`): shared values and string helpers. It has
  `Option`/`Result`, atom identifiers (`model`, `index`), `%d`
  formatting, `' '.join`, `str.split()`, `str.lower()` and `str.rstrip()`.

Code that changes state step by step is modelled as methods with loops:
`MatchMaker`'s fields, the TMalign scan, the `resv2i`/`resv2b`
dictionaries, the `elements` dictionary of `select_sspick`, the `seq_list`/
`idx_list` callback and the `sele_dict` of `select_distances`. Each method
is proved against a specification function. The recursive generators of
`select_domains` and the string building are modelled as functions.

## Model

| member | source | states |
|---|---|---|
| MatchMaking.Resolve | psico/fitting.py:414-425 | `none` keeps both selections; `in`/`like` become operator matching; `align`/`super` run the aligner; a known alignment object is used directly; every other name is an error |
| MatchMaking.OperatorSelection | psico/fitting.py:418-419 | reference definition of the `(%s) %s (%s)` text for `in`/`like`; `Resolve` and the constructor are stated with it |
| MatchMaking.Usable | psico/fitting.py:466-469 | reference definition: a column is usable when it holds exactly one mobile and exactly one target atom; `KeptColumns` and `PairColumns` are stated with it |
| MatchMaking.KeptColumns | psico/fitting.py:465-469 | the kept column positions are increasing, every one is usable (exactly one mobile and one target atom), and every usable column is kept |
| MatchMaking.PairColumns | psico/fitting.py:460-471 | the two lists are equally long; the i-th mobile and the i-th target atom are the sole atoms of the i-th usable column, in column order; every kept atom belongs to its selection's index |
| MatchMaking.MatchMaker.constructor | psico/fitting.py:409-425 | `none` keeps the selections, `in`/`like` give `(m) op (t)` and `(t) op (m)`, aligners add their alignment object to `temporary` and then match from it, and nothing is deleted yet |
| MatchMaking.MatchMaker.Align | psico/fitting.py:430-441 | the new alignment object is appended to `temporary`, and the matcher is built from that object |
| MatchMaking.MatchMaker.FromAlignment | psico/fitting.py:443-488 | equal counts keep `(sel) and aln`; otherwise the two new names hold the paired atoms of the usable columns and are appended to `temporary` |
| MatchMaking.MatchMaker.Cleanup | psico/fitting.py:500-504 | exactly the names in `temporary` are deleted, in order, and only while `autodelete` holds |
| MatchMaking.MatchMaker.Exit | psico/fitting.py:493-495 | cleans up once, then `autodelete` is false |
| MatchMaking.Open | psico/fitting.py:409-425 | construction fails exactly for an unknown match method; `none` leaves both selections unchanged |
| MatchMaking.ExitThenCollect | psico/fitting.py:493-504 | `__exit__` followed by `__del__` deletes the temporary names exactly once |
| TMalign.ParseFloats | psico/fitting.py:136 | `list(map(float, ...))` succeeds with one value per word, or fails at a word `float` rejects |
| TMalign.StepAt | psico/fitting.py:133-151 | reference definition of one pass of the loop body: counted row, header word, rotation header, alignment block or score; it consumes at least one and at most the remaining lines |
| TMalign.Scan | psico/fitting.py:133-151 | reference definition of the whole loop as repeated `StepAt`; `ParseOutput`, `ScanStep` and the scan lemmas are stated with it |
| TMalign.ScoreAt | psico/fitting.py:127 | reference definition of the `TM-score\s*=\s*(\d*\.\d*)` match at one position; `ScoreUntouched` and `LastScoreWins` are stated with it |
| TMalign.IsRotationHeader | psico/fitting.py:144 | reference definition: the lower-cased line starts with the rotation-matrix header; `HeaderLine` is stated with it |
| TMalign.Inserted | psico/fitting.py:174-179 | reference definition of left-to-right `None` insertion at each `-`; `InsertGaps` is proved to compute it and `GapsLandInPlace` says what it yields |
| TMalign.RowEntriesLayout | psico/fitting.py:137-138 | a row contributes its columns 2, 3, 4 and then column 1 |
| TMalign.Finish | psico/fitting.py:155-162 | a successful result has 16 entries: the 12 scanned ones followed by `0 0 0 1`; any other number of scanned entries is an error |
| TMalign.ScanStep | psico/fitting.py:133-151 | scanning is the first line's branch followed by scanning the remaining lines |
| TMalign.ScanLine | psico/fitting.py:133-151 | the body of the scraping loop, run on the remaining lines, takes exactly the step the scan specification takes, including the failure of an unparsable row |
| TMalign.ParseOutput | psico/fitting.py:126-162 | the loop with counter, header flag, matrix, alignment and score computes the scan followed by `Finish` |
| TMalign.CountedLine | psico/fitting.py:134-139 | while the counter runs, the first line is skipped and each following line appends its row entries |
| TMalign.HeaderLine | psico/fitting.py:144-145 | the rotation-matrix header line (compared in lower case) starts the counter |
| TMalign.RotationBlock | psico/fitting.py:134-145 | after the header, one line is skipped and the next three append exactly 12 entries, row by row |
| TMalign.TransformLayout | psico/fitting.py:137-138 | entry (r, c) of the 4x4 result is column c+2 of row line r, the translation is column 1, and the last row is `0 0 0 1` |
| TMalign.HeaderSetOnce | psico/fitting.py:140-143 | once the header word is set, no later line changes it |
| TMalign.ScoreUntouched | psico/fitting.py:148-151 | lines without a TM-score match leave the score unchanged |
| TMalign.LastScoreWins | psico/fitting.py:148-151 | the score kept is the one from the last matching line |
| TMalign.InsertGaps | psico/fitting.py:174-179 | in-place insertion of `None` at each `-`, scanning left to right, computes `Inserted` |
| TMalign.AlignedAt | psico/fitting.py:174-179 | the aligned list has `None` exactly at the gap columns, and otherwise the next atom in original order |
| TMalign.GapsLandInPlace | psico/fitting.py:174-179 | with one atom per non-gap column, left-to-right insertion yields exactly the aligned list |
| DynDom.DomainMatch | psico/fitting.py:211 | a DOMAIN NUMBER match yields a nonempty digit string and a nonempty word colour |
| DynDom.DomainMatchComplete | psico/fitting.py:211 | every line `DOMAIN NUMBER:` + blanks + digits + ` (coloured ` + word characters + a rest not starting with a word character is matched, with the whole digit run and the whole word run as the two groups |
| DynDom.DomainMatchSound | psico/fitting.py:211 | conversely, every matched line has exactly that form, with the two groups in place |
| DynDom.CleanResi | psico/fitting.py:218-220 | the cleaned residue text has no comma or space, and is unchanged when it had none |
| DynDom.CleanResiChar | psico/fitting.py:218-220 | one character: a comma becomes `+`, a blank disappears, any other character is kept |
| DynDom.CleanResiAppend | psico/fitting.py:218-220 | cleaning works character by character: the cleaned concatenation is the concatenation of the cleaned parts, so characters keep their order |
| DynDom.ParseInfo | psico/fitting.py:197-239 | the loop over the lines computes the scan followed by `Finish`; a failed scan is an error |
| DynDom.Step | psico/fitting.py:205-234 | reference definition of one pass of the loop body, branch by branch in the source's order; the lemmas below are stated with it |
| DynDom.Scan | psico/fitting.py:204-234 | reference definition of the loop over all lines, stopping at the first error |
| DynDom.BendingTexts | psico/fitting.py:229-234 | the cleaned captures of the BENDING RESIDUES lines in line order; empty exactly when no line is one |
| DynDom.ScanConsistent | psico/fitting.py:204-234 | every selection is a `domain_<n>` selection coloured right after it is made, and the fixed name is one of them |
| DynDom.AppendDomain | psico/fitting.py:216-228 | selecting and colouring one more `domain_<n>`, and recording it as fixed while in FIXED mode, keeps every selection a domain selection followed by its colouring |
| DynDom.NoDomainIsBending | psico/fitting.py:224-238 | none of the domain selections made during the scan is the `bending` selection |
| DynDom.FixedNameIsSelectedDomain | psico/fitting.py:223-227 | the returned fixed name is a domain the parser selected |
| DynDom.ResiduesBeforeDomainFail | psico/fitting.py:216-223 | a RESIDUE NUMBERS line before any DOMAIN NUMBER line fails, because `'domain_' + 0` raises |
| DynDom.BendingCollected | psico/fitting.py:229-234 | after a successful scan, `bending` is the earlier list followed by exactly the cleaned captures of the BENDING RESIDUES lines, in line order |
| DynDom.BendingStep | psico/fitting.py:229-234 | one line appends its cleaned capture to the bending list when it is a BENDING RESIDUES line, and nothing otherwise |
| DynDom.BendingSelectionIffBendingLine | psico/fitting.py:229-238 | the `bending` selection, whose residue text is the `+`-join of the cleaned BENDING RESIDUES captures in line order, is made if and only if some line is a BENDING RESIDUES line, and is then coloured green last |
| LocalRms.IndexByResidue | psico/fitting.py:566 | `resv2i` maps every present residue number to the last atom index carrying it |
| LocalRms.IndexByResidueUnique | psico/fitting.py:566 | that dictionary is the one value `IndexByResidueSpec` of the residue list |
| LocalRms.Lowest | psico/fitting.py:573-576 | the smallest present residue number in the range, or none present |
| LocalRms.Highest | psico/fitting.py:577-580 | the largest present residue number in the range, or none present |
| LocalRms.SearchUp | psico/fitting.py:573-576 | the upward loop finds the index of the lowest present residue number |
| LocalRms.SearchDown | psico/fitting.py:577-580 | the downward loop finds the index of the highest present residue number |
| LocalRms.WindowOf | psico/fitting.py:573-585 | reference definition of one residue's window or skip; `WindowMeaning` states what it means and `WindowAt` is proved to compute it |
| LocalRms.WindowMeaning | psico/fitting.py:551-585 | a window starts at the lowest present number in `[resv-w2, resv]`, ends at the highest in `[resv, resv+w2]` and spans at least `w4`; a residue is skipped exactly when a side is empty or the span is shorter |
| LocalRms.LocalWindows | psico/fitting.py:563-585 | an empty selection fails; otherwise a residue from first to last has a window exactly when `WindowOf` gives one |
| LocalRms.WindowsBetween | psico/fitting.py:572-588 | the loop fills `resv2b` for exactly the residues in range that get a window, with that window |
| LocalRms.WindowAt | psico/fitting.py:573-585 | one pass of the loop body, the upward and downward searches and the two skip tests, yields exactly the window `WindowOf` gives, or none |
| Theseus.Slice | psico/fitting.py:767 | Python slicing: the slice itself when the list is long enough; clamped at the end, or empty when it starts past the end, otherwise |
| Theseus.Homogeneous | psico/fitting.py:767-768 | a short translation raises; otherwise rows are `R` row and signed translation, and the last row is `0 0 0 1` |
| Theseus.Matrices | psico/fitting.py:767-768 | the comprehension stops at the shortest input, each matrix is the entry's homogeneous matrix, and it fails exactly at a short translation |
| Theseus.PairwiseMatrices | psico/fitting.py:767-768 | `theseus` yields the first matrix with its translation negated and the second as is; both exist when the inputs have them |
| Theseus.IntraMatrices | psico/fitting.py:819-820 | one matrix per state, as many as the shorter list, each with its translation negated |
| Theseus.Negatives | psico/fitting.py:819 | one `-1` sign per state |
| Theseus.FitBack | psico/fitting.py:828-832 | nothing happens unless `0 < state <= len(matrices)`; a state matrix shorter than 12 entries raises IndexError; otherwise the copy has entries 3, 7 and 11 negated and every other entry unchanged |
| Theseus.FitBackUndoesNegation | psico/fitting.py:819-832 | flipping a state's matrix, built with the translation negated, gives the matrix of the same rotation with the translation taken positively |
| Promix.Conformers | psico/fitting.py:1272-1277 | one `create` per state; state `i+1` goes to the object of its cluster, as that cluster's next state |
| Promix.ClusterName | psico/fitting.py:1276 | reference definition of the `%s_%d` name of cluster `k`, numbered from 1 |
| Promix.ConformerStatesDistinct | psico/fitting.py:1273-1277 | two states of one cluster never receive the same target state, and targets run from 1 to the cluster size |
| Promix.ClusterIdsMembers | psico/fitting.py:1282 | a cluster's id list holds exactly the ids zipped with that cluster |
| Promix.ClusterIds | psico/fitting.py:1282 | reference definition of the comprehension over `zip`; it is never longer than either input, and the lemmas beside it state its contents |
| Promix.ClusterIdsOrdered | psico/fitting.py:1282 | each cluster list keeps its atoms in original order |
| Promix.Segments | psico/fitting.py:1279-1285 | one `select_list` per cluster `0..K-1`, named `prefix_k+1`, with that cluster's ids |
| Promix.ClustersPartition | psico/fitting.py:1279-1285 | the cluster lists together hold each of the first `min(len(ids), len(membership))` ids exactly once |
| Promix.EmptyClusters | psico/fitting.py:1279-1285 | with no ids, every cluster is empty |
| Promix.SplitTotal | psico/fitting.py:1282 | removing the first atom removes one entry from exactly one cluster |
| Promix.ClusterIdsHead | psico/fitting.py:1282 | the first zipped atom adds one id to the list of its own cluster and none to the other lists |
| CollapseResi.Insert | psico/selecting.py:252-256 | adding to the sorted set keeps it strictly increasing, and the members are the old ones plus `x` |
| CollapseResi.InsertMembers | psico/selecting.py:252-256 | membership after insertion is the old membership or `x` |
| CollapseResi.Add | psico/selecting.py:252-256 | the in-place insertion loop computes `Insert` |
| CollapseResi.Ranges | psico/selecting.py:257-262 | the range-building loop that updates `r[-1][1]` computes `RangesOf` |
| CollapseResi.RangesOf | psico/selecting.py:257-262 | reference definition of the merge as a value; never empty for a nonempty input; `RangesSeparated` and `RangesCover` state what it yields |
| CollapseResi.RangeText | psico/selecting.py:263 | reference definition of `%d-%d` or `%d` for one range; the round-trip lemmas state what it means |
| CollapseResi.GroupText | psico/selecting.py:264 | reference definition of `/model/segi/chain/` followed by the `+`-joined range texts |
| CollapseResi.RangesOfSnoc | psico/selecting.py:257-262 | a further number either extends the last range, when it is at most one past its end, or opens a range of its own |
| CollapseResi.RangesSeparated | psico/selecting.py:256-262 | the ranges are sorted, each is well formed, consecutive ranges are separated by a missing number, and the last ends at the maximum |
| CollapseResi.RangesCover | psico/selecting.py:253-262 | a number lies in some range exactly when it is in the set |
| CollapseResi.RangeTexts | psico/selecting.py:263 | one text per range |
| CollapseResi.RangeTextRoundTrip | psico/selecting.py:263 | for non-negative residue numbers, the text `f` or `f-t` reads back as the same range |
| CollapseResi.RangeTextHasNoPlus | psico/selecting.py:263 | a range text never contains `+` |
| CollapseResi.RangeTextsRoundTrip | psico/selecting.py:263 | for non-negative residue numbers, the list of range texts reads back as the list of ranges |
| CollapseResi.SplitJoin | psico/selecting.py:263 | splitting a `+`-join of parts without `+` gives back the parts |
| CollapseResi.ResiTextRoundTrip | psico/selecting.py:263 | for non-negative residue numbers, the whole `+`-joined residue text reads back as the ranges |
| CollapseResi.KeysInOrderDistinct | psico/selecting.py:252-255 | the keys appear in first-insertion order, without repeats, and are exactly the keys reported |
| CollapseResi.ResvOfMembers | psico/selecting.py:252-253 | a key's set holds exactly the residue numbers reported with that key |
| CollapseResi.Group | psico/selecting.py:252-253 | the `defaultdict(set)` loop computes the keys in order and each key's set |
| CollapseResi.SetsStep | psico/selecting.py:252-253 | adding one atom's residue number to its key's set turns the dictionary of the first `i` atoms into that of the first `i+1`, leaving every other key's set alone |
| CollapseResi.Collapse | psico/selecting.py:238-268 | the result is the space-joined `/model/segi/chain/ranges` texts of the keys in dictionary order, each key having residues |
| CollapseResi.GroupTextsSnoc | psico/selecting.py:255-264 | each further key appends its own text |
| CollapseResi.GroupRangesExact | psico/selecting.py:253-262 | per key, the ranges cover exactly the reported residue numbers and are separated |
| SsPick.IsRun | psico/selecting.py:144-149 | reference definition of the run grown from `resv`: it contains `resv`, every other number in it is in the set, and neither neighbour of its ends is |
| SsPick.GrowRun | psico/selecting.py:144-149 | `resv_min..resv_max` contains `resv`, every other number in it is in the set, and `resv_min-1` and `resv_max+1` are not |
| SsPick.RunUnique | psico/selecting.py:144-149 | the maximal run around a residue is unique |
| SsPick.RunsApart | psico/selecting.py:139-150 | a residue of the set outside a run grows into a run that neither overlaps nor touches it |
| SsPick.InIntervals | psico/selecting.py:130-134 | `in_intervals` is true exactly when some interval contains the number |
| SsPick.FirstSeen | psico/selecting.py:137-138 | the position of a key's first query: the pair there has that key and no earlier pair has it, or no pair has it |
| SsPick.Elements | psico/selecting.py:136-150 | the dictionary's keys are exactly the queried keys, once each, in the order of their first query; every interval is a maximal run grown from a queried residue that no earlier interval held; every queried residue ends up covered |
| SsPick.ElementsApart | psico/selecting.py:139-150 | the intervals of one key are pairwise separated, when their origins are in the set |
| SsPick.AllApart | psico/selecting.py:139-150 | when every queried residue is in its key's residue set, no two intervals of a key overlap or touch |
| SsPick.RangeBodyReadsBack | psico/selecting.py:157 | for non-negative residue numbers, the `%d-%d` text reads back as the interval |
| SsPick.IntervalText | psico/selecting.py:157-159 | reference definition of `/model/segi/chain/lo-hi`, with `/CA` appended when only CA atoms are wanted |
| SsPick.Texts | psico/selecting.py:152-160 | reference definition of `sele_list`: the keys in dictionary order, each followed by the texts of its intervals |
| SsPick.KeyTexts | psico/selecting.py:156-160 | one text per interval of the key |
| SsPick.TextsCount | psico/selecting.py:154-160 | the list has one text per interval of every key |
| SsPick.SelectionList | psico/selecting.py:152-160 | the nested loop appends the texts of the keys in dictionary order |
| SsPick.AppendKeyTexts | psico/selecting.py:156-160 | the inner loop appends the texts of one key |
| SsPick.SsPickSelection | psico/selecting.py:126-170 | the keys are listed once each, iff queried, in first-query order; every interval is a maximal run grown from a queried residue no earlier interval held; every queried residue is covered; intervals are apart under the residue-set condition; and the result is the space join of the texts |
| PepSeq.LayoutOf | psico/selecting.py:66-76 | the two lists have equal length, every `None` index carries `#`, and every letter is `#` or a one-letter code |
| PepSeq.Far | psico/selecting.py:71 | reference definition of `cpv.distance(coord, prev) > cutoff`, on squared distances |
| PepSeq.Letter | psico/selecting.py:74 | reference definition of `one_letter.get(resn, '#')` |
| PepSeq.BuildSequence | psico/selecting.py:66-79 | the callback loop computes `LayoutOf` |
| PepSeq.AtomEntries | psico/selecting.py:74-75 | one entry per atom: its one-letter code, with `#` for an unknown residue name, and its identifier |
| PepSeq.EntriesSnoc | psico/selecting.py:72-75 | appending a `None` entry adds nothing, and appending an atom adds its entry |
| PepSeq.LayoutEntries | psico/selecting.py:70-76 | removing the break markers leaves exactly one entry per atom, in atom order |
| PepSeq.LayoutLength | psico/selecting.py:70-76 | the list length is the atom count plus the number of chain breaks |
| PepSeq.LayoutPrefix | psico/selecting.py:70-76 | the layout of a longer atom list extends that of its prefix |
| PepSeq.FirstAtomOpensGap | psico/selecting.py:68-73 | an atom far from the initial `1e300` point opens the list with `#` and `None` |
| PepSeq.PresentMembers | psico/selecting.py:91 | the non-`None` entries are exactly the identifiers present |
| PepSeq.Slice | psico/selecting.py:91 | `idx_list[start:stop]` with Python's clamping |
| PepSeq.SelectAtoms | psico/selecting.py:88-91 | the span loop computes `Selected` |
| PepSeq.Selected | psico/selecting.py:88-91 | reference definition of `sel_list`: the present atoms of each match span, span after span; `SelectedMembers` states its contents |
| PepSeq.SliceMembers | psico/selecting.py:90-91 | an identifier is taken from a span exactly when it sits in that span |
| PepSeq.SomeSpanSnoc | psico/selecting.py:89-91 | one more span adds exactly its own identifiers |
| PepSeq.SelectedMembers | psico/selecting.py:88-91 | the selected atoms are exactly the non-`None` entries within some match span |
| PepSeq.AtomTexts | psico/selecting.py:91 | one `` model`index `` text per identifier |
| PepSeq.SelectionText | psico/selecting.py:93 | the expression is `(selection) and byres (none ...)`, and with no atoms it selects none of them |
| PepSeq.SelectPepseq | psico/selecting.py:66-93 | the sequence is the built layout's letters, and the selection text lists exactly the atoms of the match spans |
| PepSeq.NucSequenceLetters | psico/selecting.py:102-103 | with the nucleotide table and cutoff 6.5, every sequence letter is one of `ACGTU#` |
| Distances.States | psico/selecting.py:310 | a non-zero state is taken alone; state 0 means states `1..count` |
| Distances.Kept | psico/selecting.py:316 | reference definition of `cutoff <= 0.0 or dist <= cutoff` |
| Distances.Ends | psico/selecting.py:315-318 | reference definition of the atoms the inner loop adds, in order; `EndsMembers` states its contents |
| Distances.AllEnds | psico/selecting.py:313-318 | reference definition of the atoms both loops add; `AllEndsMembers` states its contents |
| Distances.Add | psico/selecting.py:317-318 | `defaultdict(set)` add: membership is the old membership plus the atom, with no empty set |
| Distances.AddPairs | psico/selecting.py:315-318 | the inner loop adds the atoms of the kept pairs and nothing else |
| Distances.Collect | psico/selecting.py:312-318 | after both loops, the dictionary holds exactly the atoms of kept pairs, with no empty set |
| Distances.EndsMembers | psico/selecting.py:315-318 | an atom is collected from a state iff it ends a pair with `cutoff <= 0` or `dist <= cutoff` |
| Distances.AllEndsMembers | psico/selecting.py:313-318 | an atom is collected iff some state has a kept pair ending at it |
| Distances.NoCutoffKeepsAll | psico/selecting.py:316 | a cutoff of at most 0 keeps every pair |
| Distances.DroppedPair | psico/selecting.py:316 | a positive cutoff below a pair's distance drops that pair |
| Distances.EndsSplit | psico/selecting.py:315-318 | the pairs are filtered one at a time, independently |
| Distances.SelectDistances | psico/selecting.py:309-318 | an atom is selected iff it ends a kept pair in one of the requested states, and no object has an empty set |
| Domains.ArgMin | psico/selecting.py:405-411 | `min(gen(...))`: none for an empty range, otherwise the least cost in range, with the first position among ties |
| Domains.Best | psico/selecting.py:409-416 | a split exists only within `[start+minsize, end-minsize)` and within the cutoff |
| Domains.Splits | psico/selecting.py:409-420 | every yielded split lies in `[start+minsize, end-minsize)`, carries its own cost, and is within the cutoff; the recursion terminates because each call works on a strictly smaller interval |
| Domains.InOrder | psico/selecting.py:409-420 | the split points in order lie in range and are at least `minsize` apart |
| Domains.SpacedJoin | psico/selecting.py:409-420 | the split points of the left part, the split, and those of the right part together stay in range and at least `minsize` apart |
| Domains.SplitsInOrder | psico/selecting.py:409-420 | the generator's positions are exactly the in-order split points |
| Domains.SortedUnique | psico/selecting.py:433 | `sorted` has a single answer for these positions |
| Domains.Boundaries | psico/selecting.py:433 | reference definition of `[0] + sorted(...) + [N]` with the in-order split points; `BoundariesSorted` ties it to `sorted` |
| Domains.BoundariesSorted | psico/selecting.py:432-433 | the boundaries are 0, the sorted split positions, then N |
| Domains.DomainRanges | psico/selecting.py:433 | consecutive boundary pairs |
| Domains.DomainsTile | psico/selecting.py:432-433 | the domains tile `[0, N)` without gap or overlap, and with any split each holds at least `minsize` atoms |
| Diff.DiffTextParses | psico/selecting.py:194-205 | the `diff` selection string is the rendering of its expression tree, for both `align` and the other operators |
| Diff.DiffText | psico/selecting.py:197-204 | reference definition of the selection string, `(s1) and not aln` or `(s1) and not ((s1) op (s2))` |
| Diff.DiffExpr | psico/selecting.py:197-204 | reference definition of the same selection as an expression tree |
| Diff.Eval | psico/selecting.py:199-205 | reference definition of what an expression selects: a text by the host's meaning, `and not` as set difference, and `in`/`like` as the atoms with a counterpart |
| Diff.DiffMeaning | psico/selecting.py:199-205 | an atom is picked iff it is in the first selection and has no counterpart in the second; with `align`, iff it is not in the alignment object |
| Diff.DiffWithinFirst | psico/selecting.py:199-205 | `diff` only picks atoms of its first selection |
| Diff.DiffSelfEmpty | psico/selecting.py:203-205 | a selection compared with itself by `in` or `like` has no difference |
| Diff.SymdiffMeaning | psico/selecting.py:216-235 | the symmetric difference is symmetric in its two selections, and holds the unmatched atoms of either side |

## Left out

- Running the external programs, temporary files and directories, reading files. The TMalign and DynDom parsers work on the lines those programs printed.
- Background threads (`async_`), console output (`print`, `quiet` listings including `ss_names` in `select_sspick`) and command registration.
- Floating-point numerics: RMSD values, superposition, csb mixture estimation and the distance matrices of `select_domains`. The mixture's `membership` and `K` are inputs; `select_domains`' split cost is a function of the position; `select_pepseq` compares distances on real numbers.
- The viewer's selection language and API. Whatever `select`, `iterate`, `index`, `get_raw_alignment`, `get_raw_distances`, `count_states` and `get_unused_name` return is an input. What an atomic selection text selects in `diff` is a parameter. So is the identifier `in`/`like` compare atoms by.
- Regular expressions: `select_pepseq` takes the match spans as input. DynDom's and TMalign's patterns are written out by hand for ASCII input.
- `local_rms` compares the mobile model's atom count with itself (psico/fitting.py:560), so that check never fires and is not modelled.
- The `rms_cur` call after gap insertion in `tmalign` (psico/fitting.py:180-186), which is a viewer call.
- The domain naming and atom selection of `select_domains` after the boundaries (psico/selecting.py:435 onwards), which are viewer calls.
- Sets that the source keeps as Python `set`s (the residue sets of `collapse_resi`, the CA residue sets of `select_sspick`) are given as sequences. Order never matters to the result.
- `SsPick.Elements`: the order in which `qkeys`, a Python set, is iterated is a parameter (a sequence). The per-key order of the intervals, and the first-query order of the keys, therefore follow it.
- `SsPick.AllApart`: disjointness of a key's intervals is proved only when every queried residue is in its key's CA residue set. The two viewer queries can disagree, and then a residue's run may be the single residue itself.
- `SsPick.SsPickSelection`: the same condition applies to its disjointness clause.
- `PepSeq.FirstAtomOpensGap`: assumes that the first atom is farther than `cutoff` from the initial `1e300` point instead of deriving it. The real arithmetic of a squared distance against `1e300` is left out.
- `LocalRms.LocalWindows`: the window size is a natural number. With a negative window the source's search ranges are empty and it fails with an undefined variable.
- `Domains.Splits`: requires `minsize >= 1`. With `minsize <= 0` the source can recurse on the same interval without end.
- `Promix.ClustersPartition`: requires every membership value to lie in `[0, K)`, which the mixture estimation guarantees.
- `Promix.Conformers`: requires the same range of membership values.
- `TMalign.RotationBlock`: assumes each row line parses into at least five numbers, as TMalign prints them. Shorter rows give fewer entries and then fail the length assertion in `Finish`.
- `CollapseResi.RangeTextRoundTrip`: proved for non-negative residue numbers only. A negative range prints as `-5--3`, which the model's reader does not parse.
- `CollapseResi.RangeTextsRoundTrip`: the same restriction to non-negative residue numbers.
- `CollapseResi.ResiTextRoundTrip`: the same restriction to non-negative residue numbers.
- `SsPick.RangeBodyReadsBack`: the same restriction to non-negative residue numbers.
- `Common.IsSpace`: Python's `str.split()` and `str.rstrip()` also treat non-ASCII whitespace as blank; the model covers the ASCII characters only.
