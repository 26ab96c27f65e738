# parallel-berger-munson: a Dafny model of the alignment core

This project models the core of a small multiple-sequence-alignment
program that follows the Berger–Munson scheme. It has five parts:
- a pairwise local aligner with affine gap penalties;
- two variants of a group-to-group profile aligner;
- the wire format the MPI driver uses to ship FASTA records between
  processes, and the vote reduction of that driver;
- a naive "pad with gaps" aligner and the partition utilities;
- the FASTA line grouping.

Modules, one per source file:

- `ProfileDP` (`profile_dp.dfy`). It specifies the group-to-group dynamic
  program that `code/align.cpp` and `code/basic_alignment.cpp` both run.
  - The score recurrence: borders `i*gapPenalty*|group2|` and
    `j*gapPenalty*|group1|`. Inside, the source's tie-break picks
    horizontal, then strictly greater vertical, then strictly greater
    diagonal.
  - The backtrack walk, which turns the stored directions into a gap
    pattern.
  - The score of any gap pattern.
  - The main theorem: the walk from the bottom-right corner covers every
    column of both groups, scores exactly `Score[n][m]`, and no other
    gap pattern scores more.
- `Align` (`align.dfy`). The free functions of `code/align.cpp`. The
  globals that file uses without declaring them (`scoreMatrix`,
  `backTrackMatrix`, `gapPenalty`, `diff`) become parameters and results.
- `BasicAlignment` (`basic_alignment.dfy`). The class
  `multipleAlignmentObject`, with its fields. `forwardPass` and
  `reversePass` call the loops in `Align` and store the results in the
  object.
- `LocalDP` (`local_dp.dfy`). It specifies the pairwise local aligner of
  `code/alignment.cpp`:
  - the local recurrences `H`, `F` and `D`;
  - the mirrored recurrence `reversePass` runs back from the best cell;
  - the global refill and walk of `backtrack`;
  - the run-length path encoding that `add` and `del` build in `displ`;
  - the columns and text `tracePath` prints.

  `backtrack` records its moves from the window's last cell back to the
  first. `add` slips every later value in before a trailing vertical run.
  `tracePath` then lays the entries out from the window's first cell,
  in index order. The model keeps all of this as written:
  - `EncodeShape` states the resulting shape of `displ`;
  - `TraceOfWindow` shows that each printed line still holds exactly the
    window's residues, in order.
- `MultiGroup` (`multi_group_alignment.dfy`). The class
  `MultiGroupAlignment`. Each method is an imperative method over the
  class's fields and arrays, proved against `LocalDP`.
- `BmComm` (`bm_comm.dfy`). It covers `serialize_fasta_seqs`,
  `deserialize_fasta_seqs` and `accept_op`, with the round trip and the
  algebra of the vote combine.
- `BmUtils` (`bm_utils.dfy`): `naiive_alnmt`, `select_partn` and
  `remove_glbl_gaps`.
- `ParseFasta` (`parse_fasta.dfy`): the line grouping of `parse_fasta`.

## Model

| member | source | states |
|---|---|---|
| ProfileDP.Choose | code/basic_alignment.cpp:86-98 | the chosen value is at least all three candidates and equals the one its direction names; horizontal iff it is at least both others, vertical iff strictly above horizontal and at least diagonal, diagonal iff strictly above both |
| ProfileDP.BorderScores | code/basic_alignment.cpp:68-76 | row 0 and column 0 hold `j*gapPenalty*|group1|` and `i*gapPenalty*|group2|` |
| ProfileDP.MismatchesBound | code/basic_alignment.cpp:149-167 | the mismatch count never exceeds the number of cross-group pairs |
| ProfileDP.MismatchesZeroIff | code/basic_alignment.cpp:149-167 | the count is zero iff every cross-group pair agrees at the two columns |
| ProfileDP.MismatchesSymmetric | code/align.cpp:110-125 | swapping the two groups and their column indices leaves the count unchanged |
| ProfileDP.MismatchesPeelColumn | code/align.cpp:110-125 | the count over `cols` sequences is the count over `cols - 1` plus the mismatches of the last sequence |
| ProfileDP.PatternLength | code/basic_alignment.cpp:121-141 | a pattern without double gaps has between max and sum of its consumed column counts entries |
| ProfileDP.PathScoreAppend | code/basic_alignment.cpp:79-103 | one more gap position adds the horizontal, vertical or diagonal step cost of its kind |
| ProfileDP.NoPathBeatsScoreAt | code/basic_alignment.cpp:79-103 | no gap pattern reaching (i, j) scores more than `Score[i][j]` |
| ProfileDP.WalkFrom | code/basic_alignment.cpp:121-141 | the walk from (i, j) has no double gap, consumes exactly i columns of group 1 and j of group 2, and has between max(i, j) and i + j entries |
| ProfileDP.WalkIsOptimal | code/basic_alignment.cpp:121-141 | following the recurrence's own directions from (i, j) yields a pattern scoring exactly `Score[i][j]` |
| ProfileDP.DiagonalScore | code/basic_alignment.cpp:84-102 | where the stored move is diagonal, `Score[i][j]` is `Score[i-1][j-1]` plus the merge cost |
| ProfileDP.HorizontalScore | code/basic_alignment.cpp:72-102 | where the move is horizontal, `Score[i][j]` is `Score[i][j-1]` plus a gap column in group 1 |
| ProfileDP.VerticalScore | code/basic_alignment.cpp:68-102 | where the move is vertical, `Score[i][j]` is `Score[i-1][j]` plus a gap column in group 2 |
| ProfileDP.WalkDiagonalStep | code/basic_alignment.cpp:125-129 | a diagonal step of the walk keeps its score equal to `Score[i][j]` |
| ProfileDP.WalkHorizontalStep | code/basic_alignment.cpp:130-133 | a horizontal step of the walk keeps its score equal to `Score[i][j]` |
| ProfileDP.WalkVerticalStep | code/basic_alignment.cpp:134-138 | a vertical step of the walk keeps its score equal to `Score[i][j]` |
| ProfileDP.WalkFromCornerIsOptimal | code/basic_alignment.cpp:44-145 | forwardPass then reversePass: the walk from (n, m) scores `Score[n][m]` and no pattern over all columns scores more |
| ProfileDP.Reversed | code/align.cpp:105 | reversal keeps the length |
| ProfileDP.ReversedAppend | code/align.cpp:105 | reversing `s + [x]` gives `[x] + Reversed(s)` |
| ProfileDP.PushReversed | code/align.cpp:82-105 | collecting the walk's steps in walk order and reversing them at the end gives the left-to-right pattern |
| Align.ScoreBtwGroupSeq | code/align.cpp:110-125 | the result is `diff` times the number of differing cross-group residue pairs at columns i and j |
| Align.ForwardPass | code/align.cpp:5-70 | fresh (n+1) x (m+1) matrices whose every score cell is `ScoreAt` and whose directions match the recurrence |
| Align.InitBorders | code/align.cpp:29-37 | after the border loops, column 0 and row 0 hold the recurrence's values and directions |
| Align.FillRow | code/align.cpp:40-65 | one pass of the outer loop completes row i given rows before it |
| Align.ReversePass | code/align.cpp:74-106 | the gap positions are the backtrack walk from (n, m), left to right |
| Align.StepBack | code/align.cpp:82-102 | one step yields the gap position of the stored move and a strictly earlier cell, and the walk splits there |
| Align.AlignGroups | code/align.cpp:128-131 | returns 0 and leaves the gap positions unchanged |
| Align.UpdateAlnmt | code/align.cpp:133-136 | leaves the alignment and gap positions unchanged |
| BasicAlignment.Residues | code/basic_alignment.cpp:9-11 | the residue strings of a group, one per sequence, in order |
| BasicAlignment.MultipleAlignmentObject.constructor | code/basic_alignment.cpp:18-31 | the source class has no constructor: this stands for default construction (empty vectors and `bestScore = 0` from the member initialisers) followed by the caller assigning the public fields `group1`, `group2`, `gapPenalty` and `diff` |
| BasicAlignment.MultipleAlignmentObject.PartitionGroup | code/basic_alignment.cpp:34-40 | changes nothing |
| BasicAlignment.MultipleAlignmentObject.ForwardPass | code/basic_alignment.cpp:44-109 | both matrices hold the recurrence and bestScore is `Score[n][m]`; groups, constants and gap positions unchanged |
| BasicAlignment.MultipleAlignmentObject.ReversePass | code/basic_alignment.cpp:113-145 | gapPositions is the walk from (n, m); it consumes every column once, scores bestScore, and no other pattern scores more |
| BasicAlignment.MultipleAlignmentObject.ScoreBtwGroupSeq | code/basic_alignment.cpp:149-167 | `diff` times the mismatch count; within `[0, diff*|g1|*|g2|]` for non-negative diff; zero iff diff is 0 or all pairs agree |
| BasicAlignment.MultipleAlignmentObject.Modify | code/basic_alignment.cpp:176-178 | returns the group unchanged |
| LocalDP.H | code/alignment.cpp:138-183 | every local score is non-negative |
| LocalDP.CellDominates | code/alignment.cpp:143-170 | every inner cell is at least its diagonal step and at least either neighbour minus a gap opening |
| LocalDP.BChoose | code/alignment.cpp:315-324 | the kept value is at least all three candidates; 'd' iff diagonal is at least both, 'h' iff not and horizontal at least vertical, 'v' otherwise |
| LocalDP.CountTotal | code/alignment.cpp:331-346 | every move of the walk is one of the three kinds |
| LocalDP.WalkCounts | code/alignment.cpp:329-346 | the walk from (ii, jj) reaches (0, 0): diagonal plus vertical moves are ii, diagonal plus horizontal moves are jj |
| LocalDP.WalkStep | code/alignment.cpp:332-345 | the walk is its next move followed by the walk from the cell it leads to |
| LocalDP.WalkLength | code/alignment.cpp:294 | the walk has between max(n, m) and n + m moves, so displ's 2(n+m)+1 entries suffice |
| LocalDP.EncodeShape | code/alignment.cpp:40-58 | the encoded path is the add values in order followed by one entry holding minus the number of vertical moves |
| LocalDP.AddedValuesSums | code/alignment.cpp:334-339 | the add values hold one 0 per diagonal move and ones summing to the horizontal moves |
| LocalDP.EncodeCounts | code/alignment.cpp:329-346 | zeros count diagonal moves, positive entries sum to horizontal moves, negative magnitudes sum to vertical moves, and no more entries than moves |
| LocalDP.Expand | code/alignment.cpp:358-387 | one displ entry lays out one column for 0, e columns for e > 0 and -e columns for e < 0 |
| LocalDP.Rows | code/alignment.cpp:355-387 | the three printed lines each have one character per column |
| LocalDP.RowsColumns | code/alignment.cpp:358-387 | column k prints its top and bottom characters; the middle is '\|' iff a matched pair of equal residues (then top and bottom agree), else a space |
| LocalDP.SegmentSplit | code/alignment.cpp:369-385 | consecutive reads of j and then k codes are one read of j + k codes |
| LocalDP.GapRun1Reads | code/alignment.cpp:373-378 | a positive run reads nothing of sequence 1 and k consecutive codes of sequence 2 |
| LocalDP.GapRun2Reads | code/alignment.cpp:381-386 | a negative run reads k consecutive codes of sequence 1 and nothing of sequence 2 |
| LocalDP.ExpandReads | code/alignment.cpp:358-387 | one entry reads `Use1(e)` codes of sequence 1 and `Use2(e)` of sequence 2, contiguously |
| LocalDP.TraceReads1 | code/alignment.cpp:357-388 | the top line reads sequence 1 contiguously from i1, skipping and repeating nothing |
| LocalDP.TraceReads2 | code/alignment.cpp:357-388 | the bottom line reads sequence 2 contiguously from i2 |
| LocalDP.UsedSums | code/alignment.cpp:357-388 | sequence 1 is advanced by zeros plus negative magnitudes, sequence 2 by zeros plus positive entries |
| LocalDP.TraceOfWalk | code/alignment.cpp:329-388 | laid out from the encoded walk, the columns read exactly n codes of sequence 1 and m of sequence 2 |
| LocalDP.SegmentSlice | code/alignment.cpp:360-385 | inside the vector, the codes read are a slice of it |
| LocalDP.TraceOfWindow | code/alignment.cpp:289-388 | tracePath from (sb1, sb2) prints exactly `seq1[sb1..sb1+n)` on the top line and `seq2[sb2..sb2+m)` on the bottom, in order |
| LocalDP.Digits | code/alignment.cpp:390-393 | to_string's digits: non-empty, all decimal digits |
| LocalDP.DigitsRoundTrip | code/alignment.cpp:390-393 | the digits read back as the number they came from |
| MultiGroup.MultiGroupAlignment.constructor | code/alignment.cpp:61-77 | stores the penalties, zeroes the scalars, both best indices -1, substitution matrix 10 on the diagonal and -5 elsewhere |
| MultiGroup.MultiGroupAlignment.ForwardPass | code/alignment.cpp:120-184 | maxScore is the largest local score and (se1, se2) the first cell reaching it (0 and (0, 0) if none is positive); HH and DD hold the last rows of H and D |
| MultiGroup.MultiGroupAlignment.InitRows | code/alignment.cpp:124-132 | HH all 0 and DD all -gapOpen, m + 1 entries each |
| MultiGroup.MultiGroupAlignment.ForwardRow | code/alignment.cpp:138-183 | one outer pass turns HH and DD into row i and keeps the best over the cells seen |
| MultiGroup.MultiGroupAlignment.ForwardStep | code/alignment.cpp:143-182 | one inner pass computes, stores and considers cell (i, j) |
| MultiGroup.MultiGroupAlignment.ForwardCell | code/alignment.cpp:144-170 | the computed values are `H[i][j]`, `F[i][j]` and `D[i][j]` |
| MultiGroup.MultiGroupAlignment.StoreCell | code/alignment.cpp:173-174 | HH[j] and DD[j] move to row i and the next diagonal is the old HH[j] |
| MultiGroup.MultiGroupAlignment.Consider | code/alignment.cpp:176-181 | a strictly larger score becomes the best; the first cell reaching the best is kept |
| MultiGroup.MultiGroupAlignment.ReversePass | code/alignment.cpp:228-286 | the start is (1, 1) at cost 0 or the first cell in scan order beating all before it; the whole window is scanned when cost stays below maxScore; only row se1 when maxScore is not positive |
| MultiGroup.MultiGroupAlignment.ScanRows | code/alignment.cpp:235-283 | the outer loop with both breaks ends in that scan result |
| MultiGroup.MultiGroupAlignment.BorderRows | code/alignment.cpp:232-233 | HH_rev and DD_rev start as the outside border row of -1s |
| MultiGroup.MultiGroupAlignment.ReverseRow | code/alignment.cpp:236-282 | one row either reaches maxScore, ending the scan, or leaves row i in the arrays for the next |
| MultiGroup.MultiGroupAlignment.ReverseStep | code/alignment.cpp:240-277 | one inner pass either stops at a cost reaching maxScore or advances the row state |
| MultiGroup.MultiGroupAlignment.ReverseCell | code/alignment.cpp:241-264 | the computed values are `RH`, `RF` and `RD` at (i, j), without a clamp at 0 |
| MultiGroup.MultiGroupAlignment.Add | code/alignment.cpp:40-48 | the path becomes `AddSpec(old path, v)`: appended, or slipped before a trailing vertical run |
| MultiGroup.MultiGroupAlignment.Del | code/alignment.cpp:51-58 | the path becomes `DelSpec(old path, k)`: a trailing vertical run grows, or one is started |
| MultiGroup.MultiGroupAlignment.Backtrack | code/alignment.cpp:289-347 | displ is fresh with 2(n+m)+1 entries and holds exactly the encoded backtrack walk over the window, using at most n + m of them |
| MultiGroup.MultiGroupAlignment.Walk | code/alignment.cpp:329-346 | the loop records the encoding of the whole walk |
| MultiGroup.MultiGroupAlignment.BackStep | code/alignment.cpp:332-345 | one move is recorded and the walk advances to a strictly earlier cell |
| MultiGroup.MultiGroupAlignment.Record | code/alignment.cpp:334-343 | add(0), add(1) or del(1) emits the move onto the path |
| MultiGroup.MultiGroupAlignment.Refill | code/alignment.cpp:299-326 | fresh (n+1) x (m+1) direction matrix holding the window recurrence's directions |
| MultiGroup.MultiGroupAlignment.RefillCell | code/alignment.cpp:306-324 | the cell is the window recurrence's value and direction |
| MultiGroup.MultiGroupAlignment.RefillRow | code/alignment.cpp:304-325 | one outer pass completes row ii |
| MultiGroup.MultiGroupAlignment.TracePath | code/alignment.cpp:350-396 | the result is the report of the score, the two best indices and the lines laid out from the path starting at (sb1, sb2) |
| MultiGroup.MultiGroupAlignment.LayOutPath | code/alignment.cpp:351-388 | the loop's three lines are those of the columns of displ[1..printPtr) |
| MultiGroup.LayOut | code/alignment.cpp:357-388 | one pass lays out entry k and keeps the trace state |
| MultiGroup.LayEntry | code/alignment.cpp:358-387 | appends the entry's columns and advances the read positions by what it consumes |
| MultiGroup.GapRun1Out | code/alignment.cpp:373-378 | k columns of '-' over consecutive codes of sequence 2 |
| MultiGroup.GapRun2Out | code/alignment.cpp:381-386 | k columns of consecutive codes of sequence 1 over '-' |
| MultiGroup.MultiGroupAlignment.DivideIntoGroups | code/alignment.cpp:80-117 | empty groups for fewer than 3 sequences; otherwise the first two shuffled indices and the rest, disjoint, without repeats, covering every index |
| MultiGroup.Shuffle | code/alignment.cpp:97-100 | afterwards position k holds what position order[k] held |
| MultiGroup.PermutationSplits | code/alignment.cpp:103-108 | cutting a permutation gives two disjoint groups that cover every index |
| MultiGroup.MultiGroupAlignment.CalculateScoreMatrix | code/alignment.cpp:187-207 | numSeq x numSeq; every cross-group pair holds its best local score at [i][j] and [j][i]; every other cell 0 |
| MultiGroup.MultiGroupAlignment.ScoreRow | code/alignment.cpp:194-206 | one outer pass scores group1[a] against all of group2 |
| MultiGroup.MultiGroupAlignment.ScorePair | code/alignment.cpp:195-205 | one inner pass scores one pair, in both cells |
| MultiGroup.ZeroScores | code/alignment.cpp:188-189 | a fresh numSeq x numSeq matrix, numSeq being the number of sequences, whose every cell is 0, so no pair is scored yet |
| MultiGroup.StoreScore | code/alignment.cpp:200-201 | the pair's best score is stored at [i][j] and at [j][i], and the row-major scan state advances by one pair |
| MultiGroup.BestScoreIsMax | code/alignment.cpp:177-181 | the best local score is non-negative, bounds every inner cell, and is reached when not 0 |
| MultiGroup.BestScoreUnique | code/alignment.cpp:177-181 | two best scores of the same pair are equal |
| MultiGroup.MultiGroupAlignment.FindBestPair | code/alignment.cpp:210-225 | (-1, -1) iff no pair scores above -1; otherwise a cross-group pair with the highest score, the first such in loop order |
| MultiGroup.MultiGroupAlignment.PairRow | code/alignment.cpp:215-222 | one outer pass keeps the scan state over group1[a] |
| MultiGroup.MultiGroupAlignment.PairStep | code/alignment.cpp:217-220 | a strictly higher score takes over |
| MultiGroup.PairScanDone | code/alignment.cpp:210-225 | at the end of the loops: (-1, -1) iff no pair scores above -1, else the first best pair |
| MultiGroup.ScoresAll | code/alignment.cpp:194-206 | after all pairs, the matrix holds every cross-group best score symmetrically and 0 elsewhere |
| MultiGroup.ScoresAboveMinusOne | code/alignment.cpp:413-415 | with both groups non-empty, some cross-group pair scores above -1, so the failure message is never returned |
| MultiGroup.MultiGroupAlignment.AlignSequences | code/alignment.cpp:399-435 | the message for fewer than 3 sequences; otherwise the chosen pair is the first best of the cross-group scores, and the result prints the encoded walk over its window |
| MultiGroup.MultiGroupAlignment.ChoosePair | code/alignment.cpp:405-418 | divide, score and find the best pair, stored as the best indices |
| MultiGroup.MultiGroupAlignment.PickBest | code/alignment.cpp:411-418 | the pair findBestPair returns becomes the best indices |
| MultiGroup.MultiGroupAlignment.AlignChosen | code/alignment.cpp:424-434 | aligning the chosen pair keeps the choice and yields its report |
| MultiGroup.MultiGroupAlignment.AlignPair | code/alignment.cpp:425-434 | forward, reverse, backtrack and trace give the report of the window's encoded walk |
| MultiGroup.MultiGroupAlignment.FindEnds | code/alignment.cpp:425-428 | forwardPass then reversePass set the best score, its end cell and a start before it |
| MultiGroup.MultiGroupAlignment.BacktrackAndTrace | code/alignment.cpp:431-434 | backtrack then tracePath print the encoded walk over the window |
| MultiGroup.MultiGroupAlignment.KeepStarted | code/alignment.cpp:431 | backtrack leaves the forward and reverse results as they were and records the encoded walk |
| MultiGroup.MultiGroupAlignment.StringToIntVector | code/alignment.cpp:438-445 | one longer than s, 0 first, then each character as a signed char; char() gives each character back; a residue vector iff every character is below 128 |
| BmComm.SerializeFastaSeqs | code/bm_comm.cpp:18-40 | the byte count is the sum of the field lengths plus one NUL each, and the buffer is the records' fields, each NUL-terminated, in order |
| BmComm.DeserializeFastaSeqs | code/bm_comm.cpp:42-69 | the result is one record per three consecutive NUL-terminated fields of `bytes[..numBytes]`; a trailing partial record is dropped |
| BmComm.ParseByte | code/bm_comm.cpp:49-66 | one pass over a byte keeps the parse state: a NUL closes the field that began after the previous NUL |
| BmComm.CloseField | code/bm_comm.cpp:51-64 | storing a closed field in the record and completing the record after the third keeps the parse state |
| BmComm.FieldsStep | code/bm_comm.cpp:50-65 | reading one more byte closes a field iff it is a NUL, and the next field starts after it |
| BmComm.EncodeSize | code/bm_comm.cpp:20-24 | the buffer is exactly as long as the byte count computed first |
| BmComm.RecordsCount | code/bm_comm.cpp:51-62 | three fields per record, rounded down |
| BmComm.FieldsCount | code/bm_comm.cpp:49-66 | one field per NUL |
| BmComm.DecodeCount | code/bm_comm.cpp:42-69 | the number of records returned is the number of NULs divided by 3 |
| BmComm.DecodeIgnoresTail | code/bm_comm.cpp:42-69 | bytes after the last NUL change nothing in the result |
| BmComm.FieldsAppend | code/bm_comm.cpp:49-66 | splitting the buffer just after a NUL splits the field list |
| BmComm.EncodeFields | code/bm_comm.cpp:29-36 | the encoding of NUL-free records holds exactly their fields, in order, and ends with a NUL |
| BmComm.RecordsOfFields | code/bm_comm.cpp:58-61 | regrouping the field list of records gives those records back |
| BmComm.RoundTrip | code/bm_comm.cpp:18-69 | deserialize undoes serialize when no field holds a NUL |
| BmComm.AcceptOp | code/bm_comm.cpp:71-93 | each inout[i] below len becomes the combine of in[i] and inout[i], the rest is unchanged, and `in` is not written |
| BmComm.CombineCommutes | code/bm_comm.cpp:77-89 | the combine does not depend on the order of its two sides |
| BmComm.CombineAssociates | code/bm_comm.cpp:77-89 | nor on how three votes are grouped |
| BmComm.FoldVotes | code/bm_comm.cpp:71-93 | a list of votes reduces to Accept iff one accepts, then to the smallest accepting pid; otherwise to (-1, Reject) |
| BmComm.FoldSplit | code/bm_comm.cpp:71-93 | splitting the votes anywhere and combining the halves gives the same result |
| BmUtils.Longest | code/bm_utils.cpp:11-18 | no record is longer |
| BmUtils.LongestAttained | code/bm_utils.cpp:11-18 | the longest length is attained by some record, and 0 for none |
| BmUtils.NaiiveAlnmt | code/bm_utils.cpp:8-27 | one row per record, in order: its residues followed by dashes up to the longest length, so every row has that length |
| BmUtils.SelectPartn | code/bm_utils.cpp:29-36 | the first two sequences are appended to group1 and the rest, in order, to group2 |
| BmUtils.SelectPartnSplits | code/bm_utils.cpp:29-36 | what the two groups gain, taken together, is the input, nothing lost or reordered |
| BmUtils.RemoveGlblGaps | code/bm_utils.cpp:38-41 | returns the group unchanged |
| ParseFasta.ParseFasta | code/parse_fasta.cpp:13-43 | the result is the flushed sequences of the line grouping followed by the last one |
| ParseFasta.StepsAppend | code/parse_fasta.cpp:27-39 | running the loop over two stretches of lines is running it over one then the other |
| ParseFasta.BodySteps | code/parse_fasta.cpp:36-38 | body lines only extend the current sequence |
| ParseFasta.StepsCount | code/parse_fasta.cpp:27-39 | a header has been seen iff there is one, and one fewer sequences than headers are flushed |
| ParseFasta.ParsedCount | code/parse_fasta.cpp:13-43 | as many sequences as headers, and one when there is none |
| ParseFasta.ParsedNoHeader | code/parse_fasta.cpp:27-40 | without a header all lines form one sequence |
| ParseFasta.ParsedDropsPreamble | code/parse_fasta.cpp:28-35 | lines before the first header are dropped |
| ParseFasta.ParsedSection | code/parse_fasta.cpp:27-40 | a header with its body lines yields the body joined, followed by what the rest yields |
| ParseFasta.HeaderTextIgnored | code/parse_fasta.cpp:28-35 | what a header line says changes nothing in the result |

## Left out

- Integer width: every `int` of the source is a 32-bit C++ `int`, and the model uses unbounded integers. Score sums, gap penalties times group sizes, and `displ` entries are taken not to overflow.
- Console output (`cout`, `cerr`) is left out, as are the driver programs `bm_par.cpp` and `bm_seq.cpp` (option parsing, MPI setup, file reading).
- MPI itself: `accept_op` is modelled as a function over two arrays. Registering it as a reduction operation, and the `MPI_Datatype` argument, are not modelled.
- MultiGroup.MultiGroupAlignment.DivideIntoGroups: `random_device`, `mt19937` and `shuffle` are replaced by a permutation parameter `order`. The model proves its results for any permutation, not for the distribution.
- `resize` on a vector that already has entries keeps them. The model allocates fresh arrays instead. State left over from earlier calls, such as the rows and columns a second `calculateScoreMatrix` on a differently sized input would keep, is therefore not modelled.
- LocalDP.At: `tracePath` reads `seq1[i1]` and `seq2[i2]` without bounds checks. An index outside the vector is undefined behaviour in the source; the model yields 0 there. The window theorem (`TraceOfWindow`) shows that the path `backtrack` builds never reads outside the window.
- LocalDP.Char and LocalDP.SignedChar take it that `char` is signed and 8 bits wide, as on the usual targets. On a platform with unsigned `char`, `stringToIntVector` would store 128..255 instead of -128..-1.
- MultiGroup.MultiGroupAlignment.ReversePass: the reversed recurrence is specified on its own terms. The model does not prove that the start cell it finds lies on an optimal local alignment ending at (se1, se2). The comment at `code/alignment.cpp:427` promises optimal starting positions. The model proves only what the loop does: it takes the first cell, in scan order, whose reversed score reaches `maxScore`.
- MultiGroup.MultiGroupAlignment.ReversePass returns `cost`, a local of the source, as a ghost result, so that callers can state the scan result.
- MultiGroup.MultiGroupAlignment.CalculateScoreMatrix requires group indices inside `sequences` and residue vectors whose codes index the 256 x 256 substitution matrix. The source reads out of bounds otherwise.
- MultiGroup.MultiGroupAlignment.AlignSequences requires every sequence to be a residue vector with at least its placeholder entry, and residue codes that index `matrix`. The only caller, `main` (`code/alignment.cpp:468`), builds every vector with `stringToIntVector`, which always puts the placeholder 0 first (`code/alignment.cpp:438-445`). It does not restate the score matrix's contents, which `CalculateScoreMatrix` states; it states the chosen pair and the report.
- The "Failed to find a good pair for alignment." branch (`code/alignment.cpp:413-415`) is proved unreachable by `ScoresAboveMinusOne` and has no result of its own.
- BmComm.SerializeFastaSeqs: the `malloc` buffer and the `memcpy` calls are modelled as a sequence of characters built record by record. Allocation failure and freeing are not modelled.
- BmComm.DeserializeFastaSeqs reads fields with `std::string(curr_str_start)`, which stops at the first NUL. That is the same field boundary the model uses, because fields are delimited by NULs.
- ParseFasta.ParseFasta takes the file's lines as a parameter. Opening the file with `ifstream`, the error path that calls `exit`, and `getline`'s handling of line terminators are not modelled.
- The headers and the `.cpp` files disagree in places, and the model follows the `.cpp` files:
  - `code/parse_fasta.h` declares `fasta_seq_t` with a field `id` and `parse_fasta` returning records, while `bm_comm.cpp` uses `ident` and `parse_fasta.cpp` returns strings;
  - `code/align.h` and `code/bm_utils.h` declare `align_groups`, `update_alnmt` and `select_partn` with other parameters;
  - `naiive_alnmt` pushes whole residue strings into a group of `seq_t`;
  - `code/align.h` declares `seq_t` as a struct holding an `int id` and a `std::string data`, while `code/align.cpp` uses each element of a group as a string (`group1[0].length()`, `group1[k][i]`). `Align` follows `align.cpp` and takes groups as sequences of strings.
- BasicAlignment.MultipleAlignmentObject.PartitionGroup and Modify, Align.AlignGroups and Align.UpdateAlnmt, and BmUtils.RemoveGlblGaps are stubs in the source. Their contracts say only that nothing changes.
