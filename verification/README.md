# Complementary-region post-processing, modelled in Dafny

The repository is a set of small Python filters that sit in a paired-end
RNA-seq pipeline around `samtools` and `intersectBed`. Four of them form the
core modelled here:

- **append_nh** (`append_nh.py`) rewrites each SAM alignment line: the MAPQ
  field is replaced by the value of the `NH:i:` tag in field 11, and the read
  name is prefixed by the sorted pair of the read's and its mate's positions,
  so both mates of a fragment get the same name. Header lines (`@…`) pass
  through unchanged.
- **parse** (`parse.py`, module `Tally`) reads `intersectBed` output of reads
  against regions and tallies, per region, the reads on each strand. A read
  weighs `1/NH`; the second mate's strand is flipped (`chr(88 - ord(s))`);
  a fragment is counted once per region however many of its mates hit it.
- **annotate** (`annotate.py`) reads `intersectBed -wao` output of regions
  against transcripts, groups the lines by region id in first-seen order and
  labels each region `intergenic`, the type of its only transcript,
  `inverted_tx` (transcripts on both strands) or `multiple_tx`, with the
  comma-joined transcript symbols; it prints one long row per region.
- **collapse** (`collapse.py`) reads the annotator's rows, sorted by
  chromosome and start, and merges each run of regions that overlap or lie at
  most 100 bases apart into one interval; it numbers the intervals and prints
  one long-format row per original region.

Files: `results.dfy` (Option/Result), `text.dfy` (Python string operations:
`str.split`, `sep.join`, `sorted` of two strings, `int()`/`str()` of
integers), `annotate.dfy`, `collapse.dfy`, `tally.dfy`, `append_nh.dfy`, and
`pipeline.dfy`, which connects the stages: what the annotator writes the
collapser reads, and what the NH rewrite does to read names makes mates one
fragment in the tally.

Annotate, collapse and parse read their whole input before writing
anything, so each is a pure function from the input's lines to either the
output lines or the first error that would abort the Python program
(`IndexError`, `ValueError`, …), modelled as error constructors. append_nh
writes each line as soon as it has rewritten it, so its model returns the
lines written before it stopped together with the error that stopped it, if
any.

## Model

| member | source | states |
|---|---|---|
| Results.MapAll | annotate.py:140-148 | a per-line parse of a whole file succeeds exactly when every line parses, keeps one value per line in order, and otherwise fails with the error of the first line that does not parse |
| Text.Split | append_nh.py:23 | `s.split(c)` yields at least one piece, no piece contains `c`, and joining the pieces with `c` gives back `s` |
| Text.SplitJoin | append_nh.py:23 | splitting a `c`-join of pieces free of `c` returns exactly those pieces |
| Text.LastPart | append_nh.py:23 | `s.split(c)[-1]` is the suffix of `s` after its last `c`: it is free of `c`, ends `s`, and is preceded by `c` when shorter than `s` |
| Text.Words | append_nh.py:20 | every word `str.split()` returns is non-empty and free of whitespace |
| Text.WordsOfJoin | append_nh.py:31 | splitting a tab-join of whitespace-free non-empty fields followed by the newline gives back exactly those fields |
| Text.SortPair | append_nh.py:29 | `sorted([a, b])` is a permutation of `a`, `b` in non-decreasing string order |
| Text.SortPairSymmetric | append_nh.py:29 | sorting a pair does not depend on the order it is given in |
| Text.LessTrichotomy | append_nh.py:29 | Python's string order is total and strict on distinct strings |
| Text.ParseInt | collapse.py:15-18 | `int()` (`ToInt` in the stages, with the stage's own error) accepts exactly an optionally signed non-empty run of decimal digits |
| Text.ParseIntOfIntToString | collapse.py:84 | `int(str(n)) == n` for every integer |
| Text.Decimal | annotate.py:52-53 | the decimal text written for an integer reads back as that integer |
| Annotate.RegionFromList | annotate.py:36-42 | a region is built from fields 0–4 and 6–12 with start, end and width parsed as integers, unannotated and without overlaps; fewer than 13 fields is the wrong-length error |
| Annotate.OverlapFromList | annotate.py:121-126 | an overlap takes the 9 fields in order, parses start, end and overlap length, and has width -1 exactly for the null chromosome `.`, whose width text is never parsed |
| Annotate.ParseRow | annotate.py:141-143 | a line is split into the region (first 13 fields) and its overlap (the rest); the region's error is reported before the overlap's |
| Annotate.ParseRows | annotate.py:140-143 | the file parses iff every line does; the parsed rows correspond line by line, else the first failing line's error |
| Annotate.StrandsMoreThanOne | annotate.py:99 | `len(set(strands)) > 1` holds exactly when two overlaps lie on different strands |
| Annotate.Classify | annotate.py:83-103 | one null overlap is `intergenic`/`NA`, one real overlap gives its type and symbol; otherwise the type is `inverted_tx` iff the strands are mixed and `multiple_tx` iff they are not, and the symbol is the overlaps' symbols joined by `,` in order |
| Annotate.MultiOverlapSymbols | annotate.py:103 | for several overlaps none of whose symbols contains a comma, the symbol field splits back on commas into the overlaps' symbols, in order |
| Annotate.Annotate | annotate.py:69-105 | annotating stores the classification of the region's overlaps and changes nothing else |
| Annotate.AnnotateIdempotent | annotate.py:50-51 | annotating twice is the same as annotating once |
| Annotate.PrintAnnotatesOnDemand | annotate.py:50-51 | `long` and `short` of a region not yet annotated equal those of the annotated region, and after `annotate` the annotation they print (`CurrentAnnotation`) is the classification of the region's overlaps |
| Annotate.Long | annotate.py:47-57 | the long row has 15 fields: position, id, width, strand `+`, the seven statistics and the annotation, with the integers written so they read back |
| Annotate.Short | annotate.py:59-67 | the short row is the long row without position, width and strand: its id followed by its last nine fields |
| Annotate.Group | annotate.py:139-148 | grouping (one `AddRow` per line, `AddOverlap` on a known id) gives one region per distinct id, covering every row's id, in first-seen order, with the header of the first row of that id and the overlaps of all its rows in input order |
| Annotate.GroupKeepsEveryRow | annotate.py:144-148 | no overlap is lost or duplicated: the groups hold as many overlaps as there were rows |
| Annotate.Emit | annotate.py:150-153 | one row per group: its chromosome, start, end, id, width, strand `+`, seven statistics, and the classification of its overlaps |
| Annotate.EmitGrouped | annotate.py:150-153 | the output lists every id once, in order of first appearance, each with the position, width and statistics of the first line of that id and classified from exactly the overlaps of its lines |
| Annotate.EmitGroupedHeaders | annotate.py:144-153 | every output row carries the header of the first line with its id |
| Annotate.Run | annotate.py:133-153 | the annotator succeeds iff every line parses, and then writes one row per distinct region |
| Annotate.RunOutput | annotate.py:133-153 | on parsed input the whole stage writes the output described for `EmitGrouped` |
| Collapse.FromLine | collapse.py:45-49 | a line is accepted iff it has exactly 15 fields with integer start, end and width; it becomes a one-member interval with no uid yet, carrying every field |
| Collapse.ParseLines | collapse.py:103-104 | the file parses line by line, or fails with the first bad line's error |
| Collapse.JoinsIsNear | collapse.py:108-109 | with a non-negative buffer the intersect test adds nothing to `near`; a gap of exactly the buffer merges and one base more does not |
| Collapse.Merge | collapse.py:59-76 | merging concatenates the member lists in order, keeps chromosome, start, strand and uid, takes the larger end and sets width to end minus start |
| Collapse.Step | collapse.py:105-112 | one loop iteration keeps the member lists aligned and adds at most one interval |
| Collapse.Collapse | collapse.py:101-112 | the merge loop keeps every member id in order, never leaves two neighbours that would still merge, and returns no more intervals than inputs |
| Collapse.MergeAllSpec | collapse.py:59-76 | merging a run gives the first region's chromosome, start and strand, the run's largest end, all its ids, and width end minus start unless nothing was merged |
| Collapse.CollapseBlocks | collapse.py:103-112 | the input splits into consecutive runs covering it in order, output interval k is the merge of run k, and every region after the first of a run passed the merge test against the interval merged from the regions before it in that run |
| Collapse.CollapseCovers | collapse.py:62-63 | on input sorted by start, every region lies on its interval's chromosome and inside its interval |
| Collapse.AssignUids | collapse.py:115-116 | interval k gets uid k and nothing else changes |
| Collapse.LongRow | collapse.py:83-90 | the long row of member k has 16 fields: uid, chromosome, start, end, the member's id, width, strand, its seven statistics and its annotation |
| Collapse.Long | collapse.py:78-92 | an interval writes one long row per member, in order |
| Collapse.EmitIds | collapse.py:115-117 | the written rows carry, in order, exactly the member ids of the intervals |
| Collapse.RunWith | collapse.py:95-117 | the collapser succeeds iff every line parses |
| Collapse.CollapseKeepsMembers | collapse.py:103-112 | the merge loop keeps every member (id, statistics, type and symbols), in input order |
| Collapse.EmitRows | collapse.py:78-92 | `Emit` writes, in order, for each interval and each of its members, that member's long row |
| Collapse.RunKeepsEveryMember | collapse.py:95-117 | one output row per input line, in input order, carrying that line's id, statistics and annotation; the uid column starts at 0 and each row has the previous row's uid, then with the same chromosome, start, end, width and strand, or the next one |
| Tally.FlipSwapsSigns | parse.py:31-32 | the flip `chr(88 - ord(s))` swaps `+` and `-` and undoes itself |
| Tally.FragmentName | parse.py:21 | the fragment name is the read name without its last two characters |
| Tally.FragmentStrand | parse.py:27-32 | mate 1 keeps its read strand; any other mate on `+` counts on `-` and on `-` counts on `+` |
| Tally.PairedName | parse.py:20-21 | a name `<fragment>/<m>` splits into the fragment and mate `m` |
| Tally.MatesAgree | parse.py:27-32 | two mates read on opposite strands count on the same strand |
| Tally.HitFromLineSpec | parse.py:19-37 | a line yields a hit iff it has 16 fields, an integer NH that is not zero and a usable read name, with the error of the first check that fails; the hit (built by `MakeHit`) has the read name less its last two characters as fragment, its last character as mate, field 5 as read strand, the mate's strand, field 15 as region id, and weight `1/NH` |
| Tally.Add | parse.py:58-67 | a fragment already seen changes nothing; a new one is recorded and adds its weight to exactly the count of its strand; any other strand is an error |
| Tally.AddIdempotent | parse.py:59-60 | adding a second mate of a fragment already counted changes nothing |
| Tally.Find | parse.py:85 | the region lookup finds a region with that id or reports that none has it |
| Tally.RunNeedsHits | parse.py:83-84 | the tally succeeds only if every line yields a hit |
| Tally.RunTallies | parse.py:69-90 | the tally (one `Feed` per line, a new region built by `RegionFromLine`) succeeds iff every line yields a hit that its region accepts; then it holds one region per id in first-seen order, with the header of its first line, the set of its fragments and, per strand, the summed weights of the first hit of each of its fragments on that region |
| AppendNh.NhTagValue | append_nh.py:23 | the last `:`-part of `NH:i:<n>` is `<n>` |
| AppendNh.KeySymmetric | append_nh.py:29 | the key is the smaller position, `:`, the larger, and it is the same whichever of the two positions is the read's own |
| AppendNh.RewriteFields | append_nh.py:22-30 | field 4 becomes the tag value of field 11, field 0 gets the key prefix, every other field is unchanged |
| AppendNh.Run | append_nh.py:15-31 | the filter writes the rewrites of the input lines in order; it writes them all iff every line rewrites, and otherwise stops at the first line that does not, with that line's error |
| AppendNh.RewriteReadsBack | append_nh.py:16-31 | `Rewrite` copies a header line; any other line rewrites iff it has at least 12 fields, is written ending in a newline, and splitting it gives back exactly the rewritten fields |
| AppendNh.MatesShareName | append_nh.py:25-30 | the two mates of a pair get the same new name |
| Pipeline.LongRowCollapses | annotate.py:52-57 | the annotator's long row is read by the collapser as a one-member interval with the same position, width, id, statistics and annotation, on strand `+` |
| Pipeline.AnnotatorFeedsCollapser | collapse.py:45-49 | every row the annotator writes is accepted by the collapser |
| Pipeline.MatesAreOneFragment | parse.py:21 | after the NH rewrite, the `/1` and `/2` mates of a pair have the same fragment name in the tally |
| Pipeline.NhBecomesWeight | parse.py:37 | the NH value moved into the MAPQ field becomes the tally weight `1/NH` of a read whose report carries it, and an NH of zero stops the tally |

## Left out

- Reading `argv`, files and stdin and writing stdout are not modelled: annotate, collapse and parse take each line already split into fields; append_nh takes the raw line, because it tests the `@` prefix and copies header lines verbatim.
- Floating point: `float()` of the statistics is not modelled; they are carried as their text, so a malformed statistic is not an error and `str(float(x))` reformatting (`1` becoming `1.0`) is not reproduced. The tally's weights and counts are exact reals, not binary floats.
- `int()` is modelled for ASCII digits with an optional sign; surrounding whitespace, `_` separators and non-ASCII digits are not accepted.
- `Region.__str__` in collapse.py is never called and is not modelled; the output text of parse.py's `Region.__str__` is not modelled. The tally's regions are kept in the insertion order of the Python dict, which is the order ids are first seen.
- Tally.Add: parse.py line 67 raises with an undefined name, so the program stops with a `NameError`; the model reports `UnknownStrand`. Either way the run aborts.
- Collapse.CollapseCovers: collapse.py does not check that its input is sorted; sortedness is a precondition of this lemma only, and the collapser itself runs on any input.
- Annotate.MultiOverlapSymbols: holds only when no overlap's symbol contains a comma; a symbol with a comma makes the joined field ambiguous, and splitting it yields more pieces than there were overlaps.
- AppendNh.RewriteReadsBack: the read-back holds only when the NH tag has a non-empty value; an empty one leaves an empty field that `str.split()` would drop.
- Exceptions are not distinguished by Python class; each error path is an error constructor holding the offending fields or text.
- annotate.py on a region with no overlaps gives `multiple_tx` with an empty symbol list (Annotate.Classify); the grouping loop never builds such a region, and the model follows the code rather than treating it as an error.
- Collapse.MergeAllSpec: a region that is never merged keeps the width field it was read with; only a merge recomputes width as end minus start. The model follows the code.
