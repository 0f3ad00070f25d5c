/**
  The collapser (collapse.py): annotated regions, sorted by chromosome and
  start, are folded left to right into merged intervals. A region joins the
  interval opened last when it intersects it or starts within `d` of its
  end; otherwise it opens a new interval. A merge concatenates ten
  per-member lists, so every interval keeps one entry per member region.
  At the end intervals are numbered 0, 1, ... and written in long form,
  one row per member.

  Each input line is taken as its list of fields (the result of
  `line.split()`); the statistics are carried as their text.
 */
module Collapse {
  import opened Results
  import Text

  /** `merge_buffer` in `main`, also the default `d` of `near`. */
  const MergeBuffer := 100
  /** The uid an interval has until the output loop numbers it. */
  const Unassigned := -1

  /** collapse.py `Region`: interval-level fields plus ten index-aligned
      per-member lists. */
  datatype Interval = Interval(
    chrom: string, start: int, end: int, width: int, strand: string, uid: int,
    ids: seq<string>, genomicTypes: seq<string>, overlapSymbols: seq<string>,
    cp: seq<string>, cpm: seq<string>, cpkm: seq<string>,
    countS: seq<string>, countAs: seq<string>, rpmS: seq<string>, rpmAs: seq<string>)

  /** What one member region contributes: entry `k` of each of the ten lists. */
  datatype Member = Member(
    id: string, genomicType: string, overlapSymbol: string,
    cp: string, cpm: string, cpkm: string,
    countS: string, countAs: string, rpmS: string, rpmAs: string)

  /** The ten per-member lists have one entry per member. */
  predicate Aligned(iv: Interval) {
    var n := |iv.ids|;
    && |iv.genomicTypes| == n && |iv.overlapSymbols| == n
    && |iv.cp| == n && |iv.cpm| == n && |iv.cpkm| == n
    && |iv.countS| == n && |iv.countAs| == n && |iv.rpmS| == n && |iv.rpmAs| == n
  }

  function MemberAt(iv: Interval, k: nat): Member
    requires Aligned(iv) && k < |iv.ids|
  {
    Member(iv.ids[k], iv.genomicTypes[k], iv.overlapSymbols[k],
           iv.cp[k], iv.cpm[k], iv.cpkm[k], iv.countS[k], iv.countAs[k], iv.rpmS[k], iv.rpmAs[k])
  }

  /** `assert len(f) == 15` failing, or `int()` failing. */
  datatype ParseError = FieldCount(fields: seq<string>) | NotAnInteger(text: string)

  /** `Region.from_line`: exactly 15 fields in the annotator's layout; the
      region becomes an interval of one member with no uid yet. */
  function FromLine(f: seq<string>): (r: Result<Interval, ParseError>)
    ensures |f| != 15 ==> r == Err(FieldCount(f))
    ensures r.Ok? <==>
              |f| == 15 && Text.ParseInt(f[1]).Some? && Text.ParseInt(f[2]).Some?
              && Text.ParseInt(f[4]).Some?
    ensures r.Ok? ==>
              var iv := r.value;
              && Aligned(iv) && |iv.ids| == 1 && iv.uid == Unassigned
              && iv.chrom == f[0] && iv.strand == f[5]
              && Text.ParseInt(f[1]) == Some(iv.start) && Text.ParseInt(f[2]) == Some(iv.end)
              && Text.ParseInt(f[4]) == Some(iv.width)
              && MemberAt(iv, 0) == Member(f[3], f[13], f[14], f[6], f[7], f[8], f[9], f[10], f[11], f[12])
  {
    if |f| != 15 then Err(FieldCount(f))
    else
      var start :- Text.ToInt(f[1], NotAnInteger(f[1]));
      var end :- Text.ToInt(f[2], NotAnInteger(f[2]));
      var width :- Text.ToInt(f[4], NotAnInteger(f[4]));
      Ok(Interval(f[0], start, end, width, f[5], Unassigned,
                  [f[3]], [f[13]], [f[14]], [f[6]], [f[7]], [f[8]], [f[9]], [f[10]], [f[11]], [f[12]]))
  }

  /** Every line parsed in order; the first failing line aborts the pass. */
  function ParseLines(lines: seq<seq<string>>): (r: Result<seq<Interval>, ParseError>)
    ensures r.Ok? ==> |r.value| == |lines|
    ensures r.Ok? ==> forall k :: 0 <= k < |lines| ==> FromLine(lines[k]) == Ok(r.value[k])
    ensures r.Err? ==>
              exists k :: 0 <= k < |lines| && FromLine(lines[k]) == Err(r.error)
                          && forall j :: 0 <= j < k ==> FromLine(lines[j]).Ok?
  {
    MapAll(lines, FromLine)
  }

  // ---------------------------------------------------------------------
  // The merge test and the merge
  // ---------------------------------------------------------------------

  /** `near`: same chromosome and `other` starts at most `d` past `a`'s end. */
  predicate Near(a: Interval, b: Interval, d: int) {
    a.chrom == b.chrom && b.start - a.end <= d
  }

  /** `intersect`: same chromosome and `a` reaches `b`'s start. */
  predicate Intersect(a: Interval, b: Interval) {
    a.chrom == b.chrom && a.end >= b.start
  }

  /** The test `main` applies before merging. */
  predicate Joins(a: Interval, b: Interval, d: int) {
    Intersect(a, b) || Near(a, b, d)
  }

  /** For a non-negative distance the intersection test adds nothing: the
      merge decision is `near` alone, a gap of exactly `d` merges and a gap
      of `d + 1` does not. */
  lemma JoinsIsNear(a: Interval, b: Interval, d: int)
    requires d >= 0
    ensures Joins(a, b, d) <==> Near(a, b, d)
    ensures a.chrom == b.chrom && b.start - a.end == d ==> Joins(a, b, d)
    ensures b.start - a.end == d + 1 ==> !Joins(a, b, d)
  {
  }

  /** `Region.merge`: appends `b`'s members after `a`'s, extends the end and
      recomputes the width; chromosome, start, strand and uid stay `a`'s. */
  function Merge(a: Interval, b: Interval): (m: Interval)
    ensures |m.ids| == |a.ids| + |b.ids| && m.ids == a.ids + b.ids
    ensures Aligned(a) && Aligned(b) ==>
              && Aligned(m)
              && forall k :: 0 <= k < |m.ids| ==>
                   MemberAt(m, k) == if k < |a.ids| then MemberAt(a, k) else MemberAt(b, k - |a.ids|)
    ensures m.chrom == a.chrom && m.start == a.start && m.strand == a.strand && m.uid == a.uid
    ensures m.end >= a.end && m.end >= b.end && (m.end == a.end || m.end == b.end)
    ensures m.width == m.end - m.start
  {
    var end := if a.end >= b.end then a.end else b.end;
    Interval(a.chrom, a.start, end, end - a.start, a.strand, a.uid,
             a.ids + b.ids, a.genomicTypes + b.genomicTypes, a.overlapSymbols + b.overlapSymbols,
             a.cp + b.cp, a.cpm + b.cpm, a.cpkm + b.cpkm,
             a.countS + b.countS, a.countAs + b.countAs, a.rpmS + b.rpmS, a.rpmAs + b.rpmAs)
  }

  // ---------------------------------------------------------------------
  // The fold of main
  // ---------------------------------------------------------------------

  predicate AllAligned(ivs: seq<Interval>) {
    forall k :: 0 <= k < |ivs| ==> Aligned(ivs[k])
  }

  /** The member ids of a list of intervals, concatenated in order. */
  function AllIds(ivs: seq<Interval>): seq<string>
    decreases |ivs|
  {
    if |ivs| == 0 then [] else AllIds(ivs[..|ivs| - 1]) + ivs[|ivs| - 1].ids
  }

  /** Consecutive intervals failed the merge test when the later one was read. */
  predicate Separated(out: seq<Interval>, d: int) {
    forall k :: 0 <= k < |out| - 1 ==> !Joins(out[k], out[k + 1], d)
  }

  /** One iteration of `main`'s loop. */
  function Step(acc: seq<Interval>, r: Interval, d: int): (out: seq<Interval>)
    ensures AllAligned(acc) && Aligned(r) ==> AllAligned(out)
    ensures 0 < |out| <= |acc| + 1
  {
    if |acc| == 0 then [r]
    else
      var last := acc[|acc| - 1];
      if Joins(last, r, d) then acc[..|acc| - 1] + [Merge(last, r)]
      else acc + [r]
  }

  /** The loop of `main` over the parsed regions. It neither drops nor
      duplicates a member, keeps the lists aligned, and leaves every pair of
      consecutive intervals separated by the merge test. */
  function Collapse(rs: seq<Interval>, d: int): (out: seq<Interval>)
    ensures AllAligned(rs) ==> AllAligned(out)
    ensures AllIds(out) == AllIds(rs)
    ensures Separated(out, d)
    ensures |out| <= |rs| && (|rs| > 0 ==> |out| > 0)
    decreases |rs|
  {
    if |rs| == 0 then []
    else
      var n := |rs| - 1;
      var p := rs[..n];
      var acc := Collapse(p, d);
      assert AllAligned(rs) ==> AllAligned(p) && Aligned(rs[n]);
      StepKeepsIds(acc, rs[n], d);
      StepSeparated(acc, rs[n], d);
      Step(acc, rs[n], d)
  }

  lemma AllIdsAppend(ivs: seq<Interval>, x: Interval)
    ensures AllIds(ivs + [x]) == AllIds(ivs) + x.ids
  {
    assert (ivs + [x])[..|ivs|] == ivs;
  }

  lemma StepKeepsIds(acc: seq<Interval>, r: Interval, d: int)
    ensures AllIds(Step(acc, r, d)) == AllIds(acc) + r.ids
  {
    if |acc| == 0 {
      AllIdsAppend([], r);
    } else {
      var n := |acc| - 1;
      var last := acc[n];
      if Joins(last, r, d) {
        AllIdsAppend(acc[..n], Merge(last, r));
        assert acc[..n] + [last] == acc;
      } else {
        AllIdsAppend(acc, r);
      }
    }
  }

  lemma StepSeparated(acc: seq<Interval>, r: Interval, d: int)
    requires Separated(acc, d)
    ensures Separated(Step(acc, r, d), d)
  {
    if |acc| > 0 {
      var n := |acc| - 1;
      var last := acc[n];
      var out := Step(acc, r, d);
      if Joins(last, r, d) {
        assert forall k :: 0 <= k < n ==> out[k] == acc[k];
      } else {
        assert forall k :: 0 <= k <= n ==> out[k] == acc[k];
      }
    }
  }

  // ---------------------------------------------------------------------
  // Each output interval is the merge of a run of consecutive inputs
  // ---------------------------------------------------------------------

  /** The largest end among the regions. */
  function MaxEnd(rs: seq<Interval>): int
    requires |rs| > 0
    decreases |rs|
  {
    if |rs| == 1 then rs[0].end
    else
      var m := MaxEnd(rs[..|rs| - 1]);
      if m >= rs[|rs| - 1].end then m else rs[|rs| - 1].end
  }

  /** Folding a run of regions into its first one with `merge`. */
  function MergeAll(rs: seq<Interval>): Interval
    requires |rs| > 0
    decreases |rs|
  {
    if |rs| == 1 then rs[0] else Merge(MergeAll(rs[..|rs| - 1]), rs[|rs| - 1])
  }

  /** The merge of a run starts where its first region starts, ends at the
      largest end, holds every member in order, and has its width recomputed
      once a merge has happened (a single region keeps the width it was read
      with). */
  lemma {:induction false} MergeAllSpec(rs: seq<Interval>)
    requires |rs| > 0
    ensures var m := MergeAll(rs);
            && (AllAligned(rs) ==> Aligned(m))
            && m.chrom == rs[0].chrom && m.start == rs[0].start && m.strand == rs[0].strand
            && m.uid == rs[0].uid
            && m.end == MaxEnd(rs)
            && m.ids == AllIds(rs)
            && m.width == if |rs| == 1 then rs[0].width else m.end - m.start
    decreases |rs|
  {
    if |rs| == 1 {
      assert rs == [] + [rs[0]];
      AllIdsAppend([], rs[0]);
    } else {
      var n := |rs| - 1;
      var prefix := rs[..n];
      assert prefix[0] == rs[0];
      MergeAllSpec(prefix);
      assert rs == prefix + [rs[n]];
      AllIdsAppend(prefix, rs[n]);
    }
  }

  /** `cuts` splits `0..len` into `count` non-empty consecutive runs. */
  predicate Cuts(cuts: seq<nat>, count: nat, len: nat) {
    && |cuts| == count + 1 && cuts[0] == 0 && cuts[count] == len
    && (forall i, j :: 0 <= i < j <= count ==> cuts[i] < cuts[j])
    && (forall i :: 0 <= i <= count ==> cuts[i] <= len)
  }

  /** Output interval `k` is the merge of run `k`. */
  predicate RunsMerge(rs: seq<Interval>, out: seq<Interval>, cuts: seq<nat>)
    requires Cuts(cuts, |out|, |rs|)
  {
    forall k :: 0 <= k < |out| ==> out[k] == MergeAll(rs[cuts[k]..cuts[k + 1]])
  }

  /** Region `j` passed the merge test against the interval merged from
      regions `a` up to `j`. */
  predicate JoinedAt(rs: seq<Interval>, a: nat, j: nat, d: int)
    requires a < j < |rs|
  {
    Joins(MergeAll(rs[a..j]), rs[j], d)
  }

  /** Every region after the first of a run passed the merge test against
      the interval built from the regions before it. */
  predicate RunsJoined(rs: seq<Interval>, cuts: seq<nat>, count: nat, d: int)
    requires Cuts(cuts, count, |rs|)
  {
    forall k, j :: 0 <= k < count && cuts[k] < j < cuts[k + 1] ==> JoinedAt(rs, cuts[k], j, d)
  }

  lemma JoinedAtPrefix(rs: seq<Interval>, n: nat, a: nat, j: nat, d: int)
    requires a < j < n <= |rs|
    ensures JoinedAt(rs[..n], a, j, d) == JoinedAt(rs, a, j, d)
  {
    assert rs[..n][a..j] == rs[a..j];
  }

  /** `cuts` splits `rs` into the consecutive runs that became `out`. */
  predicate Blocks(rs: seq<Interval>, out: seq<Interval>, cuts: seq<nat>, d: int)
  {
    Cuts(cuts, |out|, |rs|) && RunsMerge(rs, out, cuts) && RunsJoined(rs, cuts, |out|, d)
  }

  /** Every interval `main` emits is the merge of a run of consecutive input
      regions, the runs cover the input in order, and each region of a run
      was taken in by the merge test. */
  lemma {:induction false} CollapseBlocks(rs: seq<Interval>, d: int) returns (cuts: seq<nat>)
    ensures Blocks(rs, Collapse(rs, d), cuts, d)
    decreases |rs|
  {
    if |rs| == 0 {
      cuts := [0];
    } else {
      var n := |rs| - 1;
      var p := rs[..n];
      var c := CollapseBlocks(p, d);
      assert rs[..n + 1] == rs;
      assert Collapse(rs, d) == Step(Collapse(p, d), rs[n], d);
      cuts := BlocksStep(rs, Collapse(p, d), c, d);
    }
  }

  /** One more region extends the runs: it opens a new run or joins the last. */
  lemma BlocksStep(rs: seq<Interval>, acc: seq<Interval>, c: seq<nat>, d: int) returns (cuts: seq<nat>)
    requires |rs| > 0 && Blocks(rs[..|rs| - 1], acc, c, d)
    ensures Blocks(rs, Step(acc, rs[|rs| - 1], d), cuts, d)
  {
    var n := |rs| - 1;
    if |acc| == 0 {
      cuts := [0, 1];
      assert Step(acc, rs[n], d) == [rs[n]];
      assert rs[0..1] == rs;
    } else if Joins(acc[|acc| - 1], rs[n], d) {
      cuts := BlocksJoin(rs, acc, c, d);
    } else {
      cuts := c + [n + 1];
      assert Step(acc, rs[n], d) == acc + [rs[n]];
      MergesOpen(rs, acc, c);
      JoinedOpen(rs, c, |acc|, d);
    }
  }

  /** The new region passed the merge test against the last interval, which
      is the merge of the last run, so it joins that run. */
  lemma BlocksJoin(rs: seq<Interval>, acc: seq<Interval>, c: seq<nat>, d: int) returns (cuts: seq<nat>)
    requires |rs| > 0 && |acc| > 0 && Blocks(rs[..|rs| - 1], acc, c, d)
    requires Joins(acc[|acc| - 1], rs[|rs| - 1], d)
    ensures cuts == c[..|acc|] + [|rs|]
    ensures Blocks(rs, acc[..|acc| - 1] + [Merge(acc[|acc| - 1], rs[|rs| - 1])], cuts, d)
  {
    cuts := c[..|acc|] + [|rs|];
    LastJoined(rs, acc, c, d);
    LastMerged(rs, acc, c);
    MergesExtend(rs, acc, c, Merge(acc[|acc| - 1], rs[|rs| - 1]));
    JoinedExtend(rs, c, |acc|, d);
  }

  /** The last interval is the merge of the last run, so the new region's
      merge test was taken against that run. */
  lemma LastJoined(rs: seq<Interval>, acc: seq<Interval>, c: seq<nat>, d: int)
    requires |rs| > 0 && |acc| > 0
    requires Cuts(c, |acc|, |rs| - 1) && RunsMerge(rs[..|rs| - 1], acc, c)
    requires Joins(acc[|acc| - 1], rs[|rs| - 1], d)
    ensures c[|acc| - 1] < |rs| - 1 && JoinedAt(rs, c[|acc| - 1], |rs| - 1, d)
  {
    var n := |rs| - 1;
    var m := |acc| - 1;
    assert c[m] < c[m + 1] == n;
    assert acc[m] == MergeAll(rs[..n][c[m]..n]);
    assert rs[..n][c[m]..n] == rs[c[m]..n];
  }

  lemma MergesOpen(rs: seq<Interval>, acc: seq<Interval>, c: seq<nat>)
    requires |rs| > 0
    requires Cuts(c, |acc|, |rs| - 1) && RunsMerge(rs[..|rs| - 1], acc, c)
    ensures Cuts(c + [|rs|], |acc| + 1, |rs|)
    ensures RunsMerge(rs, acc + [rs[|rs| - 1]], c + [|rs|])
  {
    var n := |rs| - 1;
    var cuts := c + [n + 1];
    var out := acc + [rs[n]];
    forall k | 0 <= k < |out|
      ensures out[k] == MergeAll(rs[cuts[k]..cuts[k + 1]])
    {
      MergesOpenAt(rs, acc, c, k);
    }
  }

  lemma MergesOpenAt(rs: seq<Interval>, acc: seq<Interval>, c: seq<nat>, k: nat)
    requires |rs| > 0 && k <= |acc|
    requires Cuts(c, |acc|, |rs| - 1) && RunsMerge(rs[..|rs| - 1], acc, c)
    ensures var cuts := c + [|rs|];
            && cuts[k] < cuts[k + 1] <= |rs|
            && (acc + [rs[|rs| - 1]])[k] == MergeAll(rs[cuts[k]..cuts[k + 1]])
  {
    var n := |rs| - 1;
    if k < |acc| {
      assert c[k] < c[k + 1];
      assert rs[..n][c[k]..c[k + 1]] == rs[c[k]..c[k + 1]];
    } else {
      assert rs[n..n + 1] == [rs[n]];
    }
  }

  lemma JoinedOpen(rs: seq<Interval>, c: seq<nat>, count: nat, d: int)
    requires |rs| > 0
    requires Cuts(c, count, |rs| - 1) && RunsJoined(rs[..|rs| - 1], c, count, d)
    ensures Cuts(c + [|rs|], count + 1, |rs|)
    ensures RunsJoined(rs, c + [|rs|], count + 1, d)
  {
    var n := |rs| - 1;
    var cuts := c + [n + 1];
    forall k, j | 0 <= k < count + 1 && cuts[k] < j < cuts[k + 1]
      ensures JoinedAt(rs, cuts[k], j, d)
    {
      assert k < count && cuts[k] == c[k] && cuts[k + 1] == c[k + 1];
      assert JoinedAt(rs[..n], c[k], j, d);
      JoinedAtPrefix(rs, n, c[k], j, d);
    }
  }

  /** Merging one more region onto a run. */
  lemma MergeAllSnoc(rs: seq<Interval>, a: nat, b: nat)
    requires a < b < |rs|
    ensures MergeAll(rs[a..b + 1]) == Merge(MergeAll(rs[a..b]), rs[b])
  {
    var run := rs[a..b + 1];
    assert run[..|run| - 1] == rs[a..b];
  }

  lemma CutsExtend(c: seq<nat>, count: nat, n: nat)
    requires Cuts(c, count, n) && count > 0
    ensures Cuts(c[..count] + [n + 1], count, n + 1)
  {
  }

  /** Merging the new region onto the last interval gives the merge of the
      last run extended by that region. */
  lemma LastMerged(rs: seq<Interval>, acc: seq<Interval>, c: seq<nat>)
    requires |rs| > 0 && |acc| > 0
    requires Cuts(c, |acc|, |rs| - 1) && RunsMerge(rs[..|rs| - 1], acc, c)
    ensures c[|acc| - 1] < |rs| - 1
    ensures Merge(acc[|acc| - 1], rs[|rs| - 1]) == MergeAll(rs[c[|acc| - 1]..|rs|])
  {
    var n := |rs| - 1;
    var m := |acc| - 1;
    RunKept(rs, acc, c, m);
    var a := c[m];
    assert c[m + 1] == n;
    var before := MergeAll(rs[a..n]);
    assert acc[m] == before;
    MergeAllSnoc(rs, a, n);
    assert MergeAll(rs[a..n + 1]) == Merge(before, rs[n]);
  }

  lemma MergesExtend(rs: seq<Interval>, acc: seq<Interval>, c: seq<nat>, last: Interval)
    requires |rs| > 0 && |acc| > 0
    requires Cuts(c, |acc|, |rs| - 1) && RunsMerge(rs[..|rs| - 1], acc, c)
    requires last == MergeAll(rs[c[|acc| - 1]..|rs|])
    ensures Cuts(c[..|acc|] + [|rs|], |acc|, |rs|)
    ensures RunsMerge(rs, acc[..|acc| - 1] + [last], c[..|acc|] + [|rs|])
  {
    var n := |rs| - 1;
    var m := |acc| - 1;
    CutsExtend(c, |acc|, n);
    var cuts := c[..m + 1] + [n + 1];
    var out := acc[..m] + [last];
    forall k | 0 <= k < |out|
      ensures out[k] == MergeAll(rs[cuts[k]..cuts[k + 1]])
    {
      MergesExtendAt(rs, acc, c, last, k);
    }
  }

  lemma MergesExtendAt(rs: seq<Interval>, acc: seq<Interval>, c: seq<nat>, last: Interval, k: nat)
    requires |rs| > 0 && k < |acc|
    requires Cuts(c, |acc|, |rs| - 1) && RunsMerge(rs[..|rs| - 1], acc, c)
    requires last == MergeAll(rs[c[|acc| - 1]..|rs|])
    ensures var n, m := |rs| - 1, |acc| - 1;
            var cuts := c[..m + 1] + [n + 1];
            && cuts[k] < cuts[k + 1] <= |rs|
            && (acc[..m] + [last])[k] == MergeAll(rs[cuts[k]..cuts[k + 1]])
  {
    var n := |rs| - 1;
    var m := |acc| - 1;
    var cuts := c[..m + 1] + [n + 1];
    assert cuts[k] == c[k];
    if k < m {
      assert cuts[k + 1] == c[k + 1];
      assert (acc[..m] + [last])[k] == acc[k];
      RunKept(rs, acc, c, k);
    } else {
      assert cuts[k + 1] == n + 1;
      assert (acc[..m] + [last])[k] == last;
    }
  }

  /** A run before the last is untouched by the new region. */
  lemma RunKept(rs: seq<Interval>, acc: seq<Interval>, c: seq<nat>, k: nat)
    requires |rs| > 0 && k < |acc|
    requires Cuts(c, |acc|, |rs| - 1) && RunsMerge(rs[..|rs| - 1], acc, c)
    ensures c[k] < c[k + 1] < |rs| && acc[k] == MergeAll(rs[c[k]..c[k + 1]])
  {
    var n := |rs| - 1;
    assert c[k] < c[k + 1];
    assert rs[..n][c[k]..c[k + 1]] == rs[c[k]..c[k + 1]];
  }

  lemma JoinedExtend(rs: seq<Interval>, c: seq<nat>, count: nat, d: int)
    requires |rs| > 0 && count > 0
    requires Cuts(c, count, |rs| - 1) && RunsJoined(rs[..|rs| - 1], c, count, d)
    requires c[count - 1] < |rs| - 1
    requires JoinedAt(rs, c[count - 1], |rs| - 1, d)
    ensures Cuts(c[..count] + [|rs|], count, |rs|)
    ensures RunsJoined(rs, c[..count] + [|rs|], count, d)
  {
    var n := |rs| - 1;
    var cuts := c[..count] + [n + 1];
    CutsExtend(c, count, n);
    forall k, j | 0 <= k < count && cuts[k] < j < cuts[k + 1]
      ensures JoinedAt(rs, cuts[k], j, d)
    {
      JoinedExtendAt(rs, c, count, d, k, j);
    }
  }

  lemma JoinedExtendAt(rs: seq<Interval>, c: seq<nat>, count: nat, d: int, k: nat, j: nat)
    requires |rs| > 0 && k < count
    requires Cuts(c, count, |rs| - 1) && RunsJoined(rs[..|rs| - 1], c, count, d)
    requires c[count - 1] < |rs| - 1
    requires JoinedAt(rs, c[count - 1], |rs| - 1, d)
    requires var cuts := c[..count] + [|rs|]; cuts[k] < j < cuts[k + 1]
    ensures j < |rs| && JoinedAt(rs, c[k], j, d)
  {
    var n := |rs| - 1;
    var cuts := c[..count] + [n + 1];
    assert cuts[k] == c[k];
    if j < n {
      if k + 1 < count {
        assert cuts[k + 1] == c[k + 1];
      } else {
        assert c[k + 1] == n;
      }
      assert JoinedAt(rs[..n], c[k], j, d);
      JoinedAtPrefix(rs, n, c[k], j, d);
    } else {
      assert k == count - 1;
    }
  }

  /** Sorted in the sense the collapser relies on: within a chromosome,
      starts never decrease. */
  predicate SortedByStart(rs: seq<Interval>) {
    forall i, j :: 0 <= i < j < |rs| && rs[i].chrom == rs[j].chrom ==> rs[i].start <= rs[j].start
  }

  /** The largest end is at least every region's end. */
  lemma {:induction false} MaxEndBound(rs: seq<Interval>, i: nat)
    requires i < |rs|
    ensures rs[i].end <= MaxEnd(rs)
    decreases |rs|
  {
    if i < |rs| - 1 {
      MaxEndBound(rs[..|rs| - 1], i);
    }
  }

  /** A region the merge test took into a run lies on the run's chromosome. */
  lemma RunMemberChrom(rs: seq<Interval>, lo: nat, j: nat, d: int)
    requires lo < j < |rs| && JoinedAt(rs, lo, j, d)
    ensures rs[j].chrom == rs[lo].chrom
  {
    assert rs[lo..j][0] == rs[lo];
    MergeAllSpec(rs[lo..j]);
  }

  /** On sorted input every output interval spans from its first member's
      start to the largest member end, all its members lie on its
      chromosome, and it covers each of them. */
  lemma CollapseCovers(rs: seq<Interval>, d: int) returns (cuts: seq<nat>)
    requires SortedByStart(rs)
    ensures var out := Collapse(rs, d);
            && Blocks(rs, out, cuts, d)
            && forall k, j :: 0 <= k < |out| && cuts[k] <= j < cuts[k + 1] ==>
                 && rs[j].chrom == out[k].chrom
                 && out[k].start <= rs[j].start && rs[j].end <= out[k].end
  {
    cuts := CollapseBlocks(rs, d);
    var out := Collapse(rs, d);
    forall k, j | 0 <= k < |out| && cuts[k] <= j < cuts[k + 1]
      ensures rs[j].chrom == out[k].chrom
      ensures out[k].start <= rs[j].start && rs[j].end <= out[k].end
    {
      RunCovers(rs, cuts[k], cuts[k + 1], j, d);
    }
  }

  /** The merge of a run whose later regions all passed the merge test covers
      each region of the run. */
  lemma RunCovers(rs: seq<Interval>, lo: nat, hi: nat, j: nat, d: int)
    requires SortedByStart(rs) && lo <= j < hi <= |rs|
    requires forall i :: lo < i < hi ==> JoinedAt(rs, lo, i, d)
    ensures var m := MergeAll(rs[lo..hi]);
            rs[j].chrom == m.chrom && m.start <= rs[j].start && rs[j].end <= m.end
  {
    assert rs[lo..hi][0] == rs[lo];
    MergeAllSpec(rs[lo..hi]);
    if lo < j {
      RunMemberChrom(rs, lo, j, d);
    }
    assert rs[lo..hi][j - lo] == rs[j];
    MaxEndBound(rs[lo..hi], j - lo);
  }

  // ---------------------------------------------------------------------
  // Numbering and long output
  // ---------------------------------------------------------------------

  /** The output loop's `region.uid = idx`. */
  function AssignUids(out: seq<Interval>): (r: seq<Interval>)
    ensures |r| == |out|
    ensures forall k :: 0 <= k < |out| ==> r[k].uid == k && r[k].(uid := out[k].uid) == out[k]
  {
    seq(|out|, k requires 0 <= k < |out| => out[k].(uid := k))
  }

  /** `row` is member `k` of `iv` in long form: the interval's uid,
      chromosome, start, end, width and strand (numbers as decimal text that
      reads back to the same value) around the member's own id, statistics,
      type and symbols. */
  predicate IsLongRow(row: seq<string>, iv: Interval, k: nat)
    requires Aligned(iv) && k < |iv.ids|
  {
    var m := MemberAt(iv, k);
    && |row| == 16
    && Text.ParseInt(row[0]) == Some(iv.uid)
    && row[1] == iv.chrom
    && Text.ParseInt(row[2]) == Some(iv.start) && Text.ParseInt(row[3]) == Some(iv.end)
    && row[4] == m.id
    && Text.ParseInt(row[5]) == Some(iv.width)
    && row[6] == iv.strand
    && row[7] == m.cp && row[8] == m.cpm && row[9] == m.cpkm
    && row[10] == m.countS && row[11] == m.countAs && row[12] == m.rpmS && row[13] == m.rpmAs
    && row[14] == m.genomicType && row[15] == m.overlapSymbol
  }

  /** One member's row of `Region.long`. */
  function LongRow(iv: Interval, k: nat): (row: seq<string>)
    requires Aligned(iv) && k < |iv.ids|
    ensures IsLongRow(row, iv, k)
  {
    var uid, start, end, width := Text.Decimal(iv.uid), Text.Decimal(iv.start), Text.Decimal(iv.end), Text.Decimal(iv.width);
    var m := MemberAt(iv, k);
    var place := [uid, iv.chrom, start, end, m.id, width, iv.strand];
    var stats := [m.cp, m.cpm, m.cpkm, m.countS, m.countAs, m.rpmS, m.rpmAs, m.genomicType, m.overlapSymbol];
    assert place[0] == uid && place[2] == start && place[3] == end && place[5] == width;
    var row := place + stats;
    assert row[..7] == place && row[7..] == stats;
    row
  }

  /** `Region.long`: one 16-field row per member, in member order. */
  function Long(iv: Interval): (rows: seq<seq<string>>)
    requires Aligned(iv)
    ensures |rows| == |iv.ids|
    ensures forall k :: 0 <= k < |rows| ==> IsLongRow(rows[k], iv, k)
  {
    seq(|iv.ids|, k requires 0 <= k < |iv.ids| => LongRow(iv, k))
  }

  /** All intervals' long rows, in order. */
  function Emit(out: seq<Interval>): seq<seq<string>>
    requires AllAligned(out)
    decreases |out|
  {
    if |out| == 0 then [] else Emit(out[..|out| - 1]) + Long(out[|out| - 1])
  }

  /** The emitted rows list the members in order: their id column is the
      concatenation of the intervals' id lists. */
  lemma {:induction false} EmitIds(out: seq<Interval>)
    requires AllAligned(out)
    ensures |Emit(out)| == |AllIds(out)|
    ensures forall i :: 0 <= i < |Emit(out)| ==> |Emit(out)[i]| == 16 && Emit(out)[i][4] == AllIds(out)[i]
    decreases |out|
  {
    if |out| > 0 {
      var n := |out| - 1;
      EmitIds(out[..n]);
    }
  }

  /** `main`: parse every line, fold with distance `d`, number the
      intervals, and emit one row per member. */
  function RunWith(lines: seq<seq<string>>, d: int): (r: Result<seq<seq<string>>, ParseError>)
    ensures r.Ok? <==> forall k :: 0 <= k < |lines| ==> FromLine(lines[k]).Ok?
  {
    match ParseLines(lines)
    case Err(e) => Err(e)
    case Ok(rs) =>
      var out := AssignUids(Collapse(rs, d));
      Ok(Emit(out))
  }

  /** `main` as written, with `merge_buffer = 100`. */
  function Run(lines: seq<seq<string>>): Result<seq<seq<string>>, ParseError> {
    RunWith(lines, MergeBuffer)
  }

  /** Intervals of one member each list, in order, exactly their ids. */
  lemma {:induction false} AllIdsOfSingles(rs: seq<Interval>, ids: seq<string>)
    requires |rs| == |ids|
    requires forall k :: 0 <= k < |rs| ==> rs[k].ids == [ids[k]]
    ensures AllIds(rs) == ids
    decreases |rs|
  {
    if |rs| > 0 {
      var n := |rs| - 1;
      AllIdsOfSingles(rs[..n], ids[..n]);
      assert ids[..n] + [ids[n]] == ids;
    }
  }

  /** The ids of parsed lines are their field 3, one per line. */
  lemma ParsedIds(lines: seq<seq<string>>, rs: seq<Interval>)
    requires ParseLines(lines) == Ok(rs)
    ensures AllAligned(rs)
    ensures |AllIds(rs)| == |lines|
    ensures forall i :: 0 <= i < |lines| ==> |lines[i]| == 15 && AllIds(rs)[i] == lines[i][3]
  {
    assert forall k :: 0 <= k < |lines| ==> FromLine(lines[k]) == Ok(rs[k]);
    var ids := seq(|lines|, k requires 0 <= k < |lines| && |lines[k]| == 15 => lines[k][3]);
    AllIdsOfSingles(rs, ids);
  }

  lemma AllIdsIgnoresUid(out: seq<Interval>)
    requires AllAligned(out)
    ensures AllAligned(AssignUids(out)) && AllIds(AssignUids(out)) == AllIds(out)
    decreases |out|
  {
    var u := AssignUids(out);
    if |out| > 0 {
      var n := |out| - 1;
      AllIdsIgnoresUid(out[..n]);
      assert u[..n] == AssignUids(out[..n]);
    }
  }

  // ---------------------------------------------------------------------
  // What the written rows say
  // ---------------------------------------------------------------------

  /** The members of an interval, in order. */
  function Members(iv: Interval): seq<Member>
    requires Aligned(iv)
  {
    seq(|iv.ids|, k requires 0 <= k < |iv.ids| => MemberAt(iv, k))
  }

  /** Every member of a list of intervals, in order. */
  function AllMembers(ivs: seq<Interval>): seq<Member>
    requires AllAligned(ivs)
    decreases |ivs|
  {
    if |ivs| == 0 then []
    else
      var n := |ivs| - 1;
      assert AllAligned(ivs[..n]);
      AllMembers(ivs[..n]) + Members(ivs[n])
  }

  /** A merge lists the first interval's members, then the second's. */
  lemma MergeMembers(a: Interval, b: Interval)
    requires Aligned(a) && Aligned(b)
    ensures Aligned(Merge(a, b)) && Members(Merge(a, b)) == Members(a) + Members(b)
  {
    var m := Merge(a, b);
    assert forall k :: 0 <= k < |m.ids| ==>
             Members(m)[k] == if k < |a.ids| then Members(a)[k] else Members(b)[k - |a.ids|];
  }

  lemma AllMembersAppend(ivs: seq<Interval>, x: Interval)
    requires AllAligned(ivs) && Aligned(x)
    ensures AllAligned(ivs + [x]) && AllMembers(ivs + [x]) == AllMembers(ivs) + Members(x)
  {
    assert (ivs + [x])[..|ivs|] == ivs;
  }

  /** One loop iteration appends the new region's members, whether it opens
      an interval or is merged into the last one. */
  lemma StepKeepsMembers(acc: seq<Interval>, r: Interval, d: int)
    requires AllAligned(acc) && Aligned(r)
    ensures AllAligned(Step(acc, r, d)) && AllMembers(Step(acc, r, d)) == AllMembers(acc) + Members(r)
  {
    if |acc| == 0 {
      AllMembersAppend([], r);
    } else {
      var n := |acc| - 1;
      var last := acc[n];
      assert acc[..n] + [last] == acc;
      assert AllAligned(acc[..n]);
      if Joins(last, r, d) {
        MergeMembers(last, r);
        AllMembersAppend(acc[..n], Merge(last, r));
        AllMembersAppend(acc[..n], last);
      } else {
        AllMembersAppend(acc, r);
      }
    }
  }

  /** The fold neither drops, duplicates, reorders nor alters a member. */
  lemma {:induction false} CollapseKeepsMembers(rs: seq<Interval>, d: int)
    requires AllAligned(rs)
    ensures AllMembers(Collapse(rs, d)) == AllMembers(rs)
    decreases |rs|
  {
    if |rs| > 0 {
      var n := |rs| - 1;
      var p := rs[..n];
      assert AllAligned(p);
      CollapseKeepsMembers(p, d);
      StepKeepsMembers(Collapse(p, d), rs[n], d);
    }
  }

  /** Every interval the fold returns has a member. */
  lemma {:induction false} CollapseNonEmpty(rs: seq<Interval>, d: int)
    requires forall k :: 0 <= k < |rs| ==> |rs[k].ids| > 0
    ensures forall k :: 0 <= k < |Collapse(rs, d)| ==> |Collapse(rs, d)[k].ids| > 0
    decreases |rs|
  {
    if |rs| > 0 {
      var n := |rs| - 1;
      var p := rs[..n];
      CollapseNonEmpty(p, d);
      var acc := Collapse(p, d);
      var out := Step(acc, rs[n], d);
      assert out == Collapse(rs, d);
      if |acc| > 0 && Joins(acc[|acc| - 1], rs[n], d) {
        assert forall k :: 0 <= k < |acc| - 1 ==> out[k] == acc[k];
      } else if |acc| > 0 {
        assert forall k :: 0 <= k < |acc| ==> out[k] == acc[k];
      }
    }
  }

  lemma AllMembersIgnoresUid(out: seq<Interval>)
    requires AllAligned(out)
    ensures AllAligned(AssignUids(out)) && AllMembers(AssignUids(out)) == AllMembers(out)
    decreases |out|
  {
    var u := AssignUids(out);
    if |out| > 0 {
      var n := |out| - 1;
      assert AllAligned(out[..n]);
      AllMembersIgnoresUid(out[..n]);
      assert u[..n] == AssignUids(out[..n]);
      assert Members(u[n]) == Members(out[n]);
    }
  }

  /** The member an input line describes. */
  function LineMember(f: seq<string>): Member
    requires |f| == 15
  {
    Member(f[3], f[13], f[14], f[6], f[7], f[8], f[9], f[10], f[11], f[12])
  }

  /** One-member intervals list exactly their members. */
  lemma {:induction false} AllMembersOfSingles(rs: seq<Interval>, ms: seq<Member>)
    requires |rs| == |ms|
    requires forall k :: 0 <= k < |rs| ==> Aligned(rs[k]) && |rs[k].ids| == 1 && MemberAt(rs[k], 0) == ms[k]
    ensures AllAligned(rs) && AllMembers(rs) == ms
    decreases |rs|
  {
    if |rs| > 0 {
      var n := |rs| - 1;
      AllMembersOfSingles(rs[..n], ms[..n]);
      assert Members(rs[n]) == [ms[n]];
      assert ms[..n] + [ms[n]] == ms;
    }
  }

  /** The parsed regions' members are, in order, the members the lines describe. */
  lemma ParsedMembers(lines: seq<seq<string>>, rs: seq<Interval>)
    requires ParseLines(lines) == Ok(rs)
    ensures AllAligned(rs) && |AllMembers(rs)| == |lines|
    ensures forall i :: 0 <= i < |lines| ==> |lines[i]| == 15 && AllMembers(rs)[i] == LineMember(lines[i])
    ensures forall k :: 0 <= k < |rs| ==> |rs[k].ids| == 1
  {
    assert forall k :: 0 <= k < |lines| ==> FromLine(lines[k]) == Ok(rs[k]);
    var ms := seq(|lines|, k requires 0 <= k < |lines| && |lines[k]| == 15 => LineMember(lines[k]));
    AllMembersOfSingles(rs, ms);
  }

  /** Where the written rows come from: row `i` is member `Slots(out)[i].1`
      of interval `Slots(out)[i].0`. */
  function Slots(out: seq<Interval>): (s: seq<(nat, nat)>)
    ensures forall i :: 0 <= i < |s| ==> s[i].0 < |out| && s[i].1 < |out[s[i].0].ids|
    decreases |out|
  {
    if |out| == 0 then []
    else
      var n := |out| - 1;
      Slots(out[..n]) + seq(|out[n].ids|, j requires 0 <= j < |out[n].ids| => (n, j))
  }

  /** The output loop writes, for every interval in turn, the long row of
      each of its members: row `i` is the row of the member in slot `i`, and
      that member is the `i`-th of all members. */
  lemma {:induction false} EmitRows(out: seq<Interval>)
    requires AllAligned(out)
    ensures |Emit(out)| == |Slots(out)| == |AllMembers(out)|
    ensures forall i :: 0 <= i < |Slots(out)| ==>
              var s := Slots(out)[i];
              IsLongRow(Emit(out)[i], out[s.0], s.1) && AllMembers(out)[i] == MemberAt(out[s.0], s.1)
    decreases |out|
  {
    if |out| > 0 {
      var n := |out| - 1;
      var p := out[..n];
      assert AllAligned(p);
      EmitRows(p);
      var sp := Slots(p);
      forall i | 0 <= i < |Slots(out)|
        ensures var s := Slots(out)[i];
                IsLongRow(Emit(out)[i], out[s.0], s.1) && AllMembers(out)[i] == MemberAt(out[s.0], s.1)
      {
        if i < |sp| {
          assert Slots(out)[i] == sp[i] && Emit(out)[i] == Emit(p)[i] && AllMembers(out)[i] == AllMembers(p)[i];
          assert p[sp[i].0] == out[sp[i].0];
        } else {
          var j := i - |sp|;
          assert Slots(out)[i] == (n, j);
          assert Emit(out)[i] == Long(out[n])[j];
          assert AllMembers(out)[i] == Members(out[n])[j];
        }
      }
    }
  }

  /** With no empty interval, the slots run through the intervals in order:
      the first is interval 0, each next slot stays in the same interval or
      moves to the next one, and the last is the last interval. */
  lemma {:induction false} SlotsInOrder(out: seq<Interval>)
    requires forall k :: 0 <= k < |out| ==> |out[k].ids| > 0
    ensures var s := Slots(out);
            && (|out| > 0 ==> |s| > 0 && s[0].0 == 0 && s[|s| - 1].0 == |out| - 1)
            && forall i :: 0 < i < |s| ==> SlotStep(s, i)
    decreases |out|
  {
    if |out| > 0 {
      var n := |out| - 1;
      var p := out[..n];
      SlotsInOrder(p);
      SlotsSnoc(out);
      var sp, s := Slots(p), Slots(out);
      assert |s| > 0 && s[|s| - 1].0 == n;
      if |sp| > 0 {
        assert s[0] == sp[0];
      } else {
        assert n == 0 && s[0].0 == n;
      }
      SlotsStepInOrder(out);
    }
  }

  /** Slot `i` is in the same interval as slot `i - 1` or in the next one. */
  predicate SlotStep(s: seq<(nat, nat)>, i: int)
    requires 0 < i < |s|
  {
    s[i].0 == s[i - 1].0 || s[i].0 == s[i - 1].0 + 1
  }

  /** Appending the last interval's slots keeps consecutive slots in the
      same or the next interval. */
  lemma SlotsStepInOrder(out: seq<Interval>)
    requires |out| > 0
    requires var sp := Slots(out[..|out| - 1]);
             && (|sp| > 0 ==> sp[|sp| - 1].0 == |out| - 2)
             && forall i :: 0 < i < |sp| ==> SlotStep(sp, i)
    ensures var s := Slots(out);
            forall i :: 0 < i < |s| ==> SlotStep(s, i)
  {
    var n := |out| - 1;
    SlotsSnoc(out);
    var sp, s := Slots(out[..n]), Slots(out);
    forall i | 0 < i < |s|
      ensures SlotStep(s, i)
    {
      if i < |sp| {
        assert SlotStep(sp, i);
        assert s[i] == sp[i] && s[i - 1] == sp[i - 1];
      } else if i > |sp| {
        assert s[i].0 == n && s[i - 1].0 == n;
      } else {
        assert s[i].0 == n && s[i - 1] == sp[i - 1];
      }
    }
  }

  /** The slots of the last interval follow those of the others. */
  lemma SlotsSnoc(out: seq<Interval>)
    requires |out| > 0
    ensures var n := |out| - 1;
            var sp, s := Slots(out[..n]), Slots(out);
            && |s| == |sp| + |out[n].ids|
            && (forall i :: 0 <= i < |sp| ==> s[i] == sp[i])
            && (forall i :: |sp| <= i < |s| ==> s[i] == (n, i - |sp|))
  {
  }

  /** Two long rows locate the same interval. */
  predicate SameInterval(a: seq<string>, b: seq<string>)
    requires |a| == 16 && |b| == 16
  {
    && a[1] == b[1] && a[6] == b[6]
    && Text.ParseInt(a[2]) == Text.ParseInt(b[2]) && Text.ParseInt(a[3]) == Text.ParseInt(b[3])
    && Text.ParseInt(a[5]) == Text.ParseInt(b[5])
  }

  /** The uid column numbers the intervals 0, 1, 2, ... in the order they are
      written: the first row has uid 0, and every later row has either the
      uid of the row before it, and then the same interval, or the next uid. */
  predicate NumberedRuns(rows: seq<seq<string>>) {
    && (|rows| > 0 ==> |rows[0]| > 0 && Text.ParseInt(rows[0][0]) == Some(0))
    && forall i :: 0 < i < |rows| ==> NextUid(rows, i)
  }

  /** Row `i` continues the interval of row `i - 1` under the same uid, or
      starts the interval with the next uid. */
  predicate NextUid(rows: seq<seq<string>>, i: int)
    requires 0 < i < |rows|
  {
    && |rows[i - 1]| == 16 && |rows[i]| == 16
    && Text.ParseInt(rows[i - 1][0]).Some? && Text.ParseInt(rows[i][0]).Some?
    && var u, v := Text.ParseInt(rows[i - 1][0]).value, Text.ParseInt(rows[i][0]).value;
       (v == u && SameInterval(rows[i - 1], rows[i])) || v == u + 1
  }

  /** A row written for a line's member repeats that line's id, statistics
      and annotation. */
  lemma RowOfLine(row: seq<string>, iv: Interval, j: nat, f: seq<string>)
    requires Aligned(iv) && j < |iv.ids| && IsLongRow(row, iv, j)
    requires |f| == 15 && MemberAt(iv, j) == LineMember(f)
    ensures row[4] == f[3] && row[7..16] == f[6..15]
  {
  }

  /** Rows written for numbered intervals repeat, in order, the id,
      statistics and annotation of the lines whose members they hold. */
  lemma EmitFollowsLines(u: seq<Interval>, lines: seq<seq<string>>)
    requires AllAligned(u) && |AllMembers(u)| == |lines|
    requires forall i :: 0 <= i < |lines| ==> |lines[i]| == 15 && AllMembers(u)[i] == LineMember(lines[i])
    ensures var rows := Emit(u);
            && |rows| == |lines|
            && forall i :: 0 <= i < |rows| ==>
                 |rows[i]| == 16 && rows[i][4] == lines[i][3] && rows[i][7..16] == lines[i][6..15]
  {
    EmitRows(u);
    var rows, sl := Emit(u), Slots(u);
    forall i | 0 <= i < |rows|
      ensures |rows[i]| == 16 && rows[i][4] == lines[i][3] && rows[i][7..16] == lines[i][6..15]
    {
      RowOfLine(rows[i], u[sl[i].0], sl[i].1, lines[i]);
    }
  }

  /** Intervals numbered by position, none of them empty, are written with
      uids 0, 1, 2, ... in order. */
  lemma EmitNumbersRuns(u: seq<Interval>)
    requires AllAligned(u)
    requires forall k :: 0 <= k < |u| ==> u[k].uid == k && |u[k].ids| > 0
    ensures NumberedRuns(Emit(u))
  {
    EmitRows(u);
    SlotsInOrder(u);
    var rows, sl := Emit(u), Slots(u);
    assert forall i :: 0 <= i < |rows| ==> |rows[i]| == 16 && Text.ParseInt(rows[i][0]) == Some(sl[i].0);
    forall i | 0 < i < |rows|
      ensures NextUid(rows, i)
    {
      assert SlotStep(sl, i);
    }
  }

  /** No row is dropped or duplicated: `main` writes exactly one row per
      input line, in input order, repeating the line's id, statistics and
      annotation; the uid column numbers the merged intervals densely from 0
      in the order they are written, and rows with the same uid carry the
      same interval. */
  lemma RunKeepsEveryMember(lines: seq<seq<string>>, d: int)
    requires RunWith(lines, d).Ok?
    ensures var rows := RunWith(lines, d).value;
            && |rows| == |lines|
            && (forall i :: 0 <= i < |rows| ==> |rows[i]| == 16 && rows[i][4] == lines[i][3])
            && (forall i :: 0 <= i < |rows| ==> |lines[i]| == 15 && rows[i][7..16] == lines[i][6..15])
            && NumberedRuns(rows)
  {
    var rs := ParseLines(lines).value;
    ParsedMembers(lines, rs);
    var out := Collapse(rs, d);
    CollapseKeepsMembers(rs, d);
    CollapseNonEmpty(rs, d);
    var u := AssignUids(out);
    AllMembersIgnoresUid(out);
    EmitFollowsLines(u, lines);
    EmitNumbersRuns(u);
    assert RunWith(lines, d).value == Emit(u);
  }
}
