/**
  How the stages fit together: the annotator's long rows are exactly what
  the collapser reads, and the read names the NH rewrite produces make both
  mates of a pair count as one fragment in the tally.
 */
module Pipeline {
  import opened Results
  import Text
  import Annotate
  import Collapse
  import AppendNh
  import Tally

  /** An annotated region written in long form is read back by the
      collapser as a one-member interval carrying the same position, id,
      width, statistics and annotation, on strand `+`. */
  lemma LongRowCollapses(r: Annotate.Region)
    ensures var f := Annotate.Long(r);
            var iv := Collapse.FromLine(f);
            && iv.Ok?
            && iv.value.chrom == r.chrom && iv.value.start == r.start && iv.value.end == r.end
            && iv.value.width == r.width && iv.value.strand == "+"
            && Collapse.Aligned(iv.value) && iv.value.ids == [r.id]
            && var a := Annotate.CurrentAnnotation(r);
               Collapse.MemberAt(iv.value, 0) ==
                 Collapse.Member(r.id, a.genomicType, a.overlapSymbol,
                                 r.cp, r.cpm, r.cpkm, r.countS, r.countAs, r.rpmS, r.rpmAs)
  {
    var f := Annotate.Long(r);
    assert f[6..13][0] == f[6] && f[6..13][1] == f[7] && f[6..13][2] == f[8];
    assert f[6..13][3] == f[9] && f[6..13][4] == f[10] && f[6..13][5] == f[11] && f[6..13][6] == f[12];
  }

  /** Every row the annotator emits is accepted by the collapser. */
  lemma AnnotatorFeedsCollapser(g: seq<Annotate.Region>)
    ensures Collapse.ParseLines(Annotate.Emit(g)).Ok?
  {
    var out := Annotate.Emit(g);
    forall i | 0 <= i < |out|
      ensures Collapse.FromLine(out[i]).Ok?
    {
      assert out[i] == Annotate.Long(Annotate.Annotate(g[i]));
      LongRowCollapses(Annotate.Annotate(g[i]));
    }
  }

  /** The two mates of a pair (same name, each one's position the other's
      mate position), once renamed and given the `/1` and `/2` suffixes of
      the paired-end format, have the same fragment name in the tally. */
  lemma MatesAreOneFragment(f1: seq<string>, f2: seq<string>)
    requires |f1| >= AppendNh.MinFields && |f2| >= AppendNh.MinFields
    requires f1[AppendNh.Name] == f2[AppendNh.Name]
    requires f1[AppendNh.Pos] == f2[AppendNh.MatePos] && f1[AppendNh.MatePos] == f2[AppendNh.Pos]
    ensures var n1 := AppendNh.RewriteFields(f1)[AppendNh.Name];
            var n2 := AppendNh.RewriteFields(f2)[AppendNh.Name];
            Tally.FragmentName(n1 + "/1") == Tally.FragmentName(n2 + "/2") == n1
  {
    AppendNh.MatesShareName(f1, f2);
    var n1 := AppendNh.RewriteFields(f1)[AppendNh.Name];
    Tally.PairedName(n1, '1');
    Tally.PairedName(n1, '2');
    assert n1 + "/1" == n1 + "/" + ['1'];
    assert n1 + "/2" == n1 + "/" + ['2'];
  }

  /** An `NH:i:<n>` tag becomes the MAPQ field, which the intersect report
      `t` carries as its field 4, so the tally weighs the read by `1/n`; a
      zero count stops the tally. */
  lemma NhBecomesWeight(f: seq<string>, n: string, k: int, t: seq<string>)
    requires |f| >= AppendNh.MinFields
    requires f[AppendNh.Tag] == "NH:i:" + n && Text.ParseInt(n) == Some(k)
    requires |t| >= 16 && t[4] == AppendNh.RewriteFields(f)[AppendNh.Mapq]
    ensures AppendNh.RewriteFields(f)[AppendNh.Mapq] == n
    ensures k == 0 ==> Tally.HitFromLine(t) == Err(Tally.ZeroNh)
    ensures k != 0 ==>
              && (Tally.HitFromLine(t).Ok? <==> Tally.MakeHit(t[3], t[5], t[15], 1.0 / (k as real)).Ok?)
              && (Tally.HitFromLine(t).Ok? ==> Tally.HitFromLine(t).value.weight == 1.0 / (k as real))
  {
    assert ':' !in n;
    AppendNh.NhTagValue(n);
    Tally.HitFromLineSpec(t);
  }
}
