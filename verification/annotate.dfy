/**
  The annotator (annotate.py): rows of an interval-intersection report, one
  per (region, candidate feature) pair, are grouped by region id in
  first-seen order, and every region is labelled from the features it
  overlaps and written as one 15-field row.

  Each input line is taken as its list of fields (the result of
  `line.split()`); the statistics cp .. rpm_as are carried as their text.
 */
module Annotate {
  import opened Results
  import Text

  /** The chromosome the intersection tool writes when a region overlaps nothing. */
  const NullChrom := "."
  /** The width the no-feature row is given, whatever its width field says. */
  const NullWidth := -1

  const Intergenic := "intergenic"
  const NoSymbol := "NA"
  const InvertedTx := "inverted_tx"
  const MultipleTx := "multiple_tx"

  /** One candidate feature overlapping a region (annotate.py `Overlap`). */
  datatype Overlap = Overlap(
    chrom: string, start: int, end: int, id: string, width: int,
    strand: string, kind: string, symbol: string, bases: int)
  {
    /** The no-feature row: the region overlaps nothing. */
    predicate IsNull() {
      chrom == NullChrom
    }
  }

  /** The two fields `annotate` computes. */
  datatype Annotation = Annotation(genomicType: string, overlapSymbol: string)

  /** A region with its statistics, its overlaps in arrival order, and the
      annotation once computed (`isAnnotated` is `annotation.Some?`). */
  datatype Region = Region(
    chrom: string, start: int, end: int, id: string, width: int,
    cp: string, cpm: string, cpkm: string,
    countS: string, countAs: string, rpmS: string, rpmAs: string,
    overlaps: seq<Overlap>, annotation: Option<Annotation>)
  {
    /** A region as `Region.__init__` builds it: no overlaps, not annotated. */
    predicate IsFresh() {
      overlaps == [] && annotation == None
    }
  }

  /** The exceptions that abort the pass: an `IndexError` from too short a
      field list, or a `ValueError` from `int()`. */
  datatype ParseError = WrongLength(fields: seq<string>) | NotAnInteger(text: string)

  /** One parsed input line: its region part and its overlap part. */
  datatype Row = Row(region: Region, overlap: Overlap)

  // ---------------------------------------------------------------------
  // Parsing
  // ---------------------------------------------------------------------

  /** `Region.from_list`: fields 0..4 are chrom, start, end, id, width;
      field 5 is skipped; fields 6..12 are the seven statistics. */
  function RegionFromList(f: seq<string>): (r: Result<Region, ParseError>)
    ensures |f| < 13 ==> r == Err(WrongLength(f))
    ensures r.Ok? <==>
              |f| >= 13 && Text.ParseInt(f[1]).Some? && Text.ParseInt(f[2]).Some?
              && Text.ParseInt(f[4]).Some?
    ensures r.Ok? ==>
              var g := r.value;
              && g.IsFresh()
              && g.chrom == f[0] && g.id == f[3]
              && Text.ParseInt(f[1]) == Some(g.start) && Text.ParseInt(f[2]) == Some(g.end)
              && Text.ParseInt(f[4]) == Some(g.width)
              && [g.cp, g.cpm, g.cpkm, g.countS, g.countAs, g.rpmS, g.rpmAs] == f[6..13]
  {
    if |f| < 13 then Err(WrongLength(f))
    else
      var start :- Text.ToInt(f[1], NotAnInteger(f[1]));
      var end :- Text.ToInt(f[2], NotAnInteger(f[2]));
      var width :- Text.ToInt(f[4], NotAnInteger(f[4]));
      Ok(Region(f[0], start, end, f[3], width, f[6], f[7], f[8], f[9], f[10], f[11], f[12], [], None))
  }

  /** `Overlap.from_list`: nine fields; the width field is read only when the
      row is a real feature, and the no-feature row gets `NullWidth`. */
  function OverlapFromList(f: seq<string>): (r: Result<Overlap, ParseError>)
    ensures |f| < 9 ==> r == Err(WrongLength(f))
    ensures r.Ok? <==>
              |f| >= 9 && Text.ParseInt(f[1]).Some? && Text.ParseInt(f[2]).Some?
              && (f[0] == NullChrom || Text.ParseInt(f[4]).Some?) && Text.ParseInt(f[8]).Some?
    ensures r.Ok? ==>
              var o := r.value;
              && o.chrom == f[0] && o.id == f[3] && o.strand == f[5] && o.kind == f[6] && o.symbol == f[7]
              && Text.ParseInt(f[1]) == Some(o.start) && Text.ParseInt(f[2]) == Some(o.end)
              && Text.ParseInt(f[8]) == Some(o.bases)
              && (o.IsNull() ==> o.width == NullWidth)
              && (!o.IsNull() ==> Text.ParseInt(f[4]) == Some(o.width))
  {
    if |f| < 9 then Err(WrongLength(f))
    else
      var start :- Text.ToInt(f[1], NotAnInteger(f[1]));
      var end :- Text.ToInt(f[2], NotAnInteger(f[2]));
      var width :- if f[0] != NullChrom then Text.ToInt(f[4], NotAnInteger(f[4])) else Ok(NullWidth);
      var bases :- Text.ToInt(f[8], NotAnInteger(f[8]));
      Ok(Overlap(f[0], start, end, f[3], width, f[5], f[6], f[7], bases))
  }

  /** Python's `f[:n]`. */
  function Take(f: seq<string>, n: nat): (r: seq<string>)
    ensures |r| == if |f| <= n then |f| else n
    ensures r == f[..|r|]
  {
    if |f| <= n then f else f[..n]
  }

  /** Python's `f[n:]`. */
  function Drop(f: seq<string>, n: nat): (r: seq<string>)
    ensures |f| <= n ==> r == []
    ensures |f| > n ==> r == f[n..]
  {
    if |f| <= n then [] else f[n..]
  }

  /** One line of `main`: the region from the first 13 fields, the overlap
      from the rest; the region is parsed first. */
  function ParseRow(f: seq<string>): (r: Result<Row, ParseError>)
    ensures r.Ok? ==> |f| >= 22 && r.value.region.IsFresh()
    ensures r.Ok? ==> Ok(r.value.region) == RegionFromList(f[..13])
    ensures r.Ok? ==> Ok(r.value.overlap) == OverlapFromList(f[13..])
    ensures RegionFromList(Take(f, 13)).Err? ==> r == Err(RegionFromList(Take(f, 13)).error)
  {
    var region :- RegionFromList(Take(f, 13));
    var overlap :- OverlapFromList(Drop(f, 13));
    Ok(Row(region, overlap))
  }

  /** Every line parsed in order; the first failing line aborts the pass
      with its error. */
  function ParseRows(lines: seq<seq<string>>): (r: Result<seq<Row>, ParseError>)
    ensures r.Ok? <==> forall k :: 0 <= k < |lines| ==> ParseRow(lines[k]).Ok?
    ensures r.Ok? ==> |r.value| == |lines|
    ensures r.Ok? ==> forall k :: 0 <= k < |lines| ==> ParseRow(lines[k]) == Ok(r.value[k])
    ensures r.Err? ==>
              exists k :: 0 <= k < |lines| && ParseRow(lines[k]) == Err(r.error)
                          && forall j :: 0 <= j < k ==> ParseRow(lines[j]).Ok?
  {
    MapAll(lines, ParseRow)
  }

  // ---------------------------------------------------------------------
  // Classification
  // ---------------------------------------------------------------------

  /** The symbols of the overlaps, in arrival order. */
  function Symbols(ovs: seq<Overlap>): (r: seq<string>)
    ensures |r| == |ovs| && forall i :: 0 <= i < |ovs| ==> r[i] == ovs[i].symbol
  {
    seq(|ovs|, i requires 0 <= i < |ovs| => ovs[i].symbol)
  }

  /** `set(list_strand)`. */
  function Strands(ovs: seq<Overlap>): set<string> {
    set i | 0 <= i < |ovs| :: ovs[i].strand
  }

  /** Two overlaps lie on different strands. */
  predicate MixedStrands(ovs: seq<Overlap>) {
    exists i, j :: 0 <= i < |ovs| && 0 <= j < |ovs| && ovs[i].strand != ovs[j].strand
  }

  /** The set of strands has more than one element exactly when two overlaps
      disagree on their strand. */
  lemma StrandsMoreThanOne(ovs: seq<Overlap>)
    ensures |Strands(ovs)| > 1 <==> MixedStrands(ovs)
  {
    var s := Strands(ovs);
    if MixedStrands(ovs) {
      var i, j :| 0 <= i < |ovs| && 0 <= j < |ovs| && ovs[i].strand != ovs[j].strand;
      var a, b := ovs[i].strand, ovs[j].strand;
      assert a in s && b in s;
      assert b in s - {a};
      assert s == (s - {a}) + {a};
      assert |s - {a}| >= 1;
    }
    if |s| > 1 {
      var a :| a in s;
      assert s == (s - {a}) + {a};
      assert |s - {a}| >= 1;
      var b :| b in s - {a};
      var i :| 0 <= i < |ovs| && ovs[i].strand == a;
      var j :| 0 <= j < |ovs| && ovs[j].strand == b;
      assert ovs[i].strand != ovs[j].strand;
    }
  }

  /** `Region.annotate` as a function of the overlap list. */
  function Classify(ovs: seq<Overlap>): (a: Annotation)
    ensures |ovs| == 1 && ovs[0].IsNull() ==> a == Annotation(Intergenic, NoSymbol)
    ensures |ovs| == 1 && !ovs[0].IsNull() ==> a == Annotation(ovs[0].kind, ovs[0].symbol)
    ensures |ovs| != 1 ==> (a.genomicType == InvertedTx <==> MixedStrands(ovs))
    ensures |ovs| != 1 ==> (a.genomicType == MultipleTx <==> !MixedStrands(ovs))
    ensures |ovs| == 0 ==> a == Annotation(MultipleTx, "")
    ensures |ovs| != 1 ==> a.overlapSymbol == Text.Join(",", Symbols(ovs))
  {
    if |ovs| == 1 then
      if ovs[0].IsNull() then Annotation(Intergenic, NoSymbol)
      else Annotation(ovs[0].kind, ovs[0].symbol)
    else
      StrandsMoreThanOne(ovs);
      var genomicType := if |Strands(ovs)| > 1 then InvertedTx else MultipleTx;
      Annotation(genomicType, Text.Join(",", Symbols(ovs)))
  }

  /** With several overlaps the symbol field lists every overlap's symbol in
      arrival order, duplicates kept: splitting it at commas gives them back
      whenever no symbol itself contains a comma. */
  lemma MultiOverlapSymbols(ovs: seq<Overlap>)
    requires |ovs| > 1
    requires forall i :: 0 <= i < |ovs| ==> ',' !in ovs[i].symbol
    ensures Text.Split(Classify(ovs).overlapSymbol, ',') == Symbols(ovs)
  {
    Text.SplitJoin(Symbols(ovs), ',');
  }

  /** `Region.annotate`: fills in the annotation from the overlaps. */
  function Annotate(r: Region): (a: Region)
    ensures a.annotation == Some(Classify(r.overlaps))
    ensures a.(annotation := r.annotation) == r
  {
    r.(annotation := Some(Classify(r.overlaps)))
  }

  /** `annotate` only assigns, so a second call changes nothing. */
  lemma AnnotateIdempotent(r: Region)
    ensures Annotate(Annotate(r)) == Annotate(r)
  {
  }

  /** The annotation `long` and `short` use: the stored one, or a fresh one
      when `isAnnotated` is still false. */
  function CurrentAnnotation(r: Region): (a: Annotation)
    ensures r.annotation.Some? ==> a == r.annotation.value
    ensures r.annotation.None? ==> a == Classify(r.overlaps)
  {
    match r.annotation
    case Some(a) => a
    case None => Classify(r.overlaps)
  }

  /** `long` and `short` annotate on demand: a region not yet annotated is
      written exactly as it is after `annotate`, and an annotated region is
      written with the classification of its overlaps. */
  lemma PrintAnnotatesOnDemand(r: Region)
    ensures CurrentAnnotation(Annotate(r)) == Classify(r.overlaps)
    ensures r.annotation.None? ==> Long(r) == Long(Annotate(r)) && Short(r) == Short(Annotate(r))
  {
  }

  // ---------------------------------------------------------------------
  // Output layout
  // ---------------------------------------------------------------------

  /** `Region.long`: 15 fields with a literal `+` strand. */
  function Long(r: Region): (f: seq<string>)
    ensures |f| == 15
    ensures f[0] == r.chrom && f[3] == r.id && f[5] == "+"
    ensures Text.ParseInt(f[1]) == Some(r.start) && Text.ParseInt(f[2]) == Some(r.end)
    ensures Text.ParseInt(f[4]) == Some(r.width)
    ensures f[6..13] == [r.cp, r.cpm, r.cpkm, r.countS, r.countAs, r.rpmS, r.rpmAs]
    ensures [f[13], f[14]] == [CurrentAnnotation(r).genomicType, CurrentAnnotation(r).overlapSymbol]
  {
    var a := CurrentAnnotation(r);
    var place := [r.chrom, Text.Decimal(r.start), Text.Decimal(r.end), r.id, Text.Decimal(r.width), "+"];
    var stats := [r.cp, r.cpm, r.cpkm, r.countS, r.countAs, r.rpmS, r.rpmAs];
    var f := place + stats + [a.genomicType, a.overlapSymbol];
    assert f[..6] == place && f[6..13] == stats;
    f
  }

  /** `Region.short`: the id, the seven statistics and the annotation, that
      is, the long row without its position, width and strand. */
  function Short(r: Region): (f: seq<string>)
    ensures |f| == 10
    ensures f == [Long(r)[3]] + Long(r)[6..15]
    ensures f[0] == r.id
    ensures f[1..8] == [r.cp, r.cpm, r.cpkm, r.countS, r.countAs, r.rpmS, r.rpmAs]
    ensures [f[8], f[9]] == [CurrentAnnotation(r).genomicType, CurrentAnnotation(r).overlapSymbol]
  {
    var a := CurrentAnnotation(r);
    [r.id, r.cp, r.cpm, r.cpkm, r.countS, r.countAs, r.rpmS, r.rpmAs,
     a.genomicType, a.overlapSymbol]
  }

  // ---------------------------------------------------------------------
  // Grouping
  // ---------------------------------------------------------------------

  /** The position of the region with this id, if there is one. */
  function Find(groups: seq<Region>, id: string): (r: Option<nat>)
    ensures r.Some? ==> r.value < |groups| && groups[r.value].id == id
    ensures r.None? <==> forall i :: 0 <= i < |groups| ==> groups[i].id != id
    decreases |groups|
  {
    if |groups| == 0 then None
    else if groups[0].id == id then Some(0)
    else
      match Find(groups[1..], id)
      case None => None
      case Some(i) => Some(i + 1)
  }

  /** `Region.add`. */
  function AddOverlap(r: Region, o: Overlap): Region {
    r.(overlaps := r.overlaps + [o])
  }

  /** One step of `main`'s loop: the overlap joins the region already seen
      with that id, or the line's region is appended with it. */
  function AddRow(groups: seq<Region>, row: Row): seq<Region> {
    match Find(groups, row.region.id)
    case Some(i) => groups[i := AddOverlap(groups[i], row.overlap)]
    case None => groups + [AddOverlap(row.region, row.overlap)]
  }

  predicate HasId(rows: seq<Row>, id: string) {
    exists k :: 0 <= k < |rows| && rows[k].region.id == id
  }

  /** The index of the first row with this id. */
  function FirstRow(rows: seq<Row>, id: string): (k: nat)
    requires HasId(rows, id)
    ensures k < |rows| && rows[k].region.id == id
    ensures forall j :: 0 <= j < k ==> rows[j].region.id != id
    decreases |rows|
  {
    var n := |rows| - 1;
    if HasId(rows[..n], id) then
      var k := FirstRow(rows[..n], id);
      assert rows[..n][k] == rows[k];
      assert forall j :: 0 <= j < k ==> rows[..n][j] == rows[j];
      k
    else
      assert forall j :: 0 <= j < n ==> rows[..n][j] == rows[j];
      n
  }

  /** The overlaps of the rows with this id, in input order. */
  function OverlapsFor(rows: seq<Row>, id: string): seq<Overlap>
    decreases |rows|
  {
    if |rows| == 0 then []
    else
      var n := |rows| - 1;
      OverlapsFor(rows[..n], id) + (if rows[n].region.id == id then [rows[n].overlap] else [])
  }

  lemma {:induction false} OverlapsForNonEmpty(rows: seq<Row>, id: string)
    requires HasId(rows, id)
    ensures |OverlapsFor(rows, id)| >= 1
    decreases |rows|
  {
    var n := |rows| - 1;
    if rows[n].region.id != id {
      var k :| 0 <= k < |rows| && rows[k].region.id == id;
      assert rows[..n][k] == rows[k];
      OverlapsForNonEmpty(rows[..n], id);
    }
  }

  /** Two regions agree on everything `Region.__init__` sets. */
  predicate SameHeader(a: Region, b: Region) {
    a.(overlaps := [], annotation := None) == b.(overlaps := [], annotation := None)
  }

  /** No id is held by two regions. */
  predicate DistinctIds(g: seq<Region>) {
    forall i, j :: 0 <= i < j < |g| ==> g[i].id != g[j].id
  }

  /** Every row's id has a region. */
  predicate CoversRows(g: seq<Region>, rows: seq<Row>) {
    forall k :: 0 <= k < |rows| ==> Find(g, rows[k].region.id).Some?
  }

  /** Every region comes from the rows: its header from the first row with its
      id, its overlaps from all rows with its id, and it is not yet annotated. */
  predicate BuiltFromRows(g: seq<Region>, rows: seq<Row>) {
    forall i :: 0 <= i < |g| ==>
      && HasId(rows, g[i].id)
      && g[i].overlaps == OverlapsFor(rows, g[i].id)
      && g[i].annotation.None?
      && SameHeader(g[i], rows[FirstRow(rows, g[i].id)].region)
  }

  /** Regions appear in the order their ids first appear in the rows. */
  predicate FirstSeenOrder(g: seq<Region>, rows: seq<Row>)
    requires forall i :: 0 <= i < |g| ==> HasId(rows, g[i].id)
  {
    forall i, j :: 0 <= i < j < |g| ==> FirstRow(rows, g[i].id) < FirstRow(rows, g[j].id)
  }

  predicate GroupedBy(g: seq<Region>, rows: seq<Row>) {
    && DistinctIds(g)
    && CoversRows(g, rows)
    && BuiltFromRows(g, rows)
    && FirstSeenOrder(g, rows)
  }

  /** The grouping loop of `main`: one region per distinct id, in the order
      ids first appear, built from the first row with that id, holding the
      overlaps of all its rows in input order. */
  function Group(rows: seq<Row>): (g: seq<Region>)
    requires forall k :: 0 <= k < |rows| ==> rows[k].region.IsFresh()
    ensures GroupedBy(g, rows)
    decreases |rows|
  {
    if |rows| == 0 then []
    else
      var n := |rows| - 1;
      var prev := Group(rows[..n]);
      GroupStep(rows, prev);
      AddRow(prev, rows[n])
  }

  /** Ids already present in a prefix keep their first row in the whole. */
  lemma FirstRowOfPrefix(rows: seq<Row>, n: nat, id: string)
    requires n <= |rows|
    requires HasId(rows[..n], id)
    ensures HasId(rows, id) && FirstRow(rows, id) == FirstRow(rows[..n], id)
  {
    var k := FirstRow(rows[..n], id);
    assert rows[k] == rows[..n][k];
    assert forall j :: 0 <= j < k ==> rows[j] == rows[..n][j];
  }

  /** The last row contributes to its own id only. */
  lemma OverlapsForLast(rows: seq<Row>, id: string)
    requires |rows| > 0
    ensures var n := |rows| - 1;
            OverlapsFor(rows, id) ==
              OverlapsFor(rows[..n], id) + (if rows[n].region.id == id then [rows[n].overlap] else [])
  {
  }

  /** The induction step behind `Group`'s contract. */
  lemma GroupStep(rows: seq<Row>, prev: seq<Region>)
    requires |rows| > 0
    requires forall k :: 0 <= k < |rows| ==> rows[k].region.IsFresh()
    requires GroupedBy(prev, rows[..|rows| - 1])
    ensures GroupedBy(AddRow(prev, rows[|rows| - 1]), rows)
  {
    var n := |rows| - 1;
    var p := rows[..n];
    var row := rows[n];
    var g := AddRow(prev, row);
    StepKeepsIds(prev, row);
    StepCovers(rows, prev);
    match Find(prev, row.region.id)
    case Some(x) => {
      StepBuiltExisting(rows, prev, x);
      StepOrderExisting(rows, prev);
    }
    case None => {
      forall k | 0 <= k < |p|
        ensures p[k].region.id != row.region.id
      {
        assert Find(prev, p[k].region.id).Some?;
      }
      StepBuiltNew(rows, prev);
      StepOrderNew(rows, prev);
    }
  }

  /** Earlier regions keep their ids; a new id is appended at the end. */
  lemma StepKeepsIds(prev: seq<Region>, row: Row)
    requires DistinctIds(prev)
    ensures var g := AddRow(prev, row);
            && |g| >= |prev|
            && (forall i :: 0 <= i < |prev| ==> g[i].id == prev[i].id)
            && (|g| > |prev| ==> |g| == |prev| + 1 && g[|prev|].id == row.region.id)
            && DistinctIds(g)
  {
  }

  lemma StepCovers(rows: seq<Row>, prev: seq<Region>)
    requires |rows| > 0
    requires DistinctIds(prev) && CoversRows(prev, rows[..|rows| - 1])
    ensures CoversRows(AddRow(prev, rows[|rows| - 1]), rows)
  {
    var n := |rows| - 1;
    var p := rows[..n];
    var g := AddRow(prev, rows[n]);
    StepKeepsIds(prev, rows[n]);
    forall k | 0 <= k < |rows|
      ensures Find(g, rows[k].region.id).Some?
    {
      if k < n {
        assert p[k] == rows[k];
        var y := Find(prev, p[k].region.id).value;
        assert g[y].id == rows[k].region.id;
      } else {
        var y := if Find(prev, rows[n].region.id).Some? then Find(prev, rows[n].region.id).value else |prev|;
        assert g[y].id == rows[k].region.id;
      }
    }
  }

  lemma StepBuiltExisting(rows: seq<Row>, prev: seq<Region>, x: nat)
    requires |rows| > 0
    requires DistinctIds(prev) && BuiltFromRows(prev, rows[..|rows| - 1])
    requires Find(prev, rows[|rows| - 1].region.id) == Some(x)
    ensures BuiltFromRows(AddRow(prev, rows[|rows| - 1]), rows)
  {
    var n := |rows| - 1;
    var p := rows[..n];
    var row := rows[n];
    var g := AddRow(prev, row);
    assert g == prev[x := AddOverlap(prev[x], row.overlap)];
    forall i | 0 <= i < |g|
      ensures HasId(rows, g[i].id)
      ensures g[i].overlaps == OverlapsFor(rows, g[i].id)
      ensures g[i].annotation.None?
      ensures SameHeader(g[i], rows[FirstRow(rows, g[i].id)].region)
    {
      var id := prev[i].id;
      FirstRowOfPrefix(rows, n, id);
      OverlapsForLast(rows, id);
      var f := FirstRow(p, id);
      assert rows[f] == p[f];
      if i != x {
        assert row.region.id != id;
      }
    }
  }

  lemma StepBuiltNew(rows: seq<Row>, prev: seq<Region>)
    requires |rows| > 0
    requires rows[|rows| - 1].region.IsFresh()
    requires BuiltFromRows(prev, rows[..|rows| - 1])
    requires Find(prev, rows[|rows| - 1].region.id).None?
    requires !HasId(rows[..|rows| - 1], rows[|rows| - 1].region.id)
    ensures BuiltFromRows(AddRow(prev, rows[|rows| - 1]), rows)
  {
    var n := |rows| - 1;
    var p := rows[..n];
    var row := rows[n];
    var id := row.region.id;
    var g := AddRow(prev, row);
    assert g == prev + [AddOverlap(row.region, row.overlap)];
    forall i | 0 <= i < |prev|
      ensures HasId(rows, g[i].id)
      ensures g[i].overlaps == OverlapsFor(rows, g[i].id)
      ensures g[i].annotation.None?
      ensures SameHeader(g[i], rows[FirstRow(rows, g[i].id)].region)
    {
      var pid := prev[i].id;
      FirstRowOfPrefix(rows, n, pid);
      OverlapsForLast(rows, pid);
      var f := FirstRow(p, pid);
      assert rows[f] == p[f];
    }
    assert HasId(rows, id) && FirstRow(rows, id) == n by {
      assert rows[n].region.id == id;
      forall j | 0 <= j < n ensures rows[j].region.id != id {
        assert p[j] == rows[j];
      }
    }
    OverlapsForAbsent(p, id);
    OverlapsForLast(rows, id);
    assert g[|prev|].overlaps == OverlapsFor(rows, id);
  }

  lemma StepOrderExisting(rows: seq<Row>, prev: seq<Region>)
    requires |rows| > 0
    requires DistinctIds(prev) && BuiltFromRows(prev, rows[..|rows| - 1])
    requires FirstSeenOrder(prev, rows[..|rows| - 1])
    requires Find(prev, rows[|rows| - 1].region.id).Some?
    requires BuiltFromRows(AddRow(prev, rows[|rows| - 1]), rows)
    ensures FirstSeenOrder(AddRow(prev, rows[|rows| - 1]), rows)
  {
    var n := |rows| - 1;
    var g := AddRow(prev, rows[n]);
    StepKeepsIds(prev, rows[n]);
    forall i | 0 <= i < |g|
      ensures FirstRow(rows, g[i].id) == FirstRow(rows[..n], prev[i].id)
    {
      FirstRowOfPrefix(rows, n, prev[i].id);
    }
  }

  lemma StepOrderNew(rows: seq<Row>, prev: seq<Region>)
    requires |rows| > 0
    requires DistinctIds(prev) && BuiltFromRows(prev, rows[..|rows| - 1])
    requires FirstSeenOrder(prev, rows[..|rows| - 1])
    requires Find(prev, rows[|rows| - 1].region.id).None?
    requires BuiltFromRows(AddRow(prev, rows[|rows| - 1]), rows)
    requires HasId(rows, rows[|rows| - 1].region.id) && FirstRow(rows, rows[|rows| - 1].region.id) == |rows| - 1
    ensures FirstSeenOrder(AddRow(prev, rows[|rows| - 1]), rows)
  {
    var n := |rows| - 1;
    var g := AddRow(prev, rows[n]);
    StepKeepsIds(prev, rows[n]);
    forall i | 0 <= i < |prev|
      ensures FirstRow(rows, g[i].id) == FirstRow(rows[..n], prev[i].id)
    {
      FirstRowOfPrefix(rows, n, prev[i].id);
    }
  }

  lemma {:induction false} OverlapsForAbsent(rows: seq<Row>, id: string)
    requires !HasId(rows, id)
    ensures OverlapsFor(rows, id) == []
    decreases |rows|
  {
    if |rows| > 0 {
      var n := |rows| - 1;
      assert forall k :: 0 <= k < n ==> rows[..n][k] == rows[k];
      OverlapsForAbsent(rows[..n], id);
    }
  }

  /** Total number of overlaps held by a list of regions. */
  function TotalOverlaps(g: seq<Region>): nat
    decreases |g|
  {
    if |g| == 0 then 0 else TotalOverlaps(g[..|g| - 1]) + |g[|g| - 1].overlaps|
  }

  lemma {:induction false} TotalOverlapsUpdate(g: seq<Region>, i: nat, r: Region)
    requires i < |g|
    ensures TotalOverlaps(g[i := r]) == TotalOverlaps(g) - |g[i].overlaps| + |r.overlaps|
    decreases |g|
  {
    var n := |g| - 1;
    if i < n {
      assert g[i := r][..n] == g[..n][i := r];
      TotalOverlapsUpdate(g[..n], i, r);
    } else {
      assert g[i := r][..n] == g[..n];
    }
  }

  /** Each input row adds exactly one overlap, so the regions hold as many
      overlaps as there were rows. */
  lemma {:induction false} GroupKeepsEveryRow(rows: seq<Row>)
    requires forall k :: 0 <= k < |rows| ==> rows[k].region.IsFresh()
    ensures TotalOverlaps(Group(rows)) == |rows|
    decreases |rows|
  {
    if |rows| > 0 {
      var n := |rows| - 1;
      var prev := Group(rows[..n]);
      GroupKeepsEveryRow(rows[..n]);
      var row := rows[n];
      match Find(prev, row.region.id)
      case Some(x) => {
        TotalOverlapsUpdate(prev, x, AddOverlap(prev[x], row.overlap));
      }
      case None => {
        var g := prev + [AddOverlap(row.region, row.overlap)];
        assert g[..|g| - 1] == prev;
      }
    }
  }

  // ---------------------------------------------------------------------
  // The whole pass
  // ---------------------------------------------------------------------

  /** Row `f` is a long row written for region `r`: it has 15 fields and
      carries `r`'s position, id, width, the `+` strand and the statistics. */
  predicate LongHeader(f: seq<string>, r: Region) {
    && |f| == 15
    && f[0] == r.chrom && f[3] == r.id && f[5] == "+"
    && Text.ParseInt(f[1]) == Some(r.start) && Text.ParseInt(f[2]) == Some(r.end)
    && Text.ParseInt(f[4]) == Some(r.width)
    && f[6..13] == [r.cp, r.cpm, r.cpkm, r.countS, r.countAs, r.rpmS, r.rpmAs]
  }

  /** The output loop of `main`: annotate each region, then emit its long row. */
  function Emit(g: seq<Region>): (out: seq<seq<string>>)
    ensures |out| == |g|
    ensures forall i :: 0 <= i < |g| ==>
              && |out[i]| == 15
              && LongHeader(out[i], g[i])
              && out[i][3] == g[i].id
              && [out[i][13], out[i][14]] ==
                 [Classify(g[i].overlaps).genomicType, Classify(g[i].overlaps).overlapSymbol]
  {
    seq(|g|, i requires 0 <= i < |g| => Long(Annotate(g[i])))
  }

  /** `main`: parse every line, group, then annotate and emit every region. */
  function Run(lines: seq<seq<string>>): (r: Result<seq<seq<string>>, ParseError>)
    ensures r.Ok? <==> forall k :: 0 <= k < |lines| ==> ParseRow(lines[k]).Ok?
    ensures r.Ok? ==> ParseRows(lines).Ok? && |r.value| == |Group(ParseRows(lines).value)|
  {
    match ParseRows(lines)
    case Err(e) => Err(e)
    case Ok(rows) =>
      ParsedRowsFresh(rows, lines);
      Ok(Emit(Group(rows)))
  }

  lemma ParsedRowsFresh(rows: seq<Row>, lines: seq<seq<string>>)
    requires ParseRows(lines) == Ok(rows)
    ensures forall k :: 0 <= k < |rows| ==> rows[k].region.IsFresh()
  {
    forall k | 0 <= k < |rows| ensures rows[k].region.IsFresh() {
      assert ParseRow(lines[k]) == Ok(rows[k]);
    }
  }

  /** The emitted rows carry distinct ids, one for every id in the input. */
  lemma EmitGroupedIds(g: seq<Region>, rows: seq<Row>)
    requires GroupedBy(g, rows)
    ensures var out := Emit(g);
            && (forall i, j :: 0 <= i < j < |out| ==> out[i][3] != out[j][3])
            && (forall k :: 0 <= k < |rows| ==> Lists(out, rows[k].region.id))
  {
    var out := Emit(g);
    assert DistinctIds(g) && CoversRows(g, rows);
    forall k | 0 <= k < |rows|
      ensures Lists(out, rows[k].region.id)
    {
      var i := Find(g, rows[k].region.id).value;
      assert out[i][3] == rows[k].region.id;
    }
  }

  /** Each emitted row is classified from all overlaps of its id. */
  lemma EmitGroupedClassified(g: seq<Region>, rows: seq<Row>)
    requires GroupedBy(g, rows)
    ensures var out := Emit(g);
            forall i :: 0 <= i < |out| ==>
              && HasId(rows, out[i][3])
              && |OverlapsFor(rows, out[i][3])| >= 1
              && [out[i][13], out[i][14]] ==
                 [Classify(OverlapsFor(rows, out[i][3])).genomicType,
                  Classify(OverlapsFor(rows, out[i][3])).overlapSymbol]
  {
    var out := Emit(g);
    assert BuiltFromRows(g, rows);
    forall i | 0 <= i < |out|
      ensures HasId(rows, out[i][3])
      ensures |OverlapsFor(rows, out[i][3])| >= 1
      ensures [out[i][13], out[i][14]] ==
              [Classify(OverlapsFor(rows, out[i][3])).genomicType,
               Classify(OverlapsFor(rows, out[i][3])).overlapSymbol]
    {
      assert out[i][3] == g[i].id;
      assert HasId(rows, g[i].id);
      OverlapsForNonEmpty(rows, g[i].id);
    }
  }

  /** Some output row carries region id `id`. */
  predicate Lists(out: seq<seq<string>>, id: string) {
    exists i :: 0 <= i < |out| && |out[i]| > 3 && out[i][3] == id
  }

  /** What `main` should print for the parsed rows: one row per distinct
      region id, covering every id, in first-seen order, each carrying the
      region read from the first line with that id and classified from
      exactly the overlaps of that id's rows (never an empty list). */
  predicate AnnotatedOutput(out: seq<seq<string>>, rows: seq<Row>) {
    && (forall i :: 0 <= i < |out| ==> |out[i]| == 15)
    && (forall i :: 0 <= i < |out| ==>
          HasId(rows, out[i][3]) && LongHeader(out[i], rows[FirstRow(rows, out[i][3])].region))
    && (forall i, j :: 0 <= i < j < |out| ==> out[i][3] != out[j][3])
    && (forall k :: 0 <= k < |rows| ==> Lists(out, rows[k].region.id))
    && (forall i :: 0 <= i < |out| ==>
          && HasId(rows, out[i][3])
          && |OverlapsFor(rows, out[i][3])| >= 1
          && [out[i][13], out[i][14]] ==
             [Classify(OverlapsFor(rows, out[i][3])).genomicType,
              Classify(OverlapsFor(rows, out[i][3])).overlapSymbol])
    && (forall i, j :: 0 <= i < j < |out| ==> FirstRow(rows, out[i][3]) < FirstRow(rows, out[j][3]))
  }

  lemma EmitGrouped(g: seq<Region>, rows: seq<Row>)
    requires GroupedBy(g, rows)
    ensures AnnotatedOutput(Emit(g), rows)
  {
    EmitGroupedIds(g, rows);
    EmitGroupedClassified(g, rows);
    EmitGroupedOrder(g, rows);
    EmitGroupedHeaders(g, rows);
  }

  /** Each emitted row carries the region of the first line with its id. */
  lemma EmitGroupedHeaders(g: seq<Region>, rows: seq<Row>)
    requires GroupedBy(g, rows)
    ensures var out := Emit(g);
            forall i :: 0 <= i < |out| ==>
              HasId(rows, out[i][3]) && LongHeader(out[i], rows[FirstRow(rows, out[i][3])].region)
  {
    var out := Emit(g);
    assert BuiltFromRows(g, rows);
    forall i | 0 <= i < |out|
      ensures HasId(rows, out[i][3]) && LongHeader(out[i], rows[FirstRow(rows, out[i][3])].region)
    {
      assert out[i][3] == g[i].id && HasId(rows, g[i].id);
      var first := rows[FirstRow(rows, g[i].id)].region;
      assert SameHeader(g[i], first);
      HeaderShared(out[i], g[i], first);
    }
  }

  /** Regions with the same header write the same long-row header. */
  lemma HeaderShared(f: seq<string>, a: Region, b: Region)
    requires SameHeader(a, b) && LongHeader(f, a)
    ensures LongHeader(f, b)
  {
    var a0, b0 := a.(overlaps := [], annotation := None), b.(overlaps := [], annotation := None);
    assert a0 == b0;
    assert a.chrom == a0.chrom && a.start == a0.start && a.end == a0.end && a.id == a0.id && a.width == a0.width;
    assert b.chrom == b0.chrom && b.start == b0.start && b.end == b0.end && b.id == b0.id && b.width == b0.width;
    assert a.cp == a0.cp && a.cpm == a0.cpm && a.cpkm == a0.cpkm && a.countS == a0.countS;
    assert b.cp == b0.cp && b.cpm == b0.cpm && b.cpkm == b0.cpkm && b.countS == b0.countS;
    assert a.countAs == a0.countAs && a.rpmS == a0.rpmS && a.rpmAs == a0.rpmAs;
    assert b.countAs == b0.countAs && b.rpmS == b0.rpmS && b.rpmAs == b0.rpmAs;
  }

  /** The emitted rows keep the first-seen order of their ids. */
  lemma EmitGroupedOrder(g: seq<Region>, rows: seq<Row>)
    requires GroupedBy(g, rows)
    ensures var out := Emit(g);
            && (forall i :: 0 <= i < |out| ==> HasId(rows, out[i][3]))
            && forall i, j :: 0 <= i < j < |out| ==> FirstRow(rows, out[i][3]) < FirstRow(rows, out[j][3])
  {
    var out := Emit(g);
    assert BuiltFromRows(g, rows);
    forall i, j | 0 <= i < j < |out|
      ensures FirstRow(rows, out[i][3]) < FirstRow(rows, out[j][3])
    {
      assert out[i][3] == g[i].id && out[j][3] == g[j].id;
      assert FirstSeenOrder(g, rows);
    }
  }

  /** What `main` prints: one row per distinct region id, in first-seen
      order, classified from exactly the overlaps of that id's lines. */
  lemma RunOutput(lines: seq<seq<string>>, rows: seq<Row>)
    requires ParseRows(lines) == Ok(rows)
    ensures Run(lines).Ok? && AnnotatedOutput(Run(lines).value, rows)
  {
    ParsedRowsFresh(rows, lines);
    var g := Group(rows);
    assert Run(lines) == Ok(Emit(g));
    EmitGrouped(g, rows);
  }
}
