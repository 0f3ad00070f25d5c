/**
  The strand-aware fragment tally (parse.py): every line of an
  interval-intersection report pairs one read with one region. The read
  name is split into a fragment name and a mate id, the fragment's strand is
  derived from the read strand (mate 1 keeps it, the other mate flips it),
  and the region's forward or reverse count grows by `1/NH` the first time a
  fragment is seen in that region. Regions are kept in first-seen order.

  Each line is taken as its list of fields; counts are exact `real`s.
 */
module Tally {
  import opened Results
  import Text

  /** What aborts the pass. */
  datatype TallyError =
    | MissingField(fields: seq<string>)   // IndexError: a field past the end of the line
    | NotAnInteger(text: string)          // ValueError from `int()`
    | ZeroNh                              // ZeroDivisionError from `1/int(f[4])`
    | EmptyReadName                       // IndexError from `read_name[-1]`
    | NoFlip(readStrand: string)          // `ord` of a non-character or `chr` of a negative code
    | UnknownStrand(strand: string)       // the raise in `Region.add`

  /** `IntersectResult`: one read's mention of one region. */
  datatype Hit = Hit(
    fragment: string, mate: char, readStrand: string, strand: string,
    regionId: string, weight: real)

  /** parse.py `Region`: header text from the report, the fragment names
      seen so far and the two weighted counts. */
  datatype Region = Region(
    chrom: string, start: string, end: string, id: string, length: string,
    fragments: set<string>, countp: real, countn: real)

  /** The code point the flip subtracts from: `ord('+') + ord('-')`. */
  const FlipBase := 88

  /** `chr(88 - ord(c))` for a one-character strand; fails where `ord` or
      `chr` would raise. */
  function Flip(s: string): (r: Result<string, TallyError>)
    ensures r.Ok? <==> |s| == 1 && s[0] as int <= FlipBase
    ensures r.Ok? ==> |r.value| == 1 && r.value[0] as int == FlipBase - s[0] as int
  {
    if |s| != 1 || s[0] as int > FlipBase then Err(NoFlip(s))
    else Ok([(FlipBase - s[0] as int) as char])
  }

  /** The flip swaps `+` and `-` and undoes itself. */
  lemma FlipSwapsSigns()
    ensures Flip("+") == Ok("-") && Flip("-") == Ok("+")
    ensures forall s :: Flip(s).Ok? ==> Flip(Flip(s).value) == Ok(s)
  {
    forall s | Flip(s).Ok?
      ensures Flip(Flip(s).value) == Ok(s)
    {
      var t := Flip(s).value;
      assert [t[0]] == t;
      assert [(FlipBase - t[0] as int) as char] == s;
    }
  }

  /** `read_name[:-2]`: everything but the last two characters. */
  function FragmentName(name: string): (r: string)
    ensures |name| >= 2 ==> name == r + name[|name| - 2..]
    ensures |name| < 2 ==> r == ""
  {
    if |name| >= 2 then name[..|name| - 2] else ""
  }

  /** `_get_strand`: mate `1` keeps the read strand, any other mate flips it,
      so the fragment of a mate-2 read on `+` lies on `-` and vice versa. */
  function FragmentStrand(mate: char, readStrand: string): (r: Result<string, TallyError>)
    ensures mate == '1' ==> r == Ok(readStrand)
    ensures mate != '1' ==> r == Flip(readStrand)
    ensures mate != '1' && readStrand == "+" ==> r == Ok("-")
    ensures mate != '1' && readStrand == "-" ==> r == Ok("+")
  {
    if mate == '1' then Ok(readStrand) else Flip(readStrand)
  }

  /** `IntersectResult.__init__`. */
  function MakeHit(name: string, readStrand: string, regionId: string, weight: real): (r: Result<Hit, TallyError>)
    ensures |name| == 0 ==> r == Err(EmptyReadName)
    ensures r.Ok? <==> |name| > 0 && FragmentStrand(name[|name| - 1], readStrand).Ok?
    ensures r.Ok? ==>
              && r.value.fragment == FragmentName(name) && r.value.mate == name[|name| - 1]
              && FragmentStrand(r.value.mate, readStrand) == Ok(r.value.strand)
              && r.value.readStrand == readStrand && r.value.regionId == regionId
              && r.value.weight == weight
  {
    if |name| == 0 then Err(EmptyReadName)
    else
      var mate := name[|name| - 1];
      var strand :- FragmentStrand(mate, readStrand);
      Ok(Hit(FragmentName(name), mate, readStrand, strand, regionId, weight))
  }

  /** A paired-end name `fragment/m` splits back into `fragment` and `m`, so
      both mates of a fragment carry the same fragment name. */
  lemma PairedName(fragment: string, m: char)
    ensures var name := fragment + "/" + [m];
            FragmentName(name) == fragment && name[|name| - 1] == m
  {
    var name := fragment + "/" + [m];
    assert name[..|name| - 2] == fragment;
  }

  /** Mates of a properly paired fragment (mate 1 on strand `s`, the other
      mate on the opposite strand) both report strand `s`. */
  lemma MatesAgree(s: string, other: string, mate: char)
    requires (s == "+" && other == "-") || (s == "-" && other == "+")
    requires mate != '1'
    ensures FragmentStrand('1', s) == FragmentStrand(mate, other) == Ok(s)
  {
    FlipSwapsSigns();
  }

  /** `IntersectResult.from_line`. */
  function HitFromLine(f: seq<string>): Result<Hit, TallyError> {
    if |f| < 16 then Err(MissingField(f))
    else
      var nh :- Text.ToInt(f[4], NotAnInteger(f[4]));
      if nh == 0 then Err(ZeroNh)
      else MakeHit(f[3], f[5], f[15], 1.0 / (nh as real))
  }

  /** A line yields a hit when it has the 16 fields read, field 4 is a
      non-zero integer NH and the read name splits; the hit takes its read
      name from field 3, read strand from field 5, region id from field 15
      and weight `1/NH`. */
  lemma HitFromLineSpec(f: seq<string>)
    ensures |f| < 16 ==> HitFromLine(f) == Err(MissingField(f))
    ensures |f| >= 16 && Text.ParseInt(f[4]).None? ==> HitFromLine(f) == Err(NotAnInteger(f[4]))
    ensures |f| >= 16 && Text.ParseInt(f[4]) == Some(0) ==> HitFromLine(f) == Err(ZeroNh)
    ensures HitFromLine(f).Ok? <==>
              && |f| >= 16 && Text.ParseInt(f[4]).Some? && Text.ParseInt(f[4]).value != 0
              && MakeHit(f[3], f[5], f[15], 1.0 / (Text.ParseInt(f[4]).value as real)).Ok?
    ensures HitFromLine(f).Ok? ==>
              && HitFromLine(f) == MakeHit(f[3], f[5], f[15], 1.0 / (Text.ParseInt(f[4]).value as real))
              && HitFromLine(f).value.weight * (Text.ParseInt(f[4]).value as real) == 1.0
    ensures HitFromLine(f).Ok? ==>
              var h := HitFromLine(f).value;
              && h.fragment == FragmentName(f[3]) && h.mate == f[3][|f[3]| - 1]
              && h.readStrand == f[5] && FragmentStrand(h.mate, f[5]) == Ok(h.strand)
              && h.regionId == f[15]
  {
  }

  /** `Region.from_line`: the region's header is fields 12 to 16; counts
      start at zero with no fragment seen. */
  function RegionFromLine(f: seq<string>): (r: Result<Region, TallyError>)
    ensures r.Ok? <==> |f| >= 17
    ensures r.Ok? ==> r.value == Region(f[12], f[13], f[14], f[15], f[16], {}, 0.0, 0.0)
  {
    if |f| < 17 then Err(MissingField(f))
    else Ok(Region(f[12], f[13], f[14], f[15], f[16], {}, 0.0, 0.0))
  }

  /** The header a region keeps for its whole life. */
  predicate SameHeader(a: Region, b: Region) {
    a.chrom == b.chrom && a.start == b.start && a.end == b.end && a.id == b.id && a.length == b.length
  }

  /** `Region.add`: a fragment already seen changes nothing; a new fragment
      is recorded and its weight goes to exactly one count, by strand; a new
      fragment with any other strand aborts the pass. */
  function Add(r: Region, h: Hit): (out: Result<Region, TallyError>)
    ensures h.fragment in r.fragments ==> out == Ok(r)
    ensures h.fragment !in r.fragments ==>
              (out.Ok? <==> h.strand == "+" || h.strand == "-")
    ensures h.fragment !in r.fragments && out.Err? ==> out.error == UnknownStrand(h.strand)
    ensures out.Ok? ==> SameHeader(out.value, r) && out.value.fragments == r.fragments + {h.fragment}
    ensures out.Ok? && h.fragment !in r.fragments ==>
              && out.value.countp == r.countp + (if h.strand == "+" then h.weight else 0.0)
              && out.value.countn == r.countn + (if h.strand == "-" then h.weight else 0.0)
  {
    if h.fragment in r.fragments then Ok(r)
    else if h.strand == "+" then Ok(r.(fragments := r.fragments + {h.fragment}, countp := r.countp + h.weight))
    else if h.strand == "-" then Ok(r.(fragments := r.fragments + {h.fragment}, countn := r.countn + h.weight))
    else Err(UnknownStrand(h.strand))
  }

  /** Re-adding a mate of a fragment already counted is a no-op. */
  lemma AddIdempotent(r: Region, h: Hit, h': Hit)
    requires Add(r, h).Ok? && h'.fragment == h.fragment
    ensures Add(Add(r, h).value, h') == Add(r, h)
  {
  }

  // ---------------------------------------------------------------------
  // The loop of main
  // ---------------------------------------------------------------------

  /** The index of the region with this id, if any. */
  function Find(acc: seq<Region>, id: string): (r: Option<nat>)
    ensures r.None? <==> forall k :: 0 <= k < |acc| ==> acc[k].id != id
    ensures r.Some? ==> r.value < |acc| && acc[r.value].id == id
    decreases |acc|
  {
    if |acc| == 0 then None
    else if acc[0].id == id then Some(0)
    else match Find(acc[1..], id)
      case None => None
      case Some(k) => Some(k + 1)
  }

  /** One iteration: create the region on its first mention, then add. */
  function Feed(acc: seq<Region>, f: seq<string>): Result<seq<Region>, TallyError> {
    var h :- HitFromLine(f);
    match Find(acc, h.regionId)
    case None =>
      var r :- RegionFromLine(f);
      var r' :- Add(r, h);
      Ok(acc + [r'])
    case Some(i) =>
      var r' :- Add(acc[i], h);
      Ok(acc[i := r'])
  }

  /** `main`'s loop over all lines; the first error aborts the pass. */
  function Run(lines: seq<seq<string>>): Result<seq<Region>, TallyError>
    decreases |lines|
  {
    if |lines| == 0 then Ok([])
    else
      var acc :- Run(lines[..|lines| - 1]);
      Feed(acc, lines[|lines| - 1])
  }


  // ---------------------------------------------------------------------
  // Reference definitions over the parsed hits
  // ---------------------------------------------------------------------

  /** `hits` are the hits of `lines`, one per line. */
  predicate ParsedAs(lines: seq<seq<string>>, hits: seq<Hit>) {
    |hits| == |lines| && forall i :: 0 <= i < |lines| ==> HitFromLine(lines[i]) == Ok(hits[i])
  }

  predicate AllHits(lines: seq<seq<string>>) {
    forall i :: 0 <= i < |lines| ==> HitFromLine(lines[i]).Ok?
  }

  function HitsOf(lines: seq<seq<string>>): (hits: seq<Hit>)
    requires AllHits(lines)
    ensures ParsedAs(lines, hits)
  {
    seq(|lines|, i requires 0 <= i < |lines| && HitFromLine(lines[i]).Ok? => HitFromLine(lines[i]).value)
  }

  /** The fragment names among the hits on region `id`. */
  function Seen(hits: seq<Hit>, id: string): set<string>
    decreases |hits|
  {
    if |hits| == 0 then {}
    else
      var n := |hits| - 1;
      Seen(hits[..n], id) + (if hits[n].regionId == id then {hits[n].fragment} else {})
  }

  /** Hit `n` is the first mention of its fragment on its region. */
  predicate FirstMention(hits: seq<Hit>, n: nat)
    requires n < |hits|
  {
    hits[n].fragment !in Seen(hits[..n], hits[n].regionId)
  }

  /** The summed weights of the first mentions on region `id` with strand `s`. */
  function Count(hits: seq<Hit>, id: string, s: string): real
    decreases |hits|
  {
    if |hits| == 0 then 0.0
    else
      var n := |hits| - 1;
      Count(hits[..n], id, s)
      + (if hits[n].regionId == id && FirstMention(hits, n) && hits[n].strand == s then hits[n].weight else 0.0)
  }

  /** Hit `n` is the first mention of its region. */
  predicate NewRegion(hits: seq<Hit>, n: nat)
    requires n < |hits|
  {
    forall i :: 0 <= i < n ==> hits[i].regionId != hits[n].regionId
  }

  /** The positions of the regions' first mentions, in order. */
  function Firsts(hits: seq<Hit>): (fs: seq<nat>)
    ensures forall k :: 0 <= k < |fs| ==> fs[k] < |hits| && NewRegion(hits, fs[k])
    ensures forall k, l :: 0 <= k < l < |fs| ==> fs[k] < fs[l]
    decreases |hits|
  {
    if |hits| == 0 then []
    else
      var n := |hits| - 1;
      var p := Firsts(hits[..n]);
      assert forall k :: 0 <= k < |p| ==> NewRegion(hits, p[k]) by {
        forall k | 0 <= k < |p|
          ensures NewRegion(hits, p[k])
        {
          assert NewRegion(hits[..n], p[k]);
        }
      }
      if NewRegion(hits, n) then p + [n] else p
  }

  /** What `main` accepts once every line has yielded a hit: the first line
      of each region carries the region's header, and the first mention of
      each fragment on a region has strand `+` or `-`. */
  predicate AcceptedHits(lines: seq<seq<string>>, hits: seq<Hit>)
    requires |lines| == |hits|
  {
    && (forall n :: 0 <= n < |hits| && NewRegion(hits, n) ==> |lines[n]| >= 17)
    && (forall n :: 0 <= n < |hits| && FirstMention(hits, n) ==> hits[n].strand == "+" || hits[n].strand == "-")
  }

  /** Region `r` is the tally `main` should hold for the region first
      mentioned at line `j`. */
  predicate TalliedFrom(r: Region, lines: seq<seq<string>>, hits: seq<Hit>, j: nat)
    requires j < |lines| == |hits|
  {
    && RegionFromLine(lines[j]).Ok?
    && SameHeader(r, RegionFromLine(lines[j]).value)
    && r.id == hits[j].regionId
    && r.fragments == Seen(hits, r.id)
    && r.countp == Count(hits, r.id, "+")
    && r.countn == Count(hits, r.id, "-")
  }

  /** What `main` holds after reading `lines`: one region per region id, in
      first-seen order, each with its header from its first line, the set
      of its fragments, and the weights of their first mentions by strand. */
  predicate Tallied(acc: seq<Region>, lines: seq<seq<string>>, hits: seq<Hit>)
    requires |lines| == |hits|
  {
    var fs := Firsts(hits);
    && |acc| == |fs|
    && (forall k :: 0 <= k < |acc| ==> TalliedFrom(acc[k], lines, hits, fs[k]))
    && Covered(acc, hits)
  }

  // ---------------------------------------------------------------------
  // The loop computes the reference tally
  // ---------------------------------------------------------------------

  /** The conditions `AcceptedHits` puts on the last line. */
  predicate LastAccepted(lines: seq<seq<string>>, hits: seq<Hit>)
    requires 0 < |lines| == |hits|
  {
    var n := |lines| - 1;
    && (NewRegion(hits, n) ==> |lines[n]| >= 17)
    && (FirstMention(hits, n) ==> hits[n].strand == "+" || hits[n].strand == "-")
  }

  lemma AcceptedSnoc(lines: seq<seq<string>>, hits: seq<Hit>)
    requires 0 < |lines| == |hits|
    ensures var n := |lines| - 1;
            AcceptedHits(lines, hits) <==>
              AcceptedHits(lines[..n], hits[..n]) && LastAccepted(lines, hits)
  {
    var n := |lines| - 1;
    forall m | 0 <= m < n
      ensures NewRegion(hits, m) == NewRegion(hits[..n], m)
      ensures FirstMention(hits, m) == FirstMention(hits[..n], m)
      ensures lines[m] == lines[..n][m]
    {
      assert hits[..m] == hits[..n][..m];
    }
    if AcceptedHits(lines[..n], hits[..n]) && LastAccepted(lines, hits) {
      assert AcceptedHits(lines, hits);
    }
  }

  /** No hit on region `id`: nothing seen and nothing counted. */
  lemma {:induction false} Unmentioned(hits: seq<Hit>, id: string)
    requires forall i :: 0 <= i < |hits| ==> hits[i].regionId != id
    ensures Seen(hits, id) == {} && Count(hits, id, "+") == 0.0 && Count(hits, id, "-") == 0.0
    decreases |hits|
  {
    if |hits| > 0 {
      Unmentioned(hits[..|hits| - 1], id);
    }
  }

  /** No other region of a tally shares region `i`'s id. */
  lemma TalliedDistinct(acc: seq<Region>, lines: seq<seq<string>>, hits: seq<Hit>, i: nat)
    requires |lines| == |hits| && Tallied(acc, lines, hits) && i < |acc|
    ensures forall l :: 0 <= l < |acc| && l != i ==> acc[l].id != acc[i].id
  {
    var fs := Firsts(hits);
    forall l | 0 <= l < |acc| && l != i
      ensures acc[l].id != acc[i].id
    {
      assert TalliedFrom(acc[i], lines, hits, fs[i]) && TalliedFrom(acc[l], lines, hits, fs[l]);
      if l < i {
        assert fs[l] < fs[i] && NewRegion(hits, fs[i]);
      } else {
        assert fs[i] < fs[l] && NewRegion(hits, fs[l]);
      }
    }
  }

  /** Against a tally of the earlier lines, the last hit finds no region
      exactly when it is its region's first mention. */
  lemma FindIsNew(acc: seq<Region>, lines: seq<seq<string>>, hits: seq<Hit>)
    requires 0 < |lines| == |hits|
    requires Tallied(acc, lines[..|lines| - 1], hits[..|lines| - 1])
    ensures Find(acc, hits[|lines| - 1].regionId).None? <==> NewRegion(hits, |lines| - 1)
  {
    var n := |lines| - 1;
    var hp := hits[..n];
    var id := hits[n].regionId;
    match Find(acc, id)
    case Some(i) =>
      var fs := Firsts(hp);
      assert TalliedFrom(acc[i], lines[..n], hp, fs[i]);
      assert hits[fs[i]].regionId == id;
    case None =>
      forall i | 0 <= i < n
        ensures hits[i].regionId != id
      {
        assert hp[i] == hits[i];
        assert Find(acc, hp[i].regionId).Some?;
      }
  }

  lemma FirstsKept(hits: seq<Hit>)
    requires |hits| > 0 && !NewRegion(hits, |hits| - 1)
    ensures Firsts(hits) == Firsts(hits[..|hits| - 1])
  {
  }

  lemma FirstsGrow(hits: seq<Hit>)
    requires |hits| > 0 && NewRegion(hits, |hits| - 1)
    ensures Firsts(hits) == Firsts(hits[..|hits| - 1]) + [|hits| - 1]
  {
  }

  /** A region untouched by the last hit keeps its reference tally. */
  lemma TalliedFromKept(r: Region, lines: seq<seq<string>>, hits: seq<Hit>, j: nat)
    requires 0 < |lines| == |hits|
    requires var n := |lines| - 1;
             && j < n
             && TalliedFrom(r, lines[..n], hits[..n], j)
             && hits[n].regionId != r.id
    ensures TalliedFrom(r, lines, hits, j)
  {
    var n := |lines| - 1;
    assert lines[..n][j] == lines[j];
    assert hits[..n][j] == hits[j];
  }

  /** The region the last hit lands on follows `Add`. */
  lemma TalliedFromAdded(r: Region, r': Region, lines: seq<seq<string>>, hits: seq<Hit>, j: nat)
    requires 0 < |lines| == |hits| && j < |lines|
    requires var n := |lines| - 1;
             && hits[n].regionId == r.id
             && r.fragments == Seen(hits[..n], r.id)
             && r.countp == Count(hits[..n], r.id, "+") && r.countn == Count(hits[..n], r.id, "-")
             && RegionFromLine(lines[j]).Ok? && SameHeader(r, RegionFromLine(lines[j]).value)
             && r.id == hits[j].regionId
             && Add(r, hits[n]) == Ok(r')
    ensures TalliedFrom(r', lines, hits, j)
  {
  }

  /** Every hit's region is present in `acc`. */
  predicate Covered(acc: seq<Region>, hits: seq<Hit>) {
    forall m :: 0 <= m < |hits| ==> Find(acc, hits[m].regionId).Some?
  }

  /** Regions keep their ids: whatever was found is still found. */
  lemma CoverKept(acc: seq<Region>, acc': seq<Region>, hits: seq<Hit>)
    requires |acc| <= |acc'| && forall k :: 0 <= k < |acc| ==> acc'[k].id == acc[k].id
    requires Covered(acc, hits)
    ensures Covered(acc', hits)
  {
    forall m | 0 <= m < |hits|
      ensures Find(acc', hits[m].regionId).Some?
    {
      var k := Find(acc, hits[m].regionId).value;
      assert acc'[k].id == hits[m].regionId;
    }
  }

  /** Coverage of the earlier hits and the last one covers all. */
  lemma CoveredSnoc(acc: seq<Region>, hits: seq<Hit>)
    requires |hits| > 0
    requires Covered(acc, hits[..|hits| - 1]) && Find(acc, hits[|hits| - 1].regionId).Some?
    ensures Covered(acc, hits)
  {
    forall m | 0 <= m < |hits| - 1
      ensures Find(acc, hits[m].regionId).Some?
    {
      assert hits[..|hits| - 1][m] == hits[m];
    }
  }

  /** The last region of `acc'` covers the last hit. */
  lemma CoverLast(acc': seq<Region>, hits: seq<Hit>)
    requires |hits| > 0 && |acc'| > 0 && acc'[|acc'| - 1].id == hits[|hits| - 1].regionId
    requires Covered(acc', hits[..|hits| - 1])
    ensures Covered(acc', hits)
  {
    assert Find(acc', acc'[|acc'| - 1].id).Some?;
    CoveredSnoc(acc', hits);
  }

  lemma StepExisting(acc: seq<Region>, lines: seq<seq<string>>, hits: seq<Hit>, i: nat)
    requires 0 < |lines| == |hits|
    requires var n := |lines| - 1;
             && Tallied(acc, lines[..n], hits[..n])
             && Find(acc, hits[n].regionId) == Some(i)
             && Add(acc[i], hits[n]).Ok?
    ensures Tallied(acc[i := Add(acc[i], hits[|lines| - 1]).value], lines, hits)
  {
    var n := |lines| - 1;
    var hp := hits[..n];
    var h := hits[n];
    var fs := Firsts(hp);
    FindIsNew(acc, lines, hits);
    FirstsKept(hits);
    TalliedDistinct(acc, lines[..n], hp, i);
    var acc' := acc[i := Add(acc[i], h).value];
    forall k | 0 <= k < |acc'|
      ensures TalliedFrom(acc'[k], lines, hits, fs[k])
    {
      ExistingAt(acc, lines, hits, i, k);
    }
    CoveredSnoc(acc, hits);
    CoverKept(acc, acc', hits);
  }

  lemma ExistingAt(acc: seq<Region>, lines: seq<seq<string>>, hits: seq<Hit>, i: nat, k: nat)
    requires 0 < |lines| == |hits| && k < |acc|
    requires var n := |lines| - 1;
             && Tallied(acc, lines[..n], hits[..n])
             && Find(acc, hits[n].regionId) == Some(i)
             && Add(acc[i], hits[n]).Ok?
             && (forall l :: 0 <= l < |acc| && l != i ==> acc[l].id != acc[i].id)
             && Firsts(hits) == Firsts(hits[..n])
    ensures var acc' := acc[i := Add(acc[i], hits[|lines| - 1]).value];
            TalliedFrom(acc'[k], lines, hits, Firsts(hits)[k])
  {
    var n := |lines| - 1;
    var hp := hits[..n];
    var fs := Firsts(hp);
    assert TalliedFrom(acc[k], lines[..n], hp, fs[k]);
    if k == i {
      assert lines[..n][fs[k]] == lines[fs[k]];
      assert hp[fs[k]] == hits[fs[k]];
      TalliedFromAdded(acc[k], Add(acc[i], hits[n]).value, lines, hits, fs[k]);
    } else {
      TalliedFromKept(acc[k], lines, hits, fs[k]);
    }
  }

  lemma StepNew(acc: seq<Region>, lines: seq<seq<string>>, hits: seq<Hit>)
    requires 0 < |lines| == |hits|
    requires var n := |lines| - 1;
             && Tallied(acc, lines[..n], hits[..n])
             && Find(acc, hits[n].regionId).None?
             && HitFromLine(lines[n]) == Ok(hits[n])
             && RegionFromLine(lines[n]).Ok?
             && Add(RegionFromLine(lines[n]).value, hits[n]).Ok?
    ensures var n := |lines| - 1;
            Tallied(acc + [Add(RegionFromLine(lines[n]).value, hits[n]).value], lines, hits)
  {
    var n := |lines| - 1;
    var hp := hits[..n];
    var h := hits[n];
    var fs := Firsts(hp);
    FindIsNew(acc, lines, hits);
    FirstsGrow(hits);
    var r := RegionFromLine(lines[n]).value;
    var acc' := acc + [Add(r, h).value];
    forall k | 0 <= k < |acc'|
      ensures TalliedFrom(acc'[k], lines, hits, Firsts(hits)[k])
    {
      if k < |acc| {
        assert TalliedFrom(acc[k], lines[..n], hp, fs[k]);
        TalliedFromKept(acc[k], lines, hits, fs[k]);
      } else {
        forall m | 0 <= m < n
          ensures hp[m].regionId != h.regionId
        {
          assert hp[m] == hits[m];
        }
        Unmentioned(hp, h.regionId);
        HitFromLineSpec(lines[n]);
        TalliedFromAdded(r, acc'[k], lines, hits, n);
      }
    }
    CoverKept(acc, acc', hp);
    CoverLast(acc', hits);
  }

  /** One iteration against a tally of the earlier lines succeeds exactly
      when the last line is accepted, and extends the tally. */
  lemma FeedTallies(acc: seq<Region>, lines: seq<seq<string>>, hits: seq<Hit>)
    requires 0 < |lines| == |hits|
    requires var n := |lines| - 1;
             Tallied(acc, lines[..n], hits[..n]) && HitFromLine(lines[n]) == Ok(hits[n])
    ensures var r := Feed(acc, lines[|lines| - 1]);
            && (r.Ok? <==> LastAccepted(lines, hits))
            && (r.Ok? ==> Tallied(r.value, lines, hits))
  {
    match Find(acc, hits[|lines| - 1].regionId)
    case Some(i) => FeedFound(acc, lines, hits, i);
    case None => FeedFresh(acc, lines, hits);
  }

  /** The iteration for a line whose region is already tallied. */
  lemma FeedFound(acc: seq<Region>, lines: seq<seq<string>>, hits: seq<Hit>, i: nat)
    requires 0 < |lines| == |hits|
    requires var n := |lines| - 1;
             && Tallied(acc, lines[..n], hits[..n]) && HitFromLine(lines[n]) == Ok(hits[n])
             && Find(acc, hits[n].regionId) == Some(i)
    ensures var r := Feed(acc, lines[|lines| - 1]);
            && (r.Ok? <==> LastAccepted(lines, hits))
            && (r.Ok? ==> Tallied(r.value, lines, hits))
  {
    var n := |lines| - 1;
    var hp := hits[..n];
    var h := hits[n];
    FindIsNew(acc, lines, hits);
    var fs := Firsts(hp);
    assert TalliedFrom(acc[i], lines[..n], hp, fs[i]);
    if Add(acc[i], h).Ok? {
      StepExisting(acc, lines, hits, i);
    }
  }

  /** The iteration for a line whose region is not tallied yet. */
  lemma FeedFresh(acc: seq<Region>, lines: seq<seq<string>>, hits: seq<Hit>)
    requires 0 < |lines| == |hits|
    requires var n := |lines| - 1;
             && Tallied(acc, lines[..n], hits[..n]) && HitFromLine(lines[n]) == Ok(hits[n])
             && Find(acc, hits[n].regionId).None?
    ensures var r := Feed(acc, lines[|lines| - 1]);
            && (r.Ok? <==> LastAccepted(lines, hits))
            && (r.Ok? ==> Tallied(r.value, lines, hits))
  {
    var n := |lines| - 1;
    var hp := hits[..n];
    var h := hits[n];
    FindIsNew(acc, lines, hits);
    forall m | 0 <= m < n
      ensures hp[m].regionId != h.regionId
    {
      assert hp[m] == hits[m];
    }
    Unmentioned(hp, h.regionId);
    if RegionFromLine(lines[n]).Ok? && Add(RegionFromLine(lines[n]).value, h).Ok? {
      StepNew(acc, lines, hits);
    }
  }

  /** Given the lines' hits, `main` succeeds exactly on the accepted lines
      and then holds the reference tally. */
  lemma {:induction false} RunTalliesWith(lines: seq<seq<string>>, hits: seq<Hit>)
    requires ParsedAs(lines, hits)
    ensures Run(lines).Ok? <==> AcceptedHits(lines, hits)
    ensures Run(lines).Ok? ==> Tallied(Run(lines).value, lines, hits)
    decreases |lines|
  {
    if |lines| > 0 {
      var n := |lines| - 1;
      var p, hp := lines[..n], hits[..n];
      assert ParsedAs(p, hp) by {
        forall i | 0 <= i < n
          ensures HitFromLine(p[i]) == Ok(hp[i])
        {
          assert p[i] == lines[i] && hp[i] == hits[i];
        }
      }
      RunTalliesWith(p, hp);
      AcceptedSnoc(lines, hits);
      if Run(p).Ok? {
        FeedTallies(Run(p).value, lines, hits);
      }
    }
  }

  /** A pass that succeeds succeeded on all lines but the last, and its last
      iteration parsed a hit from the last line. */
  lemma RunLast(lines: seq<seq<string>>)
    requires |lines| > 0 && Run(lines).Ok?
    ensures Run(lines[..|lines| - 1]).Ok? && HitFromLine(lines[|lines| - 1]).Ok?
  {
    var acc := Run(lines[..|lines| - 1]);
    assert acc.Ok? && Feed(acc.value, lines[|lines| - 1]).Ok?;
  }

  /** A line that yields no hit aborts the pass. */
  lemma {:induction false} RunNeedsHits(lines: seq<seq<string>>)
    requires Run(lines).Ok?
    ensures AllHits(lines)
    decreases |lines|
  {
    if |lines| > 0 {
      var n := |lines| - 1;
      RunLast(lines);
      RunNeedsHits(lines[..n]);
      AllHitsSnoc(lines);
    }
  }

  lemma AllHitsSnoc(lines: seq<seq<string>>)
    requires |lines| > 0 && AllHits(lines[..|lines| - 1]) && HitFromLine(lines[|lines| - 1]).Ok?
    ensures AllHits(lines)
  {
    var n := |lines| - 1;
    forall i | 0 <= i < n
      ensures HitFromLine(lines[i]).Ok?
    {
      assert lines[..n][i] == lines[i];
    }
  }

  /** `main` succeeds exactly when every line yields a hit, every region's
      first line carries its header and every fragment's first mention on a
      region has strand `+` or `-`; it then holds one region per region id
      in first-seen order, each with its header from the line that first
      mentioned it, the fragments seen on it, and per strand the summed
      `1/NH` weights of each fragment's first mention. */
  lemma RunTallies(lines: seq<seq<string>>)
    ensures Run(lines).Ok? <==> AllHits(lines) && AcceptedHits(lines, HitsOf(lines))
    ensures Run(lines).Ok? ==> Tallied(Run(lines).value, lines, HitsOf(lines))
  {
    if Run(lines).Ok? {
      RunNeedsHits(lines);
    }
    if AllHits(lines) {
      RunTalliesWith(lines, HitsOf(lines));
    }
  }
}
