/**
  The MAPQ-to-NH rewrite (append_nh.py), applied to each line of a SAM
  stream: header lines pass through untouched; in every alignment line the
  MAPQ field is replaced by the value of the tag in field 11 (the NH count),
  and the read name is prefixed with the read's and its mate's positions in
  sorted order, so both mates of a pair get the same new name.
 */
module AppendNh {
  import opened Results
  import Text

  /** Field indices the rewrite reads or writes. */
  const Name := 0
  const Pos := 3
  const Mapq := 4
  const MatePos := 7
  const Tag := 11

  /** Field 11 is read, so an alignment line needs at least 12 fields. */
  const MinFields := 12

  /** The IndexError raised for a short alignment line. */
  datatype NhError = TooFewFields(fields: seq<string>)

  predicate IsHeader(line: string) {
    |line| > 0 && line[0] == '@'
  }

  /** `f[11].split(':')[-1]`: the value of a `TAG:TYPE:VALUE` field. */
  function TagValue(tag: string): string {
    Text.LastPart(tag, ':')
  }

  /** The value of an `NH:i:<n>` tag is `<n>`. */
  lemma NhTagValue(n: string)
    requires ':' !in n
    ensures TagValue("NH:i:" + n) == n
  {
    var s := "NH:i:" + n;
    assert s[|s| - |n|..] == n;
    assert s[|s| - |n| - 1] == ':';
  }

  /** `':'.join(sorted([f[3], f[7]]))`. */
  function Key(pos: string, matePos: string): (k: string)
    ensures k == Text.Join(":", Text.SortPair(pos, matePos))
  {
    Text.Join(":", Text.SortPair(pos, matePos))
  }

  /** The key holds the smaller position first, whichever field it came from. */
  lemma KeySymmetric(pos: string, matePos: string)
    ensures Key(pos, matePos) == Key(matePos, pos)
    ensures var p := Text.SortPair(pos, matePos);
            Key(pos, matePos) == p[0] + ":" + p[1] && !Text.Less(p[1], p[0])
  {
    Text.SortPairSymmetric(pos, matePos);
    var p := Text.SortPair(pos, matePos);
    assert Text.Join(":", p[1..]) == p[1];
  }

  /** The rewritten fields of an alignment line with at least 12 fields. */
  function RewriteFields(f: seq<string>): (g: seq<string>)
    requires |f| >= MinFields
    ensures |g| == |f|
    ensures g[Mapq] == TagValue(f[Tag])
    ensures g[Name] == Key(f[Pos], f[MatePos]) + ":" + f[Name]
    ensures forall i :: 0 <= i < |f| && i != Name && i != Mapq ==> g[i] == f[i]
  {
    var g := f[Mapq := TagValue(f[Tag])];
    g[Name := Key(g[Pos], g[MatePos]) + ":" + g[Name]]
  }

  /** One line of `main`: a header passes through, an alignment line is
      split on whitespace, rewritten and written tab-joined with a newline. */
  function Rewrite(line: string): (r: Result<string, NhError>)
    ensures IsHeader(line) ==> r == Ok(line)
    ensures !IsHeader(line) ==> (r.Ok? <==> |Text.Words(line)| >= MinFields)
    ensures !IsHeader(line) && r.Err? ==> r.error == TooFewFields(Text.Words(line))
    ensures !IsHeader(line) && r.Ok? ==>
              r.value == Text.Join("\t", RewriteFields(Text.Words(line))) + "\n"
  {
    if IsHeader(line) then Ok(line)
    else
      var f := Text.Words(line);
      if |f| < MinFields then Err(TooFewFields(f))
      else Ok(Text.Join("\t", RewriteFields(f)) + "\n")
  }

  /** What `main` has written when it stops: it writes each line as soon as
      it is rewritten, so a short alignment line ends the run with the lines
      before it already out. */
  datatype Outcome = Outcome(written: seq<string>, failure: Option<NhError>)

  /** `main` over the whole stream: the written lines are the rewrites of a
      prefix of the input, which is all of it unless some line fails, and
      then it stops at the first line that fails, with that line's error. */
  function Run(lines: seq<string>): (r: Outcome)
    ensures |r.written| <= |lines|
    ensures forall i :: 0 <= i < |r.written| ==> Rewrite(lines[i]) == Ok(r.written[i])
    ensures r.failure.None? <==> forall i :: 0 <= i < |lines| ==> Rewrite(lines[i]).Ok?
    ensures r.failure.None? ==> |r.written| == |lines|
    ensures r.failure.Some? ==>
              |r.written| < |lines| && Rewrite(lines[|r.written|]) == Err(r.failure.value)
    decreases |lines|
  {
    if |lines| == 0 then Outcome([], None)
    else
      match Rewrite(lines[0])
      case Err(e) => Outcome([], Some(e))
      case Ok(out) =>
        var rest := Run(lines[1..]);
        assert forall i :: 1 <= i < |lines| ==> lines[i] == lines[1..][i - 1];
        Outcome([out] + rest.written, rest.failure)
  }

  /** A suffix of a word that is not empty is a word. */
  lemma SuffixIsWord(w: string, r: string)
    requires Text.IsWord(w) && |r| > 0 && |r| <= |w| && w[|w| - |r|..] == r
    ensures Text.IsWord(r)
  {
    forall i | 0 <= i < |r|
      ensures !Text.IsSpace(r[i])
    {
      assert r[i] == w[|w| - |r| + i];
    }
  }

  lemma PrefixedIsWord(key: string, name: string)
    requires Text.IsWord(name)
    requires forall i :: 0 <= i < |key| ==> !Text.IsSpace(key[i])
    ensures Text.IsWord(key + ":" + name)
  {
    var s := key + ":" + name;
    forall i | 0 <= i < |s|
      ensures !Text.IsSpace(s[i])
    {
      if i < |key| {
        assert s[i] == key[i];
      } else if i > |key| {
        assert s[i] == name[i - |key| - 1];
      }
    }
  }

  /** Joining words with ':' yields no whitespace. */
  lemma {:induction false} JoinNoSpace(parts: seq<string>)
    requires forall i :: 0 <= i < |parts| ==> Text.IsWord(parts[i])
    ensures forall i :: 0 <= i < |Text.Join(":", parts)| ==> !Text.IsSpace(Text.Join(":", parts)[i])
    decreases |parts|
  {
    if |parts| > 1 {
      JoinNoSpace(parts[1..]);
      var rest := Text.Join(":", parts[1..]);
      var s := parts[0] + ":" + rest;
      assert Text.Join(":", parts) == s;
      forall i | 0 <= i < |s|
        ensures !Text.IsSpace(s[i])
      {
        if i < |parts[0]| {
          assert s[i] == parts[0][i];
        } else if i > |parts[0]| {
          assert s[i] == rest[i - |parts[0]| - 1];
        }
      }
    }
  }

  /** One line of `main`: a header line is copied as it is; any other line
      is rewritten iff it has at least 12 fields, and then reading the
      written line back gives the rewritten fields, as long as the tag value
      is not empty (an empty value would leave an empty field that
      whitespace splitting drops). */
  lemma RewriteReadsBack(line: string)
    ensures IsHeader(line) ==> Rewrite(line) == Ok(line)
    ensures !IsHeader(line) ==> (Rewrite(line).Ok? <==> |Text.Words(line)| >= MinFields)
    ensures !IsHeader(line) && Rewrite(line).Ok? ==>
              var w := Rewrite(line).value;
              && |w| > 0 && w[|w| - 1] == '\n'
              && (TagValue(Text.Words(line)[Tag]) != "" ==> Text.Words(w) == RewriteFields(Text.Words(line)))
  {
    if !IsHeader(line) && Rewrite(line).Ok? && TagValue(Text.Words(line)[Tag]) != "" {
      WrittenReadsBack(line);
    }
  }

  lemma WrittenReadsBack(line: string)
    requires !IsHeader(line) && Rewrite(line).Ok?
    requires TagValue(Text.Words(line)[Tag]) != ""
    ensures Text.Words(Rewrite(line).value) == RewriteFields(Text.Words(line))
  {
    var f := Text.Words(line);
    var g := RewriteFields(f);
    var v := TagValue(f[Tag]);
    SuffixIsWord(f[Tag], v);
    var sp := Text.SortPair(f[Pos], f[MatePos]);
    assert sp[0] in multiset{f[Pos], f[MatePos]} && sp[1] in multiset{f[Pos], f[MatePos]} by {
      assert sp[0] in multiset(sp) && sp[1] in multiset(sp);
    }
    JoinNoSpace(sp);
    PrefixedIsWord(Key(f[Pos], f[MatePos]), f[Name]);
    assert forall i :: 0 <= i < |g| ==> Text.IsWord(g[i]);
    assert Text.IsSpace('\t');
    assert Text.AllSpace("\n");
    Text.WordsOfJoin(g, '\t', "\n");
  }

  /** Swapping the two position fields does not change the new read name:
      both mates of a pair, whose position and mate position are each
      other's, get the same prefix. */
  lemma MatesShareName(f1: seq<string>, f2: seq<string>)
    requires |f1| >= MinFields && |f2| >= MinFields
    requires f1[Name] == f2[Name] && f1[Pos] == f2[MatePos] && f1[MatePos] == f2[Pos]
    ensures RewriteFields(f1)[Name] == RewriteFields(f2)[Name]
  {
    KeySymmetric(f1[Pos], f1[MatePos]);
  }
}
