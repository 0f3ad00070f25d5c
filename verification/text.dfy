/**
  The handful of Python string operations the four scripts rely on,
  written out over `string` (= `seq<char>`):
  `sep.join(parts)`, `s.split(c)`, `s.split(c)[-1]`, `s.split()`,
  the `<` ordering used by `sorted`, and `int(s)` / `str(n)` on integers.
 */
module Text {
  import opened Results

  // ---------------------------------------------------------------------
  // sep.join(parts) and s.split(c)
  // ---------------------------------------------------------------------

  /** Python's `sep.join(parts)`. */
  function Join(sep: string, parts: seq<string>): string
    decreases |parts|
  {
    if |parts| == 0 then ""
    else if |parts| == 1 then parts[0]
    else parts[0] + sep + Join(sep, parts[1..])
  }

  /** Python's `s.split(c)` for a one-character separator: the pieces between
      separators, empty pieces included, so there is always at least one.
      Joining the pieces with `c` gives `s` back. */
  function Split(s: string, c: char): (r: seq<string>)
    ensures |r| >= 1
    ensures forall i :: 0 <= i < |r| ==> c !in r[i]
    ensures Join([c], r) == s
    decreases |s|
  {
    if |s| == 0 then [""]
    else
      var rest := Split(s[1..], c);
      assert s == [s[0]] + s[1..];
      if s[0] == c then
        var r := [""] + rest;
        assert r[1..] == rest;
        r
      else
        var r := [[s[0]] + rest[0]] + rest[1..];
        assert |rest| > 1 ==> Join([c], rest) == rest[0] + [c] + Join([c], rest[1..]);
        assert |r| > 1 ==> r[1..] == rest[1..];
        r
  }

  /** A string without the separator is a single piece. */
  lemma {:induction false} SplitWithoutSeparator(x: string, c: char)
    requires c !in x
    ensures Split(x, c) == [x]
    decreases |x|
  {
    if |x| > 0 {
      SplitWithoutSeparator(x[1..], c);
      assert x == [x[0]] + x[1..];
    }
  }

  /** A character other than the separator joins the first piece. */
  lemma SplitCons(ch: char, t: string, c: char)
    requires ch != c
    ensures var rest := Split(t, c);
            Split([ch] + t, c) == [[ch] + rest[0]] + rest[1..]
  {
    assert ([ch] + t)[1..] == t;
  }

  /** A separator after a separator-free prefix closes exactly one piece. */
  lemma {:induction false} SplitAtFirstSeparator(x: string, y: string, c: char)
    requires c !in x
    ensures Split(x + [c] + y, c) == [x] + Split(y, c)
    decreases |x|
  {
    var s := x + [c] + y;
    if |x| == 0 {
      assert s == [c] + y;
      assert s[1..] == y;
    } else {
      SplitAtFirstSeparator(x[1..], y, c);
      assert s == [x[0]] + (x[1..] + [c] + y);
      SplitCons(x[0], x[1..] + [c] + y, c);
      assert [x[0]] + x[1..] == x;
    }
  }

  /** Splitting undoes joining, provided no piece contains the separator. */
  lemma {:induction false} SplitJoin(parts: seq<string>, c: char)
    requires |parts| >= 1
    requires forall i :: 0 <= i < |parts| ==> c !in parts[i]
    ensures Split(Join([c], parts), c) == parts
    decreases |parts|
  {
    if |parts| == 1 {
      SplitWithoutSeparator(parts[0], c);
    } else {
      SplitJoin(parts[1..], c);
      SplitAtFirstSeparator(parts[0], Join([c], parts[1..]), c);
      assert parts == [parts[0]] + parts[1..];
    }
  }

  /** The joined string ends with the last piece, preceded by the separator
      when there is more than one piece. */
  lemma {:induction false} JoinEndsWithLast(parts: seq<string>, c: char)
    requires |parts| >= 1
    ensures var j := Join([c], parts); var l := parts[|parts| - 1];
            |l| <= |j| && j[|j| - |l|..] == l && (|l| < |j| ==> j[|j| - |l| - 1] == c)
    decreases |parts|
  {
    if |parts| > 1 {
      JoinEndsWithLast(parts[1..], c);
      var t := Join([c], parts[1..]);
      var j := Join([c], parts);
      assert j == parts[0] + [c] + t;
      assert j[|j| - |t|..] == t;
    }
  }

  /** Python's `s.split(c)[-1]`: the text after the last `c`, or all of `s`
      when it has none. */
  function LastPart(s: string, c: char): (r: string)
    ensures c !in r
    ensures |r| <= |s| && s[|s| - |r|..] == r
    ensures |r| < |s| ==> s[|s| - |r| - 1] == c
  {
    var parts := Split(s, c);
    JoinEndsWithLast(parts, c);
    parts[|parts| - 1]
  }

  // ---------------------------------------------------------------------
  // s.split() — whitespace tokenising
  // ---------------------------------------------------------------------

  /** Python's `str.isspace` on one character. */
  predicate IsSpace(ch: char) {
    var n := ch as int;
    || n == 0x20 || 0x09 <= n <= 0x0D || 0x1C <= n <= 0x1F
    || n == 0x85 || n == 0xA0 || n == 0x1680 || 0x2000 <= n <= 0x200A
    || n == 0x2028 || n == 0x2029 || n == 0x202F || n == 0x205F || n == 0x3000
  }

  /** What `s.split()` can yield: non-empty and free of whitespace. */
  predicate IsWord(w: string) {
    |w| > 0 && forall i :: 0 <= i < |w| ==> !IsSpace(w[i])
  }

  /** Length of the leading run of non-whitespace characters. */
  function WordLength(s: string): (n: nat)
    ensures n <= |s|
    ensures forall i :: 0 <= i < n ==> !IsSpace(s[i])
    ensures n < |s| ==> IsSpace(s[n])
    decreases |s|
  {
    if |s| == 0 || IsSpace(s[0]) then 0 else 1 + WordLength(s[1..])
  }

  /** Python's `s.split()`: the maximal runs of non-whitespace, in order. */
  function Words(s: string): (r: seq<string>)
    ensures forall i :: 0 <= i < |r| ==> IsWord(r[i])
    decreases |s|
  {
    if |s| == 0 then []
    else if IsSpace(s[0]) then Words(s[1..])
    else
      var n := WordLength(s);
      [s[..n]] + Words(s[n..])
  }

  predicate AllSpace(s: string) {
    forall i :: 0 <= i < |s| ==> IsSpace(s[i])
  }

  lemma {:induction false} WordsOfSpace(s: string)
    requires AllSpace(s)
    ensures Words(s) == []
    decreases |s|
  {
    if |s| > 0 {
      WordsOfSpace(s[1..]);
    }
  }

  lemma {:induction false} WordLengthOfWord(w: string, t: string)
    requires IsWord(w)
    requires |t| == 0 || IsSpace(t[0])
    ensures WordLength(w + t) == |w|
    decreases |w|
  {
    var s := w + t;
    if |w| > 1 {
      assert s[1..] == w[1..] + t;
      WordLengthOfWord(w[1..], t);
    } else {
      assert s[1..] == t;
    }
  }

  /** A word followed by whitespace or nothing is the first token. */
  lemma WordsOfWordThen(w: string, t: string)
    requires IsWord(w)
    requires |t| == 0 || IsSpace(t[0])
    ensures Words(w + t) == [w] + Words(t)
  {
    var s := w + t;
    WordLengthOfWord(w, t);
    assert s[..|w|] == w;
    assert s[|w|..] == t;
  }

  /** Tokenising undoes joining words with a whitespace separator, whatever
      whitespace trails the joined text. */
  lemma {:induction false} WordsOfJoin(fields: seq<string>, sep: char, tail: string)
    requires IsSpace(sep)
    requires AllSpace(tail)
    requires forall i :: 0 <= i < |fields| ==> IsWord(fields[i])
    ensures Words(Join([sep], fields) + tail) == fields
    decreases |fields|
  {
    if |fields| == 0 {
      assert Join([sep], fields) + tail == tail;
      WordsOfSpace(tail);
    } else if |fields| == 1 {
      WordsOfWordThen(fields[0], tail);
      WordsOfSpace(tail);
    } else {
      var w := fields[0];
      var rest := Join([sep], fields[1..]) + tail;
      assert Join([sep], fields) + tail == w + ([sep] + rest);
      WordsOfWordThen(w, [sep] + rest);
      assert ([sep] + rest)[1..] == rest;
      WordsOfJoin(fields[1..], sep, tail);
      assert fields == [w] + fields[1..];
    }
  }

  // ---------------------------------------------------------------------
  // String ordering and sorted() of two strings
  // ---------------------------------------------------------------------

  /** Python's `a < b` on `str`: lexicographic by code point, a proper
      prefix sorting first. */
  predicate Less(a: string, b: string)
    decreases |a|
  {
    if |a| == 0 then |b| > 0
    else if |b| == 0 then false
    else if a[0] != b[0] then a[0] < b[0]
    else Less(a[1..], b[1..])
  }

  lemma {:induction false} LessIrreflexive(a: string)
    ensures !Less(a, a)
    decreases |a|
  {
    if |a| > 0 {
      LessIrreflexive(a[1..]);
    }
  }

  /** Any two different strings are ordered one way and not the other. */
  lemma {:induction false} LessTrichotomy(a: string, b: string)
    ensures a != b ==> (Less(a, b) <==> !Less(b, a))
    ensures a == b ==> !Less(a, b)
    decreases |a|
  {
    if a == b {
      LessIrreflexive(a);
    } else if |a| > 0 && |b| > 0 && a[0] == b[0] {
      LessTrichotomy(a[1..], b[1..]);
      assert a == [a[0]] + a[1..] && b == [b[0]] + b[1..];
    }
  }

  /** Python's `sorted([a, b])`: a stable sort that swaps only when `b < a`. */
  function SortPair(a: string, b: string): (r: seq<string>)
    ensures |r| == 2 && multiset(r) == multiset{a, b}
    ensures !Less(r[1], r[0])
  {
    LessTrichotomy(a, b);
    if Less(b, a) then [b, a] else [a, b]
  }

  /** The sorted pair does not depend on the order of its arguments. */
  lemma SortPairSymmetric(a: string, b: string)
    ensures SortPair(a, b) == SortPair(b, a)
  {
    LessTrichotomy(a, b);
  }

  // ---------------------------------------------------------------------
  // int(s) and str(n)
  // ---------------------------------------------------------------------

  predicate IsDigit(c: char) {
    '0' <= c <= '9'
  }

  predicate AllDigits(s: string) {
    forall i :: 0 <= i < |s| ==> IsDigit(s[i])
  }

  /** The value of a run of decimal digits, most significant first. */
  function DigitsValue(s: string): nat
    requires AllDigits(s)
    decreases |s|
  {
    if |s| == 0 then 0
    else DigitsValue(s[..|s| - 1]) * 10 + ((s[|s| - 1] as int) - ('0' as int))
  }

  /** Python's `int(s)` on a token: an optional sign and at least one
      decimal digit; anything else is a `ValueError`, modelled as `None`. */
  function ParseInt(s: string): (r: Option<int>)
    ensures r.Some? <==>
              (|s| >= 1 && AllDigits(s))
              || (|s| >= 2 && (s[0] == '-' || s[0] == '+') && AllDigits(s[1..]))
  {
    if |s| >= 2 && s[0] == '-' && AllDigits(s[1..]) then Some(-(DigitsValue(s[1..]) as int))
    else if |s| >= 2 && s[0] == '+' && AllDigits(s[1..]) then Some(DigitsValue(s[1..]))
    else if |s| >= 1 && AllDigits(s) then Some(DigitsValue(s))
    else None
  }

  /** `int(s)` where the failing conversion is reported as `err`. */
  function ToInt<E>(s: string, err: E): (r: Result<int, E>)
    ensures r.Ok? <==> ParseInt(s).Some?
    ensures r.Ok? ==> ParseInt(s) == Some(r.value)
    ensures r.Err? ==> r.error == err
  {
    match ParseInt(s)
    case Some(n) => Ok(n)
    case None => Err(err)
  }

  function DigitChar(d: nat): (c: char)
    requires d < 10
    ensures IsDigit(c) && (c as int) - ('0' as int) == d
  {
    (('0' as int) + d) as char
  }

  /** Python's `str(n)` for `n >= 0`. */
  function NatToString(n: nat): (s: string)
    ensures |s| >= 1 && AllDigits(s)
    decreases n
  {
    if n < 10 then [DigitChar(n)] else NatToString(n / 10) + [DigitChar(n % 10)]
  }

  /** Python's `str(n)` on an `int`. */
  function IntToString(n: int): string {
    if n < 0 then "-" + NatToString(-n) else NatToString(n)
  }

  lemma {:induction false} DigitsValueOfNatToString(n: nat)
    ensures DigitsValue(NatToString(n)) == n
    decreases n
  {
    var s := NatToString(n);
    if n >= 10 {
      DigitsValueOfNatToString(n / 10);
      assert s[..|s| - 1] == NatToString(n / 10);
    }
  }

  /** Reading back what `str` wrote gives the same integer. */
  lemma ParseIntOfIntToString(n: int)
    ensures ParseInt(IntToString(n)) == Some(n)
  {
    var s := IntToString(n);
    if n < 0 {
      DigitsValueOfNatToString(-n);
      assert s[1..] == NatToString(-n);
    } else {
      DigitsValueOfNatToString(n);
      assert IsDigit(s[0]);
    }
  }

  /** `str(n)` as the pipeline writes integer columns: decimal text that
      reads back as `n`. */
  function Decimal(n: int): (s: string)
    ensures ParseInt(s) == Some(n)
  {
    ParseIntOfIntToString(n);
    IntToString(n)
  }
}
