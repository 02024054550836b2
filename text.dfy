/** The two pieces of the Java standard library the chatbot leans on:
    `String.split` with a literal delimiter (with and without a limit of 2)
    and `Integer.parseInt` / `Integer.toString` on decimal text. */
module JavaText {

  datatype Option<+T> = None | Some(value: T)

  /** `d` occurs in `s` starting at offset `k`. */
  predicate OccursAt(s: string, d: string, k: nat)
  {
    k + |d| <= |s| && s[k..k + |d|] == d
  }

  /** Offset of the first occurrence of `d` in `s` at or after `from`. */
  function FindFrom(s: string, d: string, from: nat): (r: Option<nat>)
    decreases |s| - from
    ensures r.Some? ==> from <= r.value && OccursAt(s, d, r.value)
    ensures r.Some? ==> forall j :: from <= j < r.value ==> !OccursAt(s, d, j)
    ensures r.None? ==> forall j :: from <= j ==> !OccursAt(s, d, j)
  {
    if from + |d| > |s| then None
    else if s[from..from + |d|] == d then Some(from)
    else FindFrom(s, d, from + 1)
  }

  /** Offset of the first occurrence of `d` in `s`, scanning left to right. */
  function IndexOf(s: string, d: string): (r: Option<nat>)
    ensures r.Some? ==> OccursAt(s, d, r.value)
    ensures r.Some? ==> forall j :: 0 <= j < r.value ==> !OccursAt(s, d, j)
    ensures r.None? ==> forall j :: 0 <= j ==> !OccursAt(s, d, j)
  {
    FindFrom(s, d, 0)
  }

  /** The text of `s` before the first occurrence of `d`; all of `s` when `d` does not occur. */
  function Before(s: string, d: string): (r: string)
    ensures r <= s
    ensures forall j :: 0 <= j < |r| ==> !OccursAt(s, d, j)
    ensures r == s || OccursAt(s, d, |r|)
  {
    match IndexOf(s, d)
    case None => s
    case Some(k) => s[..k]
  }

  /** The text of `s` after the first occurrence of `d`. */
  function AfterFirst(s: string, d: string): (r: string)
    requires IndexOf(s, d).Some?
    ensures s == Before(s, d) + d + r
  {
    var k := IndexOf(s, d).value;
    assert s == s[..k] + s[k..k + |d|] + s[k + |d|..];
    s[k + |d|..]
  }

  /** The pieces of `s` between the non-overlapping occurrences of `d`, found
      left to right, with nothing dropped. */
  function Segments(s: string, d: string): (r: seq<string>)
    requires d != ""
    decreases |s|
    ensures |r| >= 1
  {
    match IndexOf(s, d)
    case None => [s]
    case Some(k) => [s[..k]] + Segments(s[k + |d|..], d)
  }

  /** The pieces glued back together with `d` between them. */
  function Join(parts: seq<string>, d: string): string
    decreases |parts|
  {
    if parts == [] then ""
    else if |parts| == 1 then parts[0]
    else parts[0] + d + Join(parts[1..], d)
  }

  /** Removes the empty strings at the end of `parts`. */
  function DropTrailingEmpty(parts: seq<string>): (r: seq<string>)
    decreases |parts|
    ensures |r| <= |parts| && r == parts[..|r|]
    ensures r == [] || r[|r| - 1] != ""
    ensures forall i :: |r| <= i < |parts| ==> parts[i] == ""
  {
    if parts != [] && parts[|parts| - 1] == "" then DropTrailingEmpty(parts[..|parts| - 1])
    else parts
  }

  /** `s.split(d)` for a delimiter `d` with no regular-expression
      metacharacters: the input itself when `d` does not occur, otherwise the
      segments with the trailing empty ones removed (so possibly none). */
  function Split(s: string, d: string): (r: seq<string>)
    requires d != ""
    ensures IndexOf(s, d).None? ==> r == [s]
    ensures IndexOf(s, d).Some? ==> r == [] || r[|r| - 1] != ""
    ensures |r| <= |Segments(s, d)|
  {
    if IndexOf(s, d).None? then [s] else DropTrailingEmpty(Segments(s, d))
  }

  /** `s.split(d, 2)`: at most two pieces, cut at the first occurrence of `d`;
      with a positive limit no empty piece is dropped. */
  function SplitOnce(s: string, d: string): (r: seq<string>)
    requires d != ""
    ensures 1 <= |r| <= 2
    ensures |r| == 1 <==> IndexOf(s, d).None?
    ensures r[0] == Before(s, d)
    ensures Join(r, d) == s
  {
    match IndexOf(s, d)
    case None => [s]
    case Some(k) =>
      assert s == s[..k] + s[k..k + |d|] + s[k + |d|..];
      [s[..k], s[k + |d|..]]
  }

  /** Joining the segments with the delimiter gives back the text that was split. */
  lemma {:induction false} JoinSegments(s: string, d: string)
    requires d != ""
    decreases |s|
    ensures Join(Segments(s, d), d) == s
  {
    match IndexOf(s, d)
    case None =>
    case Some(k) =>
      var rest := s[k + |d|..];
      var tail := Segments(rest, d);
      JoinSegments(rest, d);
      var parts := [s[..k]] + tail;
      assert Segments(s, d) == parts;
      assert parts[1..] == tail;
      calc {
        Join(parts, d);
        s[..k] + d + Join(tail, d);
        s[..k] + d + rest;
        { assert s[k..k + |d|] == d; }
        s[..k] + s[k..k + |d|] + s[k + |d|..];
      }
      assert s == s[..k] + s[k..k + |d|] + s[k + |d|..];
  }

  /** The pieces of `Split` are the leading pieces of `Segments`, and at most
      the trailing empty ones are left out. */
  lemma SplitIsPrefixOfSegments(s: string, d: string)
    requires d != ""
    ensures |Split(s, d)| <= |Segments(s, d)|
    ensures Split(s, d) == Segments(s, d)[..|Split(s, d)|]
    ensures forall i :: |Split(s, d)| <= i < |Segments(s, d)| ==> Segments(s, d)[i] == ""
  {
  }

  /** When `split` yields anything, its first piece is the text before the first delimiter. */
  lemma SplitFirst(s: string, d: string)
    requires d != ""
    requires |Split(s, d)| >= 1
    ensures Split(s, d)[0] == Before(s, d)
  {
    SplitIsPrefixOfSegments(s, d);
  }

  /** `split` yields at least two pieces exactly when the delimiter occurs
      and some segment after the first one is non-empty. */
  lemma SplitHasSecond(s: string, d: string)
    requires d != ""
    ensures |Split(s, d)| >= 2 <==>
      IndexOf(s, d).Some? && exists i :: 1 <= i < |Segments(s, d)| && Segments(s, d)[i] != ""
  {
    SplitIsPrefixOfSegments(s, d);
    var r, segs := Split(s, d), Segments(s, d);
    if |r| >= 2 {
      assert IndexOf(s, d).Some?;
      assert r[|r| - 1] != "" && segs[|r| - 1] == r[|r| - 1];
    }
  }

  /** When the delimiter occurs, the second piece of `split` is the text
      between its first and second occurrence (or the end). */
  lemma SplitSecond(s: string, d: string)
    requires d != ""
    requires |Split(s, d)| >= 2
    ensures IndexOf(s, d).Some?
    ensures Split(s, d)[1] == Before(AfterFirst(s, d), d)
  {
    SplitIsPrefixOfSegments(s, d);
    var k := IndexOf(s, d).value;
    assert Segments(s, d)[1] == Segments(s[k + |d|..], d)[0];
  }

  predicate IsDigit(c: char)
  {
    '0' <= c <= '9'
  }

  predicate AllDigits(s: string)
  {
    forall i :: 0 <= i < |s| ==> IsDigit(s[i])
  }

  function DigitChar(n: nat): (c: char)
    requires n < 10
    ensures IsDigit(c)
  {
    ('0' as int + n) as char
  }

  /** The number a run of decimal digits denotes, most significant first; 0 for the empty run. */
  function DigitsValue(s: string): nat
    requires AllDigits(s)
    decreases |s|
  {
    if s == "" then 0
    else DigitsValue(s[..|s| - 1]) * 10 + ((s[|s| - 1] as int) - ('0' as int))
  }

  /** The range of Java's 32-bit `int`. */
  const MinInt: int := -0x8000_0000
  const MaxInt: int := 0x7fff_ffff

  /** `Integer.parseInt(s)`: an optional `-` or `+`, then at least one decimal
      digit, and the value must fit in an `int`; anything else is a
      `NumberFormatException`, modelled as `None`. */
  function ParseInt(s: string): (r: Option<int>)
    ensures r.Some? ==> MinInt <= r.value <= MaxInt
    ensures r.Some? ==> s != "" && (IsDigit(s[0]) || s[0] == '-' || s[0] == '+')
  {
    if s == "" then None
    else
      var negative := s[0] == '-';
      var digits := if s[0] == '-' || s[0] == '+' then s[1..] else s;
      if digits == "" || !AllDigits(digits) then None
      else
        var magnitude: int := DigitsValue(digits);
        var v := if negative then -magnitude else magnitude;
        if MinInt <= v <= MaxInt then Some(v) else None
  }

  /** `Integer.toString(n)` for a non-negative `n`: decimal digits, no leading zero. */
  function DecimalString(n: nat): (r: string)
    decreases n
    ensures r != "" && AllDigits(r)
    ensures r[0] != '0' || n == 0
  {
    if n < 10 then [DigitChar(n)] else DecimalString(n / 10) + [DigitChar(n % 10)]
  }

  lemma {:induction false} DigitsOfDecimal(n: nat)
    decreases n
    ensures DigitsValue(DecimalString(n)) == n
  {
    if n >= 10 {
      DigitsOfDecimal(n / 10);
      var s := DecimalString(n);
      assert s[..|s| - 1] == DecimalString(n / 10);
    }
  }

  /** Parsing the decimal rendering of a natural gives it back when it fits
      in an `int`, and fails otherwise. */
  lemma ParseDecimal(n: nat)
    ensures ParseInt(DecimalString(n)) == if n <= MaxInt then Some(n) else None
  {
    DigitsOfDecimal(n);
  }

  /** Parsing a minus sign followed by a decimal rendering gives the negated
      number when it fits in an `int`, and fails otherwise. */
  lemma ParseNegativeDecimal(n: nat)
    ensures ParseInt("-" + DecimalString(n)) == if n <= -MinInt then Some(-(n as int)) else None
  {
    DigitsOfDecimal(n);
    assert ("-" + DecimalString(n))[1..] == DecimalString(n);
  }

  /** A delimiter whose second character is `/` cannot occur in a text without `/`. */
  lemma NoSlashNoDelimiter(b: string, d: string)
    requires |d| >= 2 && d[1] == '/' && '/' !in b
    ensures IndexOf(b, d).None?
  {
    forall j: nat | j + |d| <= |b|
      ensures !OccursAt(b, d, j)
    {
      assert b[j..j + |d|][1] == b[j + 1];
    }
  }

  /** When `a` has no `/` and the delimiter is a blank followed by `/`, the
      first occurrence of the delimiter in `a + d + b` is the one right after `a`. */
  lemma FirstDelimiterAfterSlashFree(a: string, d: string, b: string)
    requires |d| >= 2 && d[0] != '/' && d[1] == '/' && '/' !in a
    ensures IndexOf(a + d + b, d) == Some(|a|)
  {
    var s := a + d + b;
    assert OccursAt(s, d, |a|) by {
      assert s[|a|..|a| + |d|] == d;
    }
    forall j: nat | j < |a|
      ensures !OccursAt(s, d, j)
    {
      assert s[j..j + |d|][1] == s[j + 1];
      if j + 1 < |a| {
        assert s[j + 1] == a[j + 1];
      } else {
        assert s[j + 1] == d[0];
      }
    }
  }

  /** `split` of a text with exactly one delimiter after a `/`-free head and
      before a non-empty, delimiter-free tail gives the head and the tail. */
  lemma SplitAtSoleDelimiter(a: string, d: string, b: string)
    requires |d| >= 2 && d[0] != '/' && d[1] == '/' && '/' !in a
    requires IndexOf(b, d).None? && b != ""
    ensures Split(a + d + b, d) == [a, b]
  {
    var s := a + d + b;
    FirstDelimiterAfterSlashFree(a, d, b);
    assert s[..|a|] == a && s[|a| + |d|..] == b;
    assert Segments(s, d) == [a] + Segments(b, d) == [a, b];
  }
}
