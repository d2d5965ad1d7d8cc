/** String primitives the client (JavaScript) and the server (Go) rely on, with the semantics of
    those two languages: substring search, splitting, ASCII lower-casing, character removal,
    negative-index slicing and decimal conversion. Strings are sequences of characters. */
module Strings {
  import opened Wrappers

  /** `p` is a prefix of `s` (JavaScript `startsWith`, Go `strings.HasPrefix`). */
  predicate StartsWith(s: string, p: string) {
    |p| <= |s| && s[..|p|] == p
  }

  /** `sub` occurs in `s` at index `i`. */
  predicate OccursAt(s: string, sub: string, i: int) {
    0 <= i && i + |sub| <= |s| && s[i..i + |sub|] == sub
  }

  /** Substring containment, as JavaScript `includes` and Go `strings.Contains`. */
  predicate Contains(s: string, sub: string)
    decreases |s|
  {
    StartsWith(s, sub) || (|s| > 0 && Contains(s[1..], sub))
  }

  /** Shifting the text by one character shifts every occurrence by one. */
  lemma OccursAtTail(s: string, sub: string, i: int)
    requires |s| > 0 && i >= 0
    ensures OccursAt(s[1..], sub, i) <==> OccursAt(s, sub, i + 1)
  {
    if 0 <= i && i + |sub| <= |s| - 1 {
      assert s[1..][i..i + |sub|] == s[i + 1..i + 1 + |sub|];
    }
  }

  /** `Contains` finds exactly the substrings that occur somewhere in the text. */
  lemma {:induction false} ContainsSpec(s: string, sub: string)
    ensures Contains(s, sub) <==> exists i :: OccursAt(s, sub, i)
    decreases |s|
  {
    if StartsWith(s, sub) {
      assert s[0..|sub|] == s[..|sub|];
      assert OccursAt(s, sub, 0);
    } else if |s| == 0 {
    } else {
      ContainsSpec(s[1..], sub);
      assert !OccursAt(s, sub, 0) by {
        if |sub| <= |s| {
          assert s[0..|sub|] == s[..|sub|];
        }
      }
      if exists i :: OccursAt(s, sub, i) {
        var i :| OccursAt(s, sub, i);
        OccursAtTail(s, sub, i - 1);
        assert OccursAt(s[1..], sub, i - 1);
      }
      if exists i :: OccursAt(s[1..], sub, i) {
        var i :| OccursAt(s[1..], sub, i);
        OccursAtTail(s, sub, i);
      }
    }
  }

  /** Every text contains the empty string. */
  lemma ContainsEmpty(s: string)
    ensures Contains(s, "")
  {
    assert StartsWith(s, "");
  }

  /** Leftmost occurrence of `sub` in `s` at or after index `from`. */
  function FindFrom(s: string, sub: string, from: nat): (r: Option<nat>)
    ensures r.Some? ==> from <= r.value && OccursAt(s, sub, r.value)
    ensures r.Some? ==> forall j :: from <= j < r.value ==> !OccursAt(s, sub, j)
    ensures r.None? ==> forall j :: from <= j ==> !OccursAt(s, sub, j)
    decreases |s| - from
  {
    if from + |sub| > |s| then None
    else if OccursAt(s, sub, from) then Some(from)
    else FindFrom(s, sub, from + 1)
  }

  /** Element 1 of JavaScript's `s.split(sep)` for a non-empty separator: the text between the
      first occurrence of `sep` and the next one (or the end). `None` stands for `undefined`, the
      value JavaScript produces when `sep` does not occur at all. */
  function SplitSecond(s: string, sep: string): (r: Option<string>)
    requires |sep| > 0
    ensures r.None? <==> forall j :: !OccursAt(s, sep, j)
    ensures r.Some? ==> exists i: nat :: FirstOccurrence(s, sep, i) && PieceAt(s, sep, i + |sep|, r.value)
    ensures r.Some? ==> forall j :: !OccursAt(r.value, sep, j)
  {
    match FindFrom(s, sep, 0)
    case None => None
    case Some(i) =>
      var start := i + |sep|;
      var end := match FindFrom(s, sep, start) case None => |s| case Some(j) => j;
      PieceUpTo(s, sep, start, end);
      assert FirstOccurrence(s, sep, i);
      Some(s[start..end])
  }

  /** `sep` occurs at `i` and nowhere before. */
  predicate FirstOccurrence(s: string, sep: string, i: nat) {
    OccursAt(s, sep, i) && forall j :: 0 <= j < i ==> !OccursAt(s, sep, j)
  }

  /** The stretch from `start` up to the next occurrence of `sep` (or the end) is the piece cut at
      `start`, and holds no occurrence of `sep`. */
  lemma PieceUpTo(s: string, sep: string, start: nat, end: nat)
    requires |sep| > 0 && start <= end <= |s|
    requires forall j :: start <= j < end ==> !OccursAt(s, sep, j)
    requires end == |s| || OccursAt(s, sep, end)
    ensures PieceAt(s, sep, start, s[start..end])
    ensures forall j :: !OccursAt(s[start..end], sep, j)
  {
    PieceHasNoSeparator(s, sep, start, end);
  }

  /** The piece cut after the first occurrence is unique: whatever satisfies `SplitSecond`'s
      description is its result. */
  lemma SplitSecondIs(s: string, sep: string, i: nat, piece: string)
    requires |sep| > 0 && FirstOccurrence(s, sep, i) && PieceAt(s, sep, i + |sep|, piece)
    ensures SplitSecond(s, sep) == Some(piece)
  {
    DescribedPieceIs(s, sep, i, piece, SplitSecond(s, sep));
  }

  /** Any value meeting `SplitSecond`'s description when `sep` occurs first at `i` is the piece
      cut right after that occurrence. */
  lemma DescribedPieceIs(s: string, sep: string, i: nat, piece: string, r: Option<string>)
    requires |sep| > 0 && FirstOccurrence(s, sep, i) && PieceAt(s, sep, i + |sep|, piece)
    requires r.None? <==> forall j :: !OccursAt(s, sep, j)
    requires r.Some? ==> exists k: nat :: FirstOccurrence(s, sep, k) && PieceAt(s, sep, k + |sep|, r.value)
    ensures r == Some(piece)
  {
    assert r.Some? by {
      assert OccursAt(s, sep, i);
    }
    var k: nat :| FirstOccurrence(s, sep, k) && PieceAt(s, sep, k + |sep|, r.value);
    FirstOccurrenceUnique(s, sep, i, k);
    PieceAtUnique(s, sep, i + |sep|, piece, r.value);
  }

  lemma FirstOccurrenceUnique(s: string, sep: string, i: nat, k: nat)
    requires FirstOccurrence(s, sep, i) && FirstOccurrence(s, sep, k)
    ensures i == k
  {
  }

  /** Two pieces cut at the same index are the same. */
  lemma PieceAtUnique(s: string, sep: string, start: nat, p: string, q: string)
    requires PieceAt(s, sep, start, p) && PieceAt(s, sep, start, q)
    ensures p == q
  {
  }

  /** `piece` is what `split` cuts from `s` at index `start`: it runs from there up to the next
      occurrence of `sep` that starts at or after `start`, or to the end of `s`. */
  predicate PieceAt(s: string, sep: string, start: nat, piece: string) {
    && start + |piece| <= |s| && s[start..start + |piece|] == piece
    && (forall j :: start <= j < start + |piece| ==> !OccursAt(s, sep, j))
    && (start + |piece| == |s| || OccursAt(s, sep, start + |piece|))
  }

  /** A stretch of `s` in which no occurrence of `sep` fits contains no occurrence of it. */
  lemma PieceHasNoSeparator(s: string, sep: string, start: nat, end: nat)
    requires start <= end <= |s|
    requires forall j :: start <= j && j + |sep| <= end ==> !OccursAt(s, sep, j)
    ensures forall j :: !OccursAt(s[start..end], sep, j)
  {
    var piece := s[start..end];
    forall j | 0 <= j && j + |sep| <= |piece| ensures !OccursAt(piece, sep, j) {
      var a, b := piece[j..j + |sep|], s[start + j..start + j + |sep|];
      assert forall k :: 0 <= k < |sep| ==> a[k] == b[k];
      assert !OccursAt(s, sep, start + j);
    }
  }

  /** Index of the last `c` in `s`, or -1 when there is none (JavaScript `lastIndexOf`). */
  function LastIndexOf(s: string, c: char): (r: int)
    ensures -1 <= r < |s|
    ensures r == -1 <==> c !in s
    ensures r >= 0 ==> s[r] == c && forall k :: r < k < |s| ==> s[k] != c
    decreases |s|
  {
    if |s| == 0 then -1
    else if s[|s| - 1] == c then |s| - 1
    else
      assert s == s[..|s| - 1] + [s[|s| - 1]];
      LastIndexOf(s[..|s| - 1], c)
  }

  /** ASCII lower-casing of one character; every other character is left alone. */
  function LowerChar(c: char): char {
    if 'A' <= c <= 'Z' then (c as int + 32) as char else c
  }

  /** ASCII lower-casing of a string (JavaScript `toLowerCase` restricted to ASCII letters). */
  function Lower(s: string): (r: string)
    ensures |r| == |s|
    ensures forall i :: 0 <= i < |s| ==> r[i] == LowerChar(s[i])
    decreases |s|
  {
    if |s| == 0 then [] else [LowerChar(s[0])] + Lower(s[1..])
  }

  /** Number of occurrences of the character `c` in `s`. */
  function Count(s: string, c: char): nat
    decreases |s|
  {
    if |s| == 0 then 0 else (if s[0] == c then 1 else 0) + Count(s[1..], c)
  }

  /** Counting distributes over concatenation. */
  lemma {:induction false} CountAppend(a: string, b: string, c: char)
    ensures Count(a + b, c) == Count(a, c) + Count(b, c)
    decreases |a|
  {
    if |a| > 0 {
      assert (a + b)[0] == a[0];
      assert (a + b)[1..] == a[1..] + b;
      CountAppend(a[1..], b, c);
    } else {
      assert a + b == b;
    }
  }

  /** A text without `c` contains it zero times. */
  lemma {:induction false} CountAbsent(s: string, c: char)
    requires c !in s
    ensures Count(s, c) == 0
    decreases |s|
  {
    if |s| > 0 {
      CountAbsent(s[1..], c);
    }
  }

  /** `s` with every `c` removed (JavaScript `replace(/c/g, '')`, Go `strings.ReplaceAll(s, c, "")`). */
  function RemoveChar(s: string, c: char): (r: string)
    ensures c !in r
    ensures |r| == |s| - Count(s, c)
    ensures forall x :: x in r ==> x in s
    ensures c !in s ==> r == s
    decreases |s|
  {
    if |s| == 0 then []
    else if s[0] == c then RemoveChar(s[1..], c)
    else
      assert s == [s[0]] + s[1..];
      [s[0]] + RemoveChar(s[1..], c)
  }

  /** Removal distributes over concatenation. */
  lemma {:induction false} RemoveCharAppend(a: string, b: string, c: char)
    ensures RemoveChar(a + b, c) == RemoveChar(a, c) + RemoveChar(b, c)
    decreases |a|
  {
    if |a| > 0 {
      assert (a + b)[0] == a[0];
      assert (a + b)[1..] == a[1..] + b;
      RemoveCharAppend(a[1..], b, c);
    } else {
      assert a + b == b;
    }
  }

  /** Inverse of `Split`: the parts glued back together with the separator. */
  function Join(parts: seq<string>, sep: char): string
    requires |parts| >= 1
    decreases |parts|
  {
    if |parts| == 1 then parts[0]
    else Join(parts[..|parts| - 1], sep) + [sep] + parts[|parts| - 1]
  }

  /** Go `strings.Split(s, string(sep))` for a one-character separator: the maximal pieces
      between separators, including empty ones at either end. */
  function Split(s: string, sep: char): (parts: seq<string>)
    ensures |parts| >= 1
    ensures forall i :: 0 <= i < |parts| ==> sep !in parts[i]
    decreases |s|
  {
    var k := LastIndexOf(s, sep);
    if k < 0 then [s]
    else
      LastPieceHasNoSeparator(s, sep, k);
      var init := Split(s[..k], sep);
      SplitPiecesAppend(init, s[k + 1..], sep);
      init + [s[k + 1..]]
  }

  /** The text after the last separator holds no separator. */
  lemma LastPieceHasNoSeparator(s: string, sep: char, k: int)
    requires 0 <= k < |s| && k == LastIndexOf(s, sep)
    ensures sep !in s[k + 1..]
  {
    var last := s[k + 1..];
    assert forall j :: 0 <= j < |last| ==> last[j] == s[k + 1 + j];
  }

  /** Separator-free pieces stay separator-free when one more is appended. */
  lemma SplitPiecesAppend(init: seq<string>, last: string, sep: char)
    requires forall i :: 0 <= i < |init| ==> sep !in init[i]
    requires sep !in last
    ensures forall i :: 0 <= i < |init| + 1 ==> sep !in (init + [last])[i]
  {
    assert forall i :: 0 <= i < |init| ==> (init + [last])[i] == init[i];
  }

  /** Joining one more piece appends the separator and the piece. */
  lemma JoinAppend(init: seq<string>, last: string, sep: char)
    requires |init| >= 1
    ensures Join(init + [last], sep) == Join(init, sep) + [sep] + last
  {
    var parts := init + [last];
    assert parts[..|parts| - 1] == init;
    assert parts[|parts| - 1] == last;
  }

  /** A sequence is its prefix, one element and its suffix. */
  lemma SplitAround<T>(s: seq<T>, k: nat)
    requires k < |s|
    ensures s == s[..k] + [s[k]] + s[k + 1..]
  {
  }

  /** Splitting loses nothing: joining the pieces back with the separator restores the text. */
  lemma {:induction false} JoinSplit(s: string, sep: char)
    ensures Join(Split(s, sep), sep) == s
    decreases |s|
  {
    var k := LastIndexOf(s, sep);
    if k >= 0 {
      var init := Split(s[..k], sep);
      assert Split(s, sep) == init + [s[k + 1..]];
      JoinSplit(s[..k], sep);
      JoinAppend(init, s[k + 1..], sep);
      SplitAround(s, k);
    }
  }

  /** Text containing the separator splits into at least two pieces. */
  lemma SplitAtSeparator(s: string, sep: char)
    requires sep in s
    ensures |Split(s, sep)| >= 2
  {
    var k := LastIndexOf(s, sep);
    assert Split(s, sep) == Split(s[..k], sep) + [s[k + 1..]];
  }

  /** Appending a separator and a separator-free piece appends exactly that piece. */
  lemma SplitAppend(d: string, sep: char, n: string)
    requires sep !in n
    ensures Split(d + [sep] + n, sep) == Split(d, sep) + [n]
  {
    var s := d + [sep] + n;
    assert s[|d|] == sep;
    assert forall k :: |d| < k < |s| ==> s[k] == n[k - |d| - 1];
    assert LastIndexOf(s, sep) == |d|;
    assert s[..|d|] == d;
    assert s[|d| + 1..] == n;
  }

  /** Decimal digit test. */
  predicate IsDigit(c: char) {
    '0' <= c <= '9'
  }

  predicate AllDigits(s: string) {
    forall i :: 0 <= i < |s| ==> IsDigit(s[i])
  }

  function DigitChar(d: nat): char
    requires d < 10
  {
    (d + '0' as int) as char
  }

  function DigitValue(c: char): nat
    requires IsDigit(c)
  {
    c as int - '0' as int
  }

  function Pow10(n: nat): (r: nat)
    ensures r >= 1
  {
    if n == 0 then 1 else 10 * Pow10(n - 1)
  }

  /** Decimal rendering of a natural number without leading zeros (Go `%d`, `strconv.Itoa`). */
  function NatToString(n: nat): (r: string)
    ensures |r| >= 1 && AllDigits(r)
    ensures |r| > 1 ==> r[0] != '0'
    decreases n
  {
    if n < 10 then [DigitChar(n)]
    else
      var prefix := NatToString(n / 10);
      prefix + [DigitChar(n % 10)]
  }

  /** The value of a string of decimal digits (the empty string reads as 0). */
  function ParseDigits(s: string): nat
    requires AllDigits(s)
    decreases |s|
  {
    if |s| == 0 then 0
    else ParseDigits(s[..|s| - 1]) * 10 + DigitValue(s[|s| - 1])
  }

  /** Reading back a rendered number gives the number. */
  lemma {:induction false} ParseNatToString(n: nat)
    ensures ParseDigits(NatToString(n)) == n
    decreases n
  {
    var r := NatToString(n);
    if n >= 10 {
      ParseNatToString(n / 10);
      assert r[..|r| - 1] == NatToString(n / 10);
    }
  }

  /** Rendering is injective: distinct numbers have distinct renderings. */
  lemma NatToStringInjective(a: nat, b: nat)
    requires NatToString(a) == NatToString(b)
    ensures a == b
  {
    ParseNatToString(a);
    ParseNatToString(b);
  }

  /** A number of at least 10^L needs more than L digits. */
  lemma {:induction false} NatToStringLength(n: nat, L: nat)
    requires n >= Pow10(L)
    ensures |NatToString(n)| > L
    decreases L
  {
    if L > 0 {
      assert n >= 10;
      assert n / 10 >= Pow10(L - 1);
      NatToStringLength(n / 10, L - 1);
    }
  }

  const Int64Min: int := -0x8000_0000_0000_0000
  const Int64Max: int := 0x7FFF_FFFF_FFFF_FFFF

  /** `s` without its leading sign character, if it has one. */
  function Unsigned(s: string): string {
    if |s| > 0 && (s[0] == '-' || s[0] == '+') then s[1..] else s
  }

  /** The syntax `strconv.ParseInt` accepts in base 10: an optional sign, then one or more decimal
      digits. */
  predicate DecimalSyntax(s: string) {
    |Unsigned(s)| > 0 && AllDigits(Unsigned(s))
  }

  /** The value of a string in decimal syntax. */
  function DecimalValue(s: string): int
    requires DecimalSyntax(s)
  {
    if s[0] == '-' then -(ParseDigits(Unsigned(s)) as int) else ParseDigits(Unsigned(s))
  }

  /** Go `strconv.ParseInt(s, 10, 64)`: an optional sign, then at least one decimal digit, and a
      value that fits a signed 64-bit integer; anything else is an error (`None`). */
  function ParseInt64(s: string): (r: Option<int>)
    ensures r.Some? <==> DecimalSyntax(s) && Int64Min <= DecimalValue(s) <= Int64Max
    ensures r.Some? ==> r.value == DecimalValue(s)
    ensures r.Some? ==> forall i :: 0 < i < |s| ==> IsDigit(s[i])
    ensures r.Some? ==> IsDigit(s[0]) || s[0] == '-' || s[0] == '+'
    ensures r.Some? ==> Int64Min <= r.value <= Int64Max
    ensures |s| == 0 ==> r.None?
    ensures r.Some? && r.value > 0 ==> s[0] != '-'
  {
    if |s| == 0 then None
    else
      var negative := s[0] == '-';
      var digits := if s[0] == '-' || s[0] == '+' then s[1..] else s;
      if |digits| == 0 || !AllDigits(digits) then None
      else
        var v: int := if negative then -(ParseDigits(digits) as int) else ParseDigits(digits);
        if v < Int64Min || v > Int64Max then None else Some(v)
  }

  /** A fraction or a trailing unit is not an integer: "1.5" and "60m" are refused. */
  lemma FractionAndUnitRejected()
    ensures ParseInt64("1.5").None? && ParseInt64("60m").None?
  {
    assert !IsDigit(Unsigned("1.5")[1]);
    assert !IsDigit(Unsigned("60m")[2]);
  }

  /** Every in-range natural number survives rendering and `ParseInt64`. */
  lemma ParseInt64RoundTrip(n: nat)
    requires n <= Int64Max
    ensures ParseInt64(NatToString(n)) == Some(n)
  {
    ParseNatToString(n);
  }

  /** A negative in-range number survives rendering with a leading '-' and `ParseInt64`. */
  lemma ParseInt64NegativeRoundTrip(n: nat)
    requires n <= -Int64Min
    ensures ParseInt64("-" + NatToString(n)) == Some(-(n as int))
  {
    ParseNatToString(n);
    assert ("-" + NatToString(n))[1..] == NatToString(n);
  }

  /** JavaScript's normalisation of a `slice` bound: a negative index counts from the end and is
      clamped at 0; an index past the end is clamped to the length. */
  function JsIndex(i: int, len: nat): (r: nat)
    ensures r <= len
    ensures 0 <= i <= len ==> r == i
    ensures i > len ==> r == len
    ensures i < 0 && len + i >= 0 ==> r == len + i
    ensures len + i < 0 ==> r == 0
  {
    if i < 0 then (if len + i < 0 then 0 else len + i)
    else if i > len then len
    else i
  }

  /** JavaScript `s.slice(start, end)`: empty when the normalised end is not after the start. */
  function JsSlice(s: string, start: int, end: int): (r: string)
    ensures |r| <= |s|
    ensures StartsWith(s[JsIndex(start, |s|)..], r)
    ensures var a, b := JsIndex(start, |s|), JsIndex(end, |s|); |r| == if a < b then b - a else 0
  {
    var a := JsIndex(start, |s|);
    var b := JsIndex(end, |s|);
    if a < b then s[a..b] else []
  }
}
