// Text helpers shared by the coordination engine (Go) and the offline snapshot
// checker (Python): substring search, splitting on a separator, whitespace
// stripping, and decimal formatting and parsing of integers.

module Text {

  datatype Option<T> = None | Some(value: T) {
    function GetOr(default: T): T {
      match this
      case Some(v) => v
      case None => default
    }
  }

  // ---------------------------------------------------------------------------
  // Substrings
  // ---------------------------------------------------------------------------

  /** `w` occurs in `s` at position `i`. */
  predicate OccursAt(s: string, w: string, i: int) {
    0 <= i && i + |w| <= |s| && s[i..i + |w|] == w
  }

  /** Substring containment: Go's strings.Contains and Python's `in`. */
  predicate Contains(s: string, w: string) {
    exists i :: 0 <= i <= |s| && OccursAt(s, w, i)
  }

  /** The first position at or after `from` where `w` occurs in `s`. */
  function FindFrom(s: string, w: string, from: nat): (r: Option<nat>)
    ensures r.Some? ==> from <= r.value && OccursAt(s, w, r.value)
    ensures r.Some? ==> forall j :: from <= j < r.value ==> !OccursAt(s, w, j)
    ensures r.None? ==> forall j :: from <= j ==> !OccursAt(s, w, j)
    decreases |s| - from
  {
    if from + |w| > |s| then None
    else if s[from..from + |w|] == w then Some(from)
    else FindFrom(s, w, from + 1)
  }

  /** The first position where `w` occurs in `s`, if any. */
  function Find(s: string, w: string): (r: Option<nat>)
    ensures r.Some? <==> Contains(s, w)
    ensures r.Some? ==> OccursAt(s, w, r.value) && forall j :: 0 <= j < r.value ==> !OccursAt(s, w, j)
  {
    FindFrom(s, w, 0)
  }

  /**
   * The fields of `s` between occurrences of the non-empty separator `sep`,
   * scanned left to right without overlap: Go's strings.Split and Python's
   * str.split with an explicit separator.
   */
  function Split(s: string, sep: string): (r: seq<string>)
    requires |sep| > 0
    ensures |r| > 0
    decreases |s|
  {
    match Find(s, sep)
    case None => [s]
    case Some(i) => [s[..i]] + Split(s[i + |sep|..], sep)
  }

  lemma {:induction false} SplitNoSeparator(s: string, sep: string)
    requires |sep| > 0 && !Contains(s, sep)
    ensures Split(s, sep) == [s]
  {
  }

  /** A field free of ':' is cut off at the first ':' that follows it. */
  lemma {:induction false} SplitAtColon(a: string, b: string)
    requires ':' !in a
    ensures Split(a + ":" + b, ":") == [a] + Split(b, ":")
  {
    var s := a + ":" + b;
    assert OccursAt(s, ":", |a|);
    forall j | 0 <= j < |a|
      ensures !OccursAt(s, ":", j)
    {
      assert s[j] == a[j];
    }
    assert Find(s, ":") == Some(|a|);
    assert s[..|a|] == a;
    assert s[|a| + 1..] == b;
  }

  // ---------------------------------------------------------------------------
  // Stripping
  // ---------------------------------------------------------------------------

  /**
   * The characters Python's str.isspace() accepts, which str.strip() with no
   * argument removes: tab to carriage return, the separators U+1C to U+1F,
   * space, and the Unicode spaces and line and paragraph separators.
   */
  predicate IsSpace(c: char) {
    || '\t' <= c <= '\r' || '\U{1C}' <= c <= ' '
    || c == '\U{85}' || c == '\U{A0}' || c == '\U{1680}' || '\U{2000}' <= c <= '\U{200A}'
    || c == '\U{2028}' || c == '\U{2029}' || c == '\U{202F}' || c == '\U{205F}' || c == '\U{3000}'
  }

  /** `r` is the slice s[i..j] of `s`, and every character cut off on either side is in `cs`. */
  ghost predicate IsTrimOf(r: string, s: string, cs: set<char>) {
    exists i, j :: 0 <= i <= j <= |s| && r == s[i..j]
      && (forall k :: 0 <= k < i ==> s[k] in cs)
      && (forall k :: j <= k < |s| ==> s[k] in cs)
  }

  /** A trim of s[1..] is a trim of `s` when s[0] is cut off too. */
  lemma {:induction false} TrimAfterFirst(r: string, s: string, cs: set<char>)
    requires |s| > 0 && s[0] in cs && IsTrimOf(r, s[1..], cs)
    ensures IsTrimOf(r, s, cs)
  {
    var i, j :| 0 <= i <= j <= |s| - 1 && r == s[1..][i..j]
      && (forall k :: 0 <= k < i ==> s[1..][k] in cs)
      && (forall k :: j <= k < |s| - 1 ==> s[1..][k] in cs);
    assert r == s[i + 1..j + 1];
    forall k | 0 <= k < i + 1 ensures s[k] in cs {
      if k > 0 { assert s[k] == s[1..][k - 1]; }
    }
    forall k | j + 1 <= k < |s| ensures s[k] in cs {
      assert s[k] == s[1..][k - 1];
    }
  }

  /** A trim of s[..|s| - 1] is a trim of `s` when the last character is cut off too. */
  lemma {:induction false} TrimBeforeLast(r: string, s: string, cs: set<char>)
    requires |s| > 0 && s[|s| - 1] in cs && IsTrimOf(r, s[..|s| - 1], cs)
    ensures IsTrimOf(r, s, cs)
  {
    var t := s[..|s| - 1];
    var i, j :| 0 <= i <= j <= |t| && r == t[i..j]
      && (forall k :: 0 <= k < i ==> t[k] in cs)
      && (forall k :: j <= k < |t| ==> t[k] in cs);
    assert r == s[i..j];
    forall k | 0 <= k < i ensures s[k] in cs {
      assert s[k] == t[k];
    }
    forall k | j <= k < |s| ensures s[k] in cs {
      if k < |t| { assert s[k] == t[k]; }
    }
  }

  /** `s` without any leading or trailing character from the set `cs`: Python's str.strip(cs). */
  function StripChars(s: string, cs: set<char>): (r: string)
    ensures |r| <= |s|
    ensures r != [] ==> r[0] !in cs && r[|r| - 1] !in cs
    decreases |s|
  {
    if s == [] then []
    else if s[0] in cs then StripChars(s[1..], cs)
    else if s[|s| - 1] in cs then StripChars(s[..|s| - 1], cs)
    else s
  }

  /**
   * Stripping keeps a slice of `s` and cuts off only characters from `cs`;
   * with the ends of the result outside `cs` (StripChars' own contract), it
   * cuts off exactly the leading and trailing run of such characters.
   */
  lemma {:induction false} StripCharsTrims(s: string, cs: set<char>)
    ensures IsTrimOf(StripChars(s, cs), s, cs)
    decreases |s|
  {
    var r := StripChars(s, cs);
    if s == [] {
      assert s[0..0] == r;
    } else if s[0] in cs {
      StripCharsTrims(s[1..], cs);
      TrimAfterFirst(r, s, cs);
    } else if s[|s| - 1] in cs {
      StripCharsTrims(s[..|s| - 1], cs);
      TrimBeforeLast(r, s, cs);
    } else {
      assert s[0..|s|] == r;
    }
  }

  /** Python's str.strip() with no argument. */
  function Strip(s: string): string {
    StripChars(s, set c | c in s && IsSpace(c))
  }

  // ---------------------------------------------------------------------------
  // Decimal integers
  // ---------------------------------------------------------------------------

  predicate IsDigit(c: char) {
    '0' <= c <= '9'
  }

  predicate AllDigits(s: string) {
    forall i :: 0 <= i < |s| ==> IsDigit(s[i])
  }

  function DigitChar(d: nat): (c: char)
    requires d < 10
    ensures IsDigit(c) && c as int - '0' as int == d
  {
    (d + '0' as int) as char
  }

  /** The decimal digits of `n`, most significant first, without leading zeros. */
  function NatToString(n: nat): (s: string)
    ensures |s| > 0 && AllDigits(s)
    ensures n < 10 <==> |s| == 1
  {
    if n < 10 then [DigitChar(n)] else NatToString(n / 10) + [DigitChar(n % 10)]
  }

  /** Go's `%d` rendering of an integer. */
  function IntToString(n: int): (s: string)
    ensures |s| > 0
    ensures forall i :: 0 <= i < |s| ==> IsDigit(s[i]) || s[i] == '-'
  {
    if n < 0 then "-" + NatToString(-n) else NatToString(n)
  }

  /** The value of a string of decimal digits. */
  function DigitsValue(s: string): nat
    requires AllDigits(s)
  {
    if s == [] then 0 else DigitsValue(s[..|s| - 1]) * 10 + (s[|s| - 1] as int - '0' as int)
  }

  /**
   * A decimal integer with an optional sign: the text Go's strconv.Atoi and
   * Python's int() accept once overflow and whitespace are set aside.
   */
  function ParseDecimal(s: string): (r: Option<int>)
    ensures r.Some? ==> |s| > 0 && (AllDigits(s) || s[0] == '-' || s[0] == '+')
  {
    if |s| > 0 && (s[0] == '-' || s[0] == '+') then
      if |s| > 1 && AllDigits(s[1..]) then
        var v: int := DigitsValue(s[1..]);
        Some(if s[0] == '-' then -v else v)
      else None
    else if |s| > 0 && AllDigits(s) then Some(DigitsValue(s))
    else None
  }

  lemma {:induction false} DigitsValueOfNat(n: nat)
    ensures DigitsValue(NatToString(n)) == n
  {
    var s := NatToString(n);
    if n >= 10 {
      DigitsValueOfNat(n / 10);
      assert s[..|s| - 1] == NatToString(n / 10);
    }
  }

  lemma {:induction false} ParseNatToString(n: nat)
    ensures ParseDecimal(NatToString(n)) == Some(n)
  {
    var s := NatToString(n);
    DigitsValueOfNat(n);
    assert IsDigit(s[0]);
  }

  /** A minus sign before decimal digits parses to the negated value. */
  lemma {:induction false} ParseMinusDigits(d: string)
    requires |d| > 0 && AllDigits(d)
    ensures ParseDecimal("-" + d) == Some(-(DigitsValue(d) as int))
  {
    var s := "-" + d;
    assert s[1..] == d;
  }

  lemma {:induction false} ParseNegative(n: int)
    requires n < 0
    ensures ParseDecimal("-" + NatToString(-n)) == Some(n)
  {
    ParseMinusDigits(NatToString(-n));
    DigitsValueOfNat(-n);
  }

  /** Parsing what `%d` printed gives back the integer. */
  lemma {:induction false} ParseIntToString(n: int)
    ensures ParseDecimal(IntToString(n)) == Some(n)
  {
    if n < 0 {
      ParseNegative(n);
    } else {
      ParseNatToString(n);
    }
  }
}
