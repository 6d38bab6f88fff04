/**
 * The parts of Rust's `str` that the puzzle solutions of src/advent.rs rely
 * on: `split` on a one-character pattern, `split("")`, `trim`, and
 * `parse::<u64>()`. Strings are sequences of characters.
 */
module RustStr {
  import opened Wrappers

  const U64_MAX: nat := 0xffff_ffff_ffff_ffff

  // ---------------------------------------------------------------------
  // split / join
  // ---------------------------------------------------------------------

  /**
   * `s.split(sep)` for a one-character separator: the pieces between
   * separators, so n separators give n + 1 pieces (the empty string gives
   * one empty piece).
   */
  function Split(s: string, sep: char): (r: seq<string>)
    ensures |r| >= 1
    ensures forall p :: p in r ==> sep !in p
    decreases |s|
  {
    if |s| == 0 then [""]
    else
      var rest := Split(s[1..], sep);
      if s[0] == sep then [""] + rest
      else [[s[0]] + rest[0]] + rest[1..]
  }

  /** The pieces glued back together with the separator between them. */
  function Join(parts: seq<string>, sep: char): string
    requires |parts| >= 1
    decreases |parts|
  {
    if |parts| == 1 then parts[0] else parts[0] + [sep] + Join(parts[1..], sep)
  }

  /**
   * `s.split(pat)` for a pattern of several characters: the matches are
   * found left to right without overlapping.
   */
  function SplitOn(s: string, pat: string): (r: seq<string>)
    requires |pat| > 0
    ensures |r| >= 1
    decreases |s|
  {
    if |s| < |pat| then [s]
    else if s[..|pat|] == pat then [""] + SplitOn(s[|pat|..], pat)
    else
      var rest := SplitOn(s[1..], pat);
      [[s[0]] + rest[0]] + rest[1..]
  }

  /** With a one-character pattern, SplitOn is the one-character split. */
  lemma {:induction false} SplitOnOneChar(s: string, sep: char)
    ensures SplitOn(s, [sep]) == Split(s, sep)
    decreases |s|
  {
    if |s| > 0 {
      SplitOnOneChar(s[1..], sep);
      assert s[..1] == [s[0]];
    }
  }

  /**
   * No match of pat starts inside p, even when pat itself follows p: the
   * leftmost match in p + pat + rest is then the one right after p.
   */
  predicate NoMatchStartsIn(p: string, pat: string) {
    forall i :: 0 <= i < |p| ==> !MatchAt(p + pat, i, pat)
  }

  /** pat occurs in s at position i. */
  predicate MatchAt(s: string, i: nat, pat: string) {
    i + |pat| <= |s| && s[i..i + |pat|] == pat
  }

  lemma NoMatchStartsInTail(p: string, pat: string)
    requires |p| > 0 && NoMatchStartsIn(p, pat)
    ensures NoMatchStartsIn(p[1..], pat)
  {
    forall i | 0 <= i < |p[1..]|
      ensures !MatchAt(p[1..] + pat, i, pat)
    {
      assert !MatchAt(p + pat, i + 1, pat);
      assert (p[1..] + pat)[i..i + |pat|] == (p + pat)[i + 1..i + 1 + |pat|];
    }
  }

  /** The pieces glued back together with the pattern between them. */
  function JoinOn(parts: seq<string>, pat: string): string
    requires |parts| >= 1
    decreases |parts|
  {
    if |parts| == 1 then parts[0] else parts[0] + pat + JoinOn(parts[1..], pat)
  }

  lemma {:induction false} SplitOnWithout(p: string, pat: string)
    requires |pat| > 0 && NoMatchStartsIn(p, pat)
    ensures SplitOn(p, pat) == [p]
    decreases |p|
  {
    if |p| >= |pat| {
      assert !MatchAt(p + pat, 0, pat);
      assert (p + pat)[0..|pat|] == p[..|pat|];
      NoMatchStartsInTail(p, pat);
      SplitOnWithout(p[1..], pat);
      assert [p[0]] + p[1..] == p;
    }
  }

  lemma {:induction false} SplitOnFirst(p: string, pat: string, t: string)
    requires |pat| > 0 && NoMatchStartsIn(p, pat)
    ensures SplitOn(p + pat + t, pat) == [p] + SplitOn(t, pat)
    decreases |p|
  {
    var s := p + pat + t;
    if |p| == 0 {
      assert s == pat + t;
      assert s[..|pat|] == pat && s[|pat|..] == t;
    } else {
      assert !MatchAt(p + pat, 0, pat);
      assert s[..|pat|] == (p + pat)[0..|pat|];
      assert s[1..] == p[1..] + pat + t;
      NoMatchStartsInTail(p, pat);
      SplitOnFirst(p[1..], pat, t);
      assert [p[0]] + p[1..] == p;
    }
  }

  /** Splitting on a pattern undoes joining with it, when no match starts inside a piece. */
  lemma {:induction false} SplitOnJoin(parts: seq<string>, pat: string)
    requires |pat| > 0 && |parts| >= 1
    requires forall k :: 0 <= k < |parts| ==> NoMatchStartsIn(parts[k], pat)
    ensures SplitOn(JoinOn(parts, pat), pat) == parts
    decreases |parts|
  {
    if |parts| == 1 {
      SplitOnWithout(parts[0], pat);
    } else {
      SplitOnJoin(parts[1..], pat);
      SplitOnFirst(parts[0], pat, JoinOn(parts[1..], pat));
      assert [parts[0]] + parts[1..] == parts;
    }
  }

  lemma {:induction false} SplitWithout(p: string, sep: char)
    requires sep !in p
    ensures Split(p, sep) == [p]
    decreases |p|
  {
    if |p| > 0 {
      SplitWithout(p[1..], sep);
      assert [p[0]] + p[1..] == p;
    }
  }

  lemma {:induction false} SplitFirst(p: string, sep: char, t: string)
    requires sep !in p
    ensures Split(p + [sep] + t, sep) == [p] + Split(t, sep)
    decreases |p|
  {
    if |p| == 0 {
      assert p + [sep] + t == [sep] + t;
      assert ([sep] + t)[1..] == t;
    } else {
      var s := p + [sep] + t;
      assert s[1..] == p[1..] + [sep] + t;
      SplitFirst(p[1..], sep, t);
      assert [p[0]] + p[1..] == p;
    }
  }

  /** Splitting undoes joining, when no piece holds the separator. */
  lemma {:induction false} SplitJoin(parts: seq<string>, sep: char)
    requires |parts| >= 1 && forall p :: p in parts ==> sep !in p
    ensures Split(Join(parts, sep), sep) == parts
    decreases |parts|
  {
    if |parts| == 1 {
      SplitWithout(parts[0], sep);
    } else {
      SplitJoin(parts[1..], sep);
      SplitFirst(parts[0], sep, Join(parts[1..], sep));
      assert [parts[0]] + parts[1..] == parts;
    }
  }

  /** Joining undoes splitting: no character is lost or added. */
  lemma {:induction false} JoinSplit(s: string, sep: char)
    ensures Join(Split(s, sep), sep) == s
    decreases |s|
  {
    if |s| > 0 {
      JoinSplit(s[1..], sep);
      var rest := Split(s[1..], sep);
      if s[0] != sep {
        if |rest| == 1 {
          assert Join(rest, sep) == rest[0];
        } else {
          assert Join(rest, sep) == rest[0] + [sep] + Join(rest[1..], sep);
        }
      }
    }
  }

  /**
   * `s.split("")`: an empty piece, each character as a piece of its own,
   * and a final empty piece.
   */
  function SplitEmpty(s: string): (r: seq<string>)
    ensures |r| == |s| + 2
    ensures r[0] == "" && r[|s| + 1] == ""
    ensures forall i :: 0 <= i < |s| ==> r[i + 1] == [s[i]]
  {
    [""] + seq(|s|, i requires 0 <= i < |s| => [s[i]]) + [""]
  }

  // ---------------------------------------------------------------------
  // trim
  // ---------------------------------------------------------------------

  /** `char::is_whitespace`: the Unicode White_Space property. */
  predicate IsWhitespace(c: char) {
    '\t' <= c <= '\r' || c == ' ' || c == '\U{85}' || c == '\U{A0}' || c == '\U{1680}'
    || '\U{2000}' <= c <= '\U{200A}' || c == '\U{2028}' || c == '\U{2029}'
    || c == '\U{202F}' || c == '\U{205F}' || c == '\U{3000}'
  }

  /** `trim_start`: drops the leading whitespace and nothing else. */
  function TrimStart(s: string): (r: string)
    ensures |r| <= |s| && r == s[|s| - |r|..]
    ensures forall i :: 0 <= i < |s| - |r| ==> IsWhitespace(s[i])
    ensures |r| > 0 ==> !IsWhitespace(r[0])
  {
    if |s| > 0 && IsWhitespace(s[0]) then TrimStart(s[1..]) else s
  }

  /** `trim_end`: drops the trailing whitespace and nothing else. */
  function TrimEnd(s: string): (r: string)
    ensures |r| <= |s| && r == s[..|r|]
    ensures forall i :: |r| <= i < |s| ==> IsWhitespace(s[i])
    ensures |r| > 0 ==> !IsWhitespace(r[|r| - 1])
  {
    if |s| > 0 && IsWhitespace(s[|s| - 1]) then TrimEnd(s[..|s| - 1]) else s
  }

  /** `trim`. */
  function Trim(s: string): string {
    TrimEnd(TrimStart(s))
  }

  /** A trimmed string is a slice of the original that neither starts nor ends with whitespace. */
  lemma TrimIsInnerSlice(s: string)
    ensures exists i, j ::
      && 0 <= i <= j <= |s| && Trim(s) == s[i..j]
      && (forall k :: 0 <= k < i ==> IsWhitespace(s[k]))
      && (forall k :: j <= k < |s| ==> IsWhitespace(s[k]))
    ensures |Trim(s)| > 0 ==> !IsWhitespace(Trim(s)[0]) && !IsWhitespace(Trim(s)[|Trim(s)| - 1])
  {
    var t := TrimStart(s);
    var i := |s| - |t|;
    var j := i + |TrimEnd(t)|;
    assert Trim(s) == s[i..j];
    forall k | j <= k < |s|
      ensures IsWhitespace(s[k])
    {
      assert s[k] == t[k - i];
    }
  }

  // ---------------------------------------------------------------------
  // parse::<u64>
  // ---------------------------------------------------------------------

  predicate IsDigit(c: char) {
    '0' <= c <= '9'
  }

  predicate AllDigits(s: string) {
    forall i :: 0 <= i < |s| ==> IsDigit(s[i])
  }

  /** The value of a string of decimal digits, most significant first. */
  function DigitsValue(s: string): nat
    requires AllDigits(s)
  {
    if |s| == 0 then 0
    else DigitsValue(s[..|s| - 1]) * 10 + (s[|s| - 1] as int - '0' as int)
  }

  /**
   * `s.parse::<u64>()`: an optional leading '+' (not on its own), then one or
   * more decimal digits whose value fits in 64 bits; anything else is an error.
   */
  function ParseU64(s: string): Option<nat> {
    var digits := if |s| > 1 && s[0] == '+' then s[1..] else s;
    if |digits| == 0 || !AllDigits(digits) then None
    else if DigitsValue(digits) > U64_MAX then None
    else Some(DigitsValue(digits))
  }

  /** The decimal rendering of n without leading zeros (`n.to_string()`). */
  function Decimal(n: nat): (r: string)
    ensures |r| >= 1 && AllDigits(r)
  {
    var d := ['0' + (n % 10) as char];
    if n < 10 then d else Decimal(n / 10) + d
  }

  lemma {:induction false} DecimalValue(n: nat)
    ensures DigitsValue(Decimal(n)) == n
  {
    if n >= 10 {
      DecimalValue(n / 10);
      assert Decimal(n)[..|Decimal(n)| - 1] == Decimal(n / 10);
    }
  }

  /** Parsing a rendered number gives it back. */
  lemma ParseDecimal(n: nat)
    requires n <= U64_MAX
    ensures ParseU64(Decimal(n)) == Some(n)
  {
    DecimalValue(n);
  }
}
